/** Building an object from key/value occurrences: first key position, last value. */
module ObjectBuilder {

  datatype Entry<+V> = Entry(key: string, value: V)

  // ----- The law -----

  predicate HasKey<V>(entries: seq<Entry<V>>, key: string)
  {
    exists k :: 0 <= k < |entries| && entries[k].key == key
  }

  /** The value of the last occurrence of `key`. */
  function LastValue<V>(entries: seq<Entry<V>>, key: string): V
    requires HasKey(entries, key)
  {
    var n := |entries| - 1;
    if entries[n].key == key then entries[n].value
    else
      assert HasKey(entries[..n], key) by {
        var k :| 0 <= k < |entries| && entries[k].key == key;
        assert entries[..n][k].key == key;
      }
      LastValue(entries[..n], key)
  }

  /** The value of the first occurrence of `key`. */
  function FirstValue<V>(entries: seq<Entry<V>>, key: string): V
    requires HasKey(entries, key)
  {
    if entries[0].key == key then entries[0].value
    else
      assert HasKey(entries[1..], key) by {
        var k :| 0 <= k < |entries| && entries[k].key == key;
        assert entries[1..][k - 1].key == key;
      }
      FirstValue(entries[1..], key)
  }

  /** `entries` without every occurrence of `key`. */
  function Without<V>(entries: seq<Entry<V>>, key: string): (r: seq<Entry<V>>)
    ensures |r| <= |entries|
  {
    if entries == [] then []
    else if entries[0].key == key then Without(entries[1..], key)
    else [entries[0]] + Without(entries[1..], key)
  }

  /** First key position, last value. */
  function Deduplicated<V>(entries: seq<Entry<V>>): seq<Entry<V>>
    decreases |entries|
  {
    if entries == [] then []
    else
      var key := entries[0].key;
      assert entries[0].key == key;
      [Entry(key, LastValue(entries, key))] + Deduplicated(Without(entries[1..], key))
  }

  /** Member-by-member insertion: a new key goes last, a known key keeps its place and takes the new value. */
  function Insert<V>(entries: seq<Entry<V>>, e: Entry<V>): seq<Entry<V>>
  {
    if entries == [] then [e]
    else if entries[0].key == e.key then [e] + entries[1..]
    else [entries[0]] + Insert(entries[1..], e)
  }

  function InsertAll<V>(entries: seq<Entry<V>>): seq<Entry<V>>
  {
    if entries == [] then []
    else Insert(InsertAll(entries[..|entries| - 1]), entries[|entries| - 1])
  }

  // ----- The two forms agree -----

  lemma HasKeyIn<V>(entries: seq<Entry<V>>, e: Entry<V>, key: string)
    ensures HasKey([e] + entries, key) <==> e.key == key || HasKey(entries, key)
    ensures HasKey(entries + [e], key) <==> e.key == key || HasKey(entries, key)
  {
    var front, back := [e] + entries, entries + [e];
    assert front[0] == e && back[|entries|] == e;
    forall k | 0 <= k < |entries|
      ensures front[k + 1] == entries[k] && back[k] == entries[k]
    {
    }
  }

  lemma LastValueAppend<V>(entries: seq<Entry<V>>, e: Entry<V>, key: string)
    requires e.key == key || HasKey(entries, key)
    ensures HasKey(entries + [e], key)
    ensures LastValue(entries + [e], key) == if e.key == key then e.value else LastValue(entries, key)
  {
    var all := entries + [e];
    assert all[..|entries|] == entries;
    if e.key == key {
      assert all[|entries|].key == key;
    } else {
      var k :| 0 <= k < |entries| && entries[k].key == key;
      assert all[k].key == key;
    }
  }

  lemma {:induction false} WithoutAppend<V>(entries: seq<Entry<V>>, e: Entry<V>, key: string)
    ensures Without(entries + [e], key) == if e.key == key then Without(entries, key) else Without(entries, key) + [e]
  {
    if entries == [] {
      assert entries + [e] == [e];
      assert [e][1..] == [];
    } else {
      assert (entries + [e])[1..] == entries[1..] + [e];
      WithoutAppend(entries[1..], e, key);
    }
  }

  lemma {:induction false} DeduplicatedAppend<V>(entries: seq<Entry<V>>, e: Entry<V>)
    ensures Deduplicated(entries + [e]) == Insert(Deduplicated(entries), e)
    decreases |entries|
  {
    var all := entries + [e];
    if entries == [] {
      assert all == [e] && all[1..] == [];
      LastValueAppend(entries, e, e.key);
    } else {
      var key := entries[0].key;
      assert all[0] == entries[0] && all[1..] == entries[1..] + [e];
      assert HasKey(entries, key);
      LastValueAppend(entries, e, key);
      WithoutAppend(entries[1..], e, key);
      var rest := Without(entries[1..], key);
      if e.key != key {
        DeduplicatedAppend(rest, e);
      } else {
        var d := Deduplicated(entries);
        assert d[1..] == Deduplicated(rest);
      }
    }
  }

  /** Collapsing all occurrences at the end is the same as inserting the members one by one. */
  lemma {:induction false} CollapseIsInsertion<V>(entries: seq<Entry<V>>)
    ensures Deduplicated(entries) == InsertAll(entries)
  {
    if entries != [] {
      var n := |entries| - 1;
      CollapseIsInsertion(entries[..n]);
      DeduplicatedAppend(entries[..n], entries[n]);
      assert entries == entries[..n] + [entries[n]];
    }
  }

  // ----- Distinct keys -----

  /** No key occurs twice. */
  predicate Distinct<V>(entries: seq<Entry<V>>)
  {
    forall i, k :: 0 <= i < k < |entries| ==> entries[i].key != entries[k].key
  }

  lemma {:induction false} WithoutHasKey<V>(entries: seq<Entry<V>>, gone: string, key: string)
    ensures HasKey(Without(entries, gone), key) <==> key != gone && HasKey(entries, key)
  {
    if entries != [] {
      WithoutHasKey(entries[1..], gone, key);
      HasKeyIn(entries[1..], entries[0], key);
      assert entries == [entries[0]] + entries[1..];
      HasKeyIn(Without(entries[1..], gone), entries[0], key);
    }
  }

  lemma {:induction false} WithoutDistinct<V>(entries: seq<Entry<V>>, gone: string)
    requires Distinct(entries)
    ensures Distinct(Without(entries, gone))
  {
    if entries != [] {
      var rest := Without(entries[1..], gone);
      WithoutDistinct(entries[1..], gone);
      forall k | 0 <= k < |rest|
        ensures rest[k].key != entries[0].key
      {
        assert HasKey(rest, rest[k].key);
        WithoutHasKey(entries[1..], gone, rest[k].key);
      }
    }
  }

  /** Members with distinct keys need no deduplication. */
  lemma {:induction false} DistinctStays<V>(entries: seq<Entry<V>>)
    requires Distinct(entries)
    ensures Deduplicated(entries) == entries
  {
    if entries != [] {
      var key := entries[0].key;
      var rest := entries[1..];
      WithoutAbsent(rest, key);
      DistinctStays(rest);
      assert entries[0].key == key;
      LastOfDistinct(entries);
    }
  }

  lemma {:induction false} WithoutAbsent<V>(entries: seq<Entry<V>>, key: string)
    requires forall k :: 0 <= k < |entries| ==> entries[k].key != key
    ensures Without(entries, key) == entries
  {
    if entries != [] {
      WithoutAbsent(entries[1..], key);
    }
  }

  lemma {:induction false} LastOfDistinct<V>(entries: seq<Entry<V>>)
    requires entries != [] && HasKey(entries, entries[0].key) && Distinct(entries)
    ensures LastValue(entries, entries[0].key) == entries[0].value
  {
    var n := |entries| - 1;
    if n > 0 {
      assert entries[..n][0] == entries[0];
      LastOfDistinct(entries[..n]);
    }
  }

  // ----- The in-place pass for small objects -----

  method FinishLinear<V>(occurrences: seq<Entry<V>>) returns (entries: seq<Entry<V>>)
    ensures entries == Deduplicated(occurrences)
  {
    entries := occurrences;
    var first := 0;
    assert entries[0..] == entries;
    while first < |entries|
      invariant first <= |entries|
      invariant entries[..first] + Deduplicated(entries[first..]) == Deduplicated(occurrences)
      decreases |entries| - first
    {
      ghost var was := entries;
      entries := CollapseAt(entries, first);
      Collapsed(was, first, entries);
      first := first + 1;
    }
    assert entries[..first] == entries && entries[first..] == [];
  }

  ghost predicate CollapsedAt<V>(was: seq<Entry<V>>, first: nat, now: seq<Entry<V>>)
    requires first < |was|
  {
    var key := was[first].key;
    HasKey(was[first..], key) &&
    now == was[..first] + [Entry(key, LastValue(was[first..], key))] + Without(was[first + 1..], key)
  }

  lemma Collapsed<V>(was: seq<Entry<V>>, first: nat, now: seq<Entry<V>>)
    requires first < |was| && CollapsedAt(was, first, now)
    ensures first < |now| <= |was|
    ensures now[..first + 1] + Deduplicated(now[first + 1..]) == was[..first] + Deduplicated(was[first..])
  {
    hide LastValue, Without;
    var key := was[first].key;
    assert was[first..][0].key == key && was[first..][1..] == was[first + 1..];
    assert now[first + 1..] == Without(was[first + 1..], key);
    assert now[..first + 1] == was[..first] + [Entry(key, LastValue(was[first..], key))];
  }

  /** One round: the last value moves to the first position, and the other occurrences go. */
  method CollapseAt<V>(start: seq<Entry<V>>, first: nat) returns (entries: seq<Entry<V>>)
    requires first < |start|
    ensures CollapsedAt(start, first, entries)
  {
    hide LastValue, Without;
    entries := start;
    var key := entries[first].key;
    var last := LastOccurrence(entries, first);
    if last != first {
      entries := entries[first := Entry(key, start[last].value)][last := Entry(start[last].key, start[first].value)];
    }
    assert entries[first + 1..] == entries[first..][1..] && start[first + 1..] == start[first..][1..];
    SwapKeepsOthers(start[first..], last - first, entries[first..]);
    assert entries[..first + 1] == start[..first] + [Entry(key, start[last].value)];
    entries := RemoveKey(entries, first + 1, key);
  }

  /** The scan for the last occurrence of the key at `first`. */
  method LastOccurrence<V>(entries: seq<Entry<V>>, first: nat) returns (last: nat)
    requires first < |entries|
    ensures first <= last < |entries| && entries[last].key == entries[first].key
    ensures HasKey(entries[first..], entries[first].key)
    ensures entries[last].value == LastValue(entries[first..], entries[first].key)
  {
    last := first;
    var key := entries[first].key;
    var candidate := first + 1;
    assert entries[first..candidate][0].key == key;
    while candidate < |entries|
      invariant first < candidate <= |entries| && first <= last < candidate && entries[last].key == key
      invariant HasKey(entries[first..candidate], key)
      invariant entries[last].value == LastValue(entries[first..candidate], key)
    {
      assert entries[first..candidate + 1] == entries[first..candidate] + [entries[candidate]];
      LastValueAppend(entries[first..candidate], entries[candidate], key);
      if entries[candidate].key == key {
        last := candidate;
      }
      candidate := candidate + 1;
    }
    assert entries[first..candidate] == entries[first..];
  }

  /** The removal loop: every occurrence of `key` from `from` on goes. */
  method RemoveKey<V>(start: seq<Entry<V>>, from: nat, key: string) returns (entries: seq<Entry<V>>)
    requires from <= |start|
    ensures entries == start[..from] + Without(start[from..], key)
  {
    entries := start;
    var candidate := from;
    while candidate < |entries|
      invariant from <= candidate <= |entries|
      invariant entries[..candidate] + Without(entries[candidate..], key) == start[..from] + Without(start[from..], key)
      decreases |entries| - candidate
    {
      assert entries[candidate..][1..] == entries[candidate + 1..];
      if entries[candidate].key == key {
        ghost var was := entries;
        entries := entries[..candidate] + entries[candidate + 1..];
        assert entries[candidate..] == was[candidate + 1..] && entries[..candidate] == was[..candidate];
      } else {
        assert entries[..candidate + 1] == entries[..candidate] + [entries[candidate]];
        candidate := candidate + 1;
      }
    }
    assert entries[..candidate] == entries && entries[candidate..] == [];
  }

  /** Exchanging values between two entries of one key changes nothing among the entries of the other keys. */
  lemma SwapKeepsOthers<V>(was: seq<Entry<V>>, last: nat, now: seq<Entry<V>>)
    requires last < |was| == |now| && was[last].key == was[0].key
    requires forall k :: 0 < k < |was| && k != last ==> now[k] == was[k]
    requires now[last].key == was[0].key
    ensures Without(now[1..], was[0].key) == Without(was[1..], was[0].key)
  {
    WithoutPointwise(was[1..], now[1..], was[0].key);
  }

  lemma {:induction false} WithoutPointwise<V>(a: seq<Entry<V>>, b: seq<Entry<V>>, key: string)
    requires |a| == |b|
    requires forall k :: 0 <= k < |a| ==> a[k] == b[k] || (a[k].key == key && b[k].key == key)
    ensures Without(a, key) == Without(b, key)
  {
    if a != [] {
      WithoutPointwise(a[1..], b[1..], key);
    }
  }
}
