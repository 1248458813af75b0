/** The object builder with its index: blind insertion, replacement, and what a finish makes of them. */
module IndexedBuilder {
  import opened Bytes
  import opened ObjectBuilder
  import opened SortedBuilder
  import opened SearchTree
  import opened KeyIndex

  // ----- Insertion among occurrences -----

  lemma {:induction false} InsertKeys<V>(entries: seq<Entry<V>>, e: Entry<V>, key: string)
    ensures HasKey(Insert(entries, e), key) <==> e.key == key || HasKey(entries, key)
    ensures e.key != key && HasKey(entries, key) ==> LastValue(Insert(entries, e), key) == LastValue(entries, key)
  {
    var all := Insert(entries, e);
    if entries == [] {
      HasKeyIn(entries, e, key);
      assert all == entries + [e];
    } else {
      var rest := entries[1..];
      assert entries == [entries[0]] + rest && all == [all[0]] + all[1..];
      HasKeyIn(rest, entries[0], key);
      HasKeyIn(all[1..], all[0], key);
      if entries[0].key != e.key {
        InsertKeys(rest, e, key);
      }
      if e.key != key && HasKey(entries, key) {
        if HasKey(rest, key) {
          LastOfTail(entries, key);
          LastOfTail(all, key);
        } else {
          LastOfOne(entries);
          LastOfOne(all);
        }
      }
    }
  }

  lemma {:induction false} LastOfOne<V>(entries: seq<Entry<V>>)
    requires entries != [] && !HasKey(entries[1..], entries[0].key)
    ensures HasKey(entries, entries[0].key) && LastValue(entries, entries[0].key) == entries[0].value
  {
    OwnKey(entries, 0);
    var n := |entries| - 1;
    if n > 0 {
      assert entries[1..][n - 1] == entries[n];
      OwnKey(entries[1..], n - 1);
      assert entries[1..] == entries[..n][1..] + [entries[n]];
      HasKeyIn(entries[..n][1..], entries[n], entries[0].key);
      LastOfOne(entries[..n]);
    }
  }

  lemma {:induction false} WithoutInsert<V>(entries: seq<Entry<V>>, e: Entry<V>, gone: string)
    requires e.key != gone
    ensures Without(Insert(entries, e), gone) == Insert(Without(entries, gone), e)
  {
    if entries == [] {
      assert Without([e], gone) == [e] + Without([e][1..], gone);
    } else if entries[0].key == e.key {
      assert ([e] + entries[1..])[1..] == entries[1..];
    } else {
      WithoutInsert(entries[1..], e, gone);
      assert ([entries[0]] + Insert(entries[1..], e))[1..] == Insert(entries[1..], e);
    }
  }

  /** Replacing a value in a list of occurrences means an insertion exactly when the new value is then the last one of
      its key. */
  lemma {:induction false} ReplaceLast<V>(entries: seq<Entry<V>>, e: Entry<V>)
    ensures HasKey(Insert(entries, e), e.key)
    ensures Deduplicated(Insert(entries, e)) == Insert(Deduplicated(entries), e) <==>
            LastValue(Insert(entries, e), e.key) == e.value
    decreases |entries|
  {
    InsertKeys(entries, e, e.key);
    var all := Insert(entries, e);
    if entries == [] {
      assert all[1..] == [];
      LastOfOne(all);
    } else {
      var first, rest := entries[0], entries[1..];
      OwnKey(entries, 0);
      if first.key == e.key {
        assert all[1..] == rest;
      } else {
        assert all[0] == first && all[1..] == Insert(rest, e);
        InsertKeys(entries, e, first.key);
        WithoutInsert(rest, e, first.key);
        ReplaceLast(Without(rest, first.key), e);
        InsertKeys(rest, e, e.key);
        WithoutLast(Insert(rest, e), first.key, e.key);
        LastOfTail(all, e.key);
        assert Deduplicated(all)[1..] == Deduplicated(Insert(Without(rest, first.key), e));
        assert Insert(Deduplicated(entries), e)[1..] == Insert(Deduplicated(Without(rest, first.key)), e);
      }
    }
  }

  /** Occurrences are their own collapse exactly when no key occurs twice. */
  lemma {:induction false} DistinctExactly<V>(entries: seq<Entry<V>>)
    ensures Deduplicated(entries) == entries <==> Distinct(entries)
  {
    if Distinct(entries) {
      DistinctStays(entries);
    } else if entries != [] {
      var key, rest := entries[0].key, entries[1..];
      DeduplicatedShorter(Without(rest, key));
      WithoutShorter(rest, key);
      if Without(rest, key) == rest {
        DistinctExactly(rest);
        assert !Distinct(rest) by {
          var i, k :| 0 <= i < k < |entries| && entries[i].key == entries[k].key;
          assert rest[k - 1] == entries[k] && (i > 0 ==> rest[i - 1] == entries[i]);
          WithoutHasKey(rest, key, key);
          OwnKey(rest, k - 1);
        }
        assert Deduplicated(entries)[1..] == Deduplicated(rest);
      }
    }
  }

  lemma {:induction false} DeduplicatedShorter<V>(entries: seq<Entry<V>>)
    ensures |Deduplicated(entries)| <= |entries|
    decreases |entries|
  {
    if entries != [] {
      OwnKey(entries, 0);
      DeduplicatedShorter(Without(entries[1..], entries[0].key));
    }
  }

  lemma {:induction false} WithoutShorter<V>(entries: seq<Entry<V>>, key: string)
    ensures |Without(entries, key)| == |entries| ==> Without(entries, key) == entries
  {
    if entries != [] {
      WithoutShorter(entries[1..], key);
    }
  }

  lemma {:induction false} InsertAt<V>(entries: seq<Entry<V>>, e: Entry<V>, at: nat)
    requires at <= |entries| && forall k :: 0 <= k < at ==> entries[k].key != e.key
    requires at < |entries| ==> entries[at].key == e.key
    ensures Insert(entries, e) == if at < |entries| then entries[at := e] else entries + [e]
  {
    if at > 0 {
      InsertAt(entries[1..], e, at - 1);
    }
  }

  // ----- When replacing means inserting -----

  /** The key does not occur twice. */
  ghost predicate AtMostOnce<V>(entries: seq<Entry<V>>, key: string)
  {
    forall i, k :: 0 <= i < k < |entries| ==> !(entries[i].key == key == entries[k].key)
  }

  /** What a builder must be like for a replacement to mean an insertion. */
  ghost predicate Admits<V>(entries: seq<Entry<V>>, indexed: bool, e: Entry<V>)
  {
    if HasKey(entries, e.key) then
      AtMostOnce(entries, e.key) ||
      (LastValue(entries, e.key) == e.value && (indexed ==> FirstValue(entries, e.key) == e.value))
    else indexed || |entries| < 16 || Distinct(entries)
  }

  lemma DistinctAdmits<V>(entries: seq<Entry<V>>, indexed: bool, e: Entry<V>)
    requires Distinct(entries)
    ensures Admits(entries, indexed, e)
  {
  }

  lemma {:induction false} LastAfterInsert<V>(entries: seq<Entry<V>>, e: Entry<V>)
    requires HasKey(entries, e.key)
    ensures HasKey(Insert(entries, e), e.key)
    ensures LastValue(Insert(entries, e), e.key) == e.value <==>
            AtMostOnce(entries, e.key) || LastValue(entries, e.key) == e.value
  {
    InsertKeys(entries, e, e.key);
    var all, rest := Insert(entries, e), entries[1..];
    HasKeyIn(rest, entries[0], e.key);
    assert entries == [entries[0]] + rest;
    assert AtMostOnce(entries, e.key) ==> AtMostOnce(rest, e.key);
    if entries[0].key == e.key {
      assert all[1..] == rest;
      if HasKey(rest, e.key) {
        LastOfTail(entries, e.key);
        LastOfTail(all, e.key);
        var k :| 0 <= k < |rest| && rest[k].key == e.key;
        assert entries[0].key == e.key == entries[k + 1].key;
      } else {
        LastOfOne(all);
        NotTwice(entries, e.key);
      }
    } else {
      LastAfterInsert(rest, e);
      LastOfTail(entries, e.key);
      assert all[1..] == Insert(rest, e);
      LastOfTail(all, e.key);
      OnceInTail(entries, e.key);
    }
  }

  lemma NotTwice<V>(entries: seq<Entry<V>>, key: string)
    requires entries != [] && !HasKey(entries[1..], key)
    ensures AtMostOnce(entries, key)
  {
    assert forall k :: 0 < k < |entries| ==> entries[k] == entries[1..][k - 1];
  }

  lemma OnceInTail<V>(entries: seq<Entry<V>>, key: string)
    requires entries != [] && entries[0].key != key
    ensures AtMostOnce(entries, key) <==> AtMostOnce(entries[1..], key)
  {
    assert forall k :: 0 < k < |entries| ==> entries[k] == entries[1..][k - 1];
  }

  /** Replacing the first occurrence of a key means an insertion exactly when there is no other, or the last one has the
      new value already. */
  lemma ReplaceExactly<V>(entries: seq<Entry<V>>, e: Entry<V>)
    requires HasKey(entries, e.key)
    ensures Deduplicated(Insert(entries, e)) == Insert(Deduplicated(entries), e) <==>
            AtMostOnce(entries, e.key) || LastValue(entries, e.key) == e.value
  {
    ReplaceLast(entries, e);
    LastAfterInsert(entries, e);
  }

  /** Giving up the collapse with a new key means an insertion exactly when no key occurs twice. */
  lemma FreezeExactly<V>(entries: seq<Entry<V>>, e: Entry<V>)
    requires !HasKey(entries, e.key)
    ensures entries + [e] == Insert(Deduplicated(entries), e) <==> Distinct(entries)
  {
    var d := Deduplicated(entries);
    DeduplicatedKeys(entries, e.key);
    AbsentKey(d, e);
    DistinctExactly(entries);
    assert (entries + [e])[..|entries|] == entries && (d + [e])[..|d|] == d;
  }

  /** Replacing the last occurrence among entries that are not collapsed any more means an insertion exactly when it is
      the first one too, or both have the new value already. */
  lemma ReplaceLastExactly<V>(entries: seq<Entry<V>>, e: Entry<V>, first: nat, last: nat)
    requires first <= last < |entries| && entries[first].key == e.key == entries[last].key
    requires forall k :: 0 <= k < first || last < k < |entries| ==> entries[k].key != e.key
    ensures HasKey(entries, e.key)
    ensures entries[last := e] == Insert(entries, e) <==>
            AtMostOnce(entries, e.key) ||
            (LastValue(entries, e.key) == e.value && FirstValue(entries, e.key) == e.value)
  {
    InsertAt(entries, e, first);
    LastValueAt(entries, last);
    FirstValueAt(entries, first);
    assert entries[last := e][first] == if first == last then e else entries[first];
    assert entries[first := e][last] == if first == last then e else entries[last];
  }

  lemma {:induction false} FirstValueAt<V>(entries: seq<Entry<V>>, first: nat)
    requires first < |entries| && forall k :: 0 <= k < first ==> entries[k].key != entries[first].key
    ensures HasKey(entries, entries[first].key) && FirstValue(entries, entries[first].key) == entries[first].value
  {
    OwnKey(entries, first);
    if first > 0 {
      FirstValueAt(entries[1..], first - 1);
    }
  }

  /** A builder filled blindly with one key twice loses the value a replacement gives it. */
  lemma BlindThenReplace<V>(key: string, x: V, y: V, z: V)
    ensures var entries := [Entry(key, x), Entry(key, y)];
            Deduplicated(Insert(entries, Entry(key, z))) == [Entry(key, y)] &&
            Insert(Deduplicated(entries), Entry(key, z)) == [Entry(key, z)]
  {
    var entries, e := [Entry(key, x), Entry(key, y)], Entry(key, z);
    CollapsesToOne(entries, key);
    CollapsesToOne(Insert(entries, e), key);
  }

  lemma CollapsesToOne<V>(entries: seq<Entry<V>>, key: string)
    requires |entries| == 2 && entries[0].key == key == entries[1].key
    ensures Deduplicated(entries) == [entries[1]]
  {
    LastValueAt(entries, 1);
    assert Without(entries[1..], key) == [] by { assert entries[1..][1..] == []; }
  }

  // ----- The index of the entries -----

  /** The index leads every key to its last position. */
  ghost predicate Indexes<V>(index: map<string, nat>, entries: seq<Entry<V>>)
  {
    (forall key :: key in index <==> HasKey(entries, key)) &&
    (forall key :: key in index ==> index[key] < |entries| && entries[index[key]].key == key) &&
    forall key, k :: key in index && index[key] < k < |entries| ==> entries[k].key != key
  }

  lemma IndexesAppend<V>(index: map<string, nat>, entries: seq<Entry<V>>, e: Entry<V>)
    requires Indexes(index, entries)
    ensures Indexes(index[e.key := |entries|], entries + [e])
  {
    forall key: string
      ensures HasKey(entries + [e], key) <==> e.key == key || HasKey(entries, key)
    {
      HasKeyIn(entries, e, key);
    }
  }

  lemma SameKeysIndexed<V>(index: map<string, nat>, was: seq<Entry<V>>, now: seq<Entry<V>>)
    requires Indexes(index, was) && |was| == |now| && forall k :: 0 <= k < |was| ==> now[k].key == was[k].key
    ensures Indexes(index, now)
  {
    forall key: string
      ensures HasKey(now, key) <==> HasKey(was, key)
    {
      assert forall k :: 0 <= k < |was| ==> (now[k].key == key <==> was[k].key == key);
    }
  }

  /** Replacing at the last position. */
  lemma ReplaceIndexed<V>(index: map<string, nat>, entries: seq<Entry<V>>, e: Entry<V>)
    requires Indexes(index, entries) && e.key in index
    ensures index[e.key] < |entries| && Indexes(index, entries[index[e.key] := e])
    ensures KeysOf(entries[index[e.key] := e]) == KeysOf(entries)
    ensures entries[index[e.key] := e] == Insert(entries, e) <==> Admits(entries, true, e)
    ensures Distinct(entries) ==> Distinct(entries[index[e.key] := e])
  {
    hide Insert, FirstValue, LastValue, HasKey;
    var last := index[e.key];
    var now := entries[last := e];
    SameKeysIndexed(index, entries, now);
    var first := FirstPosition(entries, e.key);
    ReplaceLastExactly(entries, e, first, last);
  }

  lemma {:induction false} FirstPosition<V>(entries: seq<Entry<V>>, key: string) returns (first: nat)
    requires HasKey(entries, key)
    ensures first < |entries| && entries[first].key == key && forall k :: 0 <= k < first ==> entries[k].key != key
  {
    first := 0;
    if entries[0].key != key {
      HasKeyIn(entries[1..], entries[0], key);
      assert entries == [entries[0]] + entries[1..];
      var next := FirstPosition(entries[1..], key);
      first := next + 1;
      assert forall k :: 0 < k < first ==> entries[k] == entries[1..][k - 1];
    }
  }

  lemma AbsentKey<V>(entries: seq<Entry<V>>, e: Entry<V>)
    requires !HasKey(entries, e.key)
    ensures Insert(entries, e) == entries + [e]
  {
    InsertAt(entries, e, |entries|);
  }

  lemma {:induction false} InsertDistinct<V>(entries: seq<Entry<V>>, e: Entry<V>)
    requires Distinct(entries)
    ensures Distinct(Insert(entries, e))
  {
    if entries != [] && entries[0].key != e.key {
      InsertDistinct(entries[1..], e);
      InsertKeys(entries[1..], e, entries[0].key);
      var tail := Insert(entries[1..], e);
      forall k | 0 <= k < |tail|
        ensures tail[k].key != entries[0].key
      {
        OwnKey(tail, k);
      }
    }
  }

  lemma FoundKey<V>(entries: seq<Entry<V>>, key: string, at: nat)
    requires at <= |entries| && forall k :: 0 <= k < at ==> entries[k].key != key
    requires at < |entries| ==> entries[at].key == key
    ensures HasKey(entries, key) <==> at < |entries|
  {
  }

  lemma NothingIndexed<V>()
    ensures Indexes<V>(map[], [])
  {
  }

  method BuildIndex<V>(entries: seq<Entry<V>>) returns (index: IncrementalIndex)
    requires ByteKeys(entries) && |entries| < U64
    ensures fresh(index) && index.Valid(KeysOf(entries)) && Indexes(index.positions, entries)
    ensures |index.nodes| <= |entries|
  {
    hide Indexes, HasKey, IsByteString, Shape, Balanced, Everywhere, Keyed, SortedBy, Leads, InOrder;
    index := new IncrementalIndex();
    NothingIndexed<V>();
    ghost var keys := KeysOf(entries);
    index.MoreKeysValid([], keys);
    for position := 0 to |entries|
      invariant fresh(index) && index.Valid(keys) && |index.nodes| <= position
      invariant Indexes(index.positions, entries[..position])
    {
      assert entries[..position + 1] == entries[..position] + [entries[position]];
      IndexesAppend(index.positions, entries[..position], entries[position]);
      var existing := index.WalkInsert(entries, entries[position].key, position, false, keys);
    }
    assert entries[..|entries|] == entries;
  }

  lemma KeysAppend<V>(entries: seq<Entry<V>>, e: Entry<V>)
    ensures KeysOf(entries + [e]) == KeysOf(entries) + [e.key]
  {
  }

  lemma DistinctInsert<V>(entries: seq<Entry<V>>, e: Entry<V>)
    ensures Distinct(entries) ==> Distinct(Insert(entries, e))
  {
    if Distinct(entries) {
      InsertDistinct(entries, e);
    }
  }

  lemma AdmitsHere<V>(entries: seq<Entry<V>>, indexed: bool, e: Entry<V>)
    ensures HasKey(entries, e.key) && !indexed ==>
              (Admits(entries, indexed, e) <==>
               AtMostOnce(entries, e.key) || LastValue(entries, e.key) == e.value)
    ensures !HasKey(entries, e.key) ==>
              (Admits(entries, indexed, e) <==>
               indexed || |entries| < 16 || Distinct(entries))
  {
  }

  /** Where the member has gone: with an index to the last occurrence of its key, otherwise to the first; to the end
      when there is none. */
  ghost predicate Placed<V>(was: seq<Entry<V>>, indexed: bool, e: Entry<V>, now: seq<Entry<V>>)
  {
    if indexed && HasKey(was, e.key) then
      exists at: nat :: at < |was| && was[at].key == e.key && now == was[at := e] &&
        forall k :: at < k < |was| ==> was[k].key != e.key
    else now == Insert(was, e)
  }

  predicate ByteKeys<V>(entries: seq<Entry<V>>)
  {
    forall k :: 0 <= k < |entries| ==> IsByteString(entries[k].key)
  }

  /** Keys are byte strings, and no vector is longer than a 64-bit number says. */
  class Builder<V> {
    var entries: seq<Entry<V>>
    /** From a certain size on: where each key is. */
    var index: Option<IncrementalIndex>

    ghost predicate Valid()
      reads this, if index.Some? then {index.value} else {}
    {
      ByteKeys(entries) &&
      (index.Some? ==>
         index.value.Valid(KeysOf(entries)) && Indexes(index.value.positions, entries) &&
         |index.value.nodes| <= |entries|)
    }

    /** The object a finish would give: with an index the entries as they are. */
    ghost function Meaning(): seq<Entry<V>>
      reads this
    {
      if index.Some? then entries else Deduplicated(entries)
    }

    constructor ()
      ensures Valid() && entries == [] && index == None && Meaning() == []
    {
      entries := [];
      index := None;
    }

    /** Blind insertion at the end: before the finish it means an insertion, whatever keys there are. */
    method InsertLast(e: Entry<V>)
      requires Valid() && IsByteString(e.key) && |entries| < U64
      modifies this, if index.Some? then {index.value} else {}
      ensures Valid() && (old(index).None? ==> index == None && entries == old(entries) + [e])
      ensures old(index).Some? ==> index.Some? && Placed(old(entries), true, e, entries)
      ensures index.Some? ==> index == old(index)
      ensures Meaning() == Insert(old(Meaning()), e) <==> old(index).None? || Admits(old(entries), true, e)
      ensures Distinct(old(entries)) && old(index).Some? ==> Distinct(entries)
    {
      hide Deduplicated, HasKey, Insert, Distinct, Indexes, Admits, IsByteString, Placed;
      hide Shape, Balanced, Everywhere, Keyed, SortedBy, Leads, InOrder;
      if index.Some? {
        InsertOrReplace(e);
        return;
      }
      DeduplicatedAppend(entries, e);
      entries := entries + [e];
    }

    /** Without an index the first occurrence of the key is replaced, with one the last; a new key goes last, and from
        the threshold on it brings the index. */
    method InsertOrReplace(e: Entry<V>)
      requires Valid() && IsByteString(e.key) && |entries| < U64
      modifies this, if index.Some? then {index.value} else {}
      ensures Valid() && Placed(old(entries), old(index).Some?, e, entries)
      ensures index.Some? <==>
              old(index).Some? || (!HasKey(old(entries), e.key) && |old(entries)| >= 16)
      ensures if old(index).Some? then index == old(index) else index.Some? ==> fresh(index.value)
      ensures Meaning() == Insert(old(Meaning()), e) <==> Admits(old(entries), old(index).Some?, e)
      ensures Distinct(old(entries)) ==> Distinct(entries)
    {
      hide Deduplicated, HasKey, Insert, Distinct, Indexes, Admits, IsByteString;
      hide Shape, Balanced, Everywhere, Keyed, SortedBy, Leads, InOrder;
      if index.Some? {
        ReplaceOrAppend(e);
        return;
      }
      var position := 0;
      while position < |entries| && entries[position].key != e.key
        invariant position <= |entries| && forall k :: 0 <= k < position ==> entries[k].key != e.key
      {
        position := position + 1;
      }
      InsertAt(entries, e, position);
      FoundKey(entries, e.key, position);
      DistinctInsert(entries, e);
      if position < |entries| {
        ReplaceExactly(entries, e);
        AdmitsHere(entries, false, e);
        entries := entries[position := e];
        return;
      }
      AdmitsHere(entries, false, e);
      if position < LINEAR_DEDUP_THRESHOLD {
        DeduplicatedAppend(entries, e);
      } else {
        FreezeExactly(entries, e);
        var built := BuildIndex(entries);
        IndexesAppend(built.positions, entries, e);
        KeysAppend(entries, e);
        var existing := built.WalkInsert(entries, e.key, position, false, KeysOf(entries + [e]));
        index := Some(built);
      }
      entries := entries + [e];
    }

    /** With an index one walk finds the position to replace or makes the new node. */
    method ReplaceOrAppend(e: Entry<V>)
      requires Valid() && index.Some? && IsByteString(e.key) && |entries| < U64
      modifies this`entries, index.value
      ensures Valid() && Placed(old(entries), true, e, entries)
      ensures entries == Insert(old(entries), e) <==> Admits(old(entries), true, e)
      ensures Distinct(old(entries)) ==> Distinct(entries)
    {
      hide Deduplicated, Insert, Distinct, Admits, IsByteString;
      hide Shape, Balanced, Everywhere, Keyed, SortedBy, Leads, InOrder;
      var position := |entries|;
      KeysAppend(entries, e);
      ghost var positions := index.value.positions;
      var existing := index.value.WalkInsert(entries, e.key, position, true, KeysOf(entries + [e]));
      if existing.Some? {
        ReplaceIndexed(positions, entries, e);
        entries := entries[existing.value := e];
      } else {
        IndexesAppend(positions, entries, e);
        AbsentKey(entries, e);
        DistinctInsert(entries, e);
        AdmitsHere(entries, true, e);
        entries := entries + [e];
      }
    }

    /** Small, large or indexed. */
    method Finish() returns (members: seq<Entry<V>>)
      requires Valid()
      ensures members == Meaning()
    {
      if index.Some? {
        return entries;
      }
      members := FinishOccurrences(entries);
    }
  }
}
