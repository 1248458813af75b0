/** The sorting pass for large objects, and the builder's finish: both passes give first key position, last value. */
module SortedBuilder {
  import opened Bytes
  import opened ObjectBuilder

  // ----- The law, position by position -----

  ghost predicate First<V>(entries: seq<Entry<V>>, i: nat)
    requires i < |entries|
  {
    !HasKey(entries[..i], entries[i].key)
  }

  lemma OwnKey<V>(entries: seq<Entry<V>>, i: nat)
    requires i < |entries|
    ensures HasKey(entries, entries[i].key)
  {
  }

  /** The first occurrences among the first `m` entries, each with the last value of its key. */
  ghost function Kept<V>(entries: seq<Entry<V>>, m: nat): seq<Entry<V>>
    requires m <= |entries|
  {
    if m == 0 then []
    else
      var e := entries[m - 1];
      OwnKey(entries, m - 1);
      Kept(entries, m - 1) + if First(entries, m - 1) then [Entry(e.key, LastValue(entries, e.key))] else []
  }

  /** `d` with every value replaced by the last one of its key. */
  ghost function Revalued<V>(d: seq<Entry<V>>, entries: seq<Entry<V>>): seq<Entry<V>>
    requires forall k :: 0 <= k < |d| ==> HasKey(entries, d[k].key)
  {
    seq(|d|, k requires 0 <= k < |d| => Entry(d[k].key, LastValue(entries, d[k].key)))
  }

  lemma {:induction false} WithoutLast<V>(entries: seq<Entry<V>>, gone: string, key: string)
    ensures HasKey(Without(entries, gone), key) <==> key != gone && HasKey(entries, key)
    ensures key != gone && HasKey(entries, key) ==> LastValue(Without(entries, gone), key) == LastValue(entries, key)
    decreases |entries|
  {
    WithoutHasKey(entries, gone, key);
    if key != gone && HasKey(entries, key) {
      var n := |entries| - 1;
      var init, e := entries[..n], entries[n];
      assert entries == init + [e];
      HasKeyIn(init, e, key);
      WithoutAppend(init, e, gone);
      LastValueAppend(init, e, key);
      if e.key != key {
        WithoutLast(init, gone, key);
      }
      if e.key != gone {
        LastValueAppend(Without(init, gone), e, key);
      }
    }
  }

  /** Collapsing keeps the keys, and every value it keeps is the last one of its key. */
  lemma {:induction false} DeduplicatedKeys<V>(entries: seq<Entry<V>>, key: string)
    ensures HasKey(Deduplicated(entries), key) <==> HasKey(entries, key)
    decreases |entries|
  {
    if entries != [] {
      var first := entries[0].key;
      var rest := Without(entries[1..], first);
      OwnKey(entries, 0);
      DeduplicatedKeys(rest, key);
      WithoutLast(entries[1..], first, key);
      HasKeyIn(entries[1..], entries[0], key);
      assert entries == [entries[0]] + entries[1..];
      HasKeyIn(Deduplicated(rest), Entry(first, LastValue(entries, first)), key);
    }
  }

  lemma {:induction false} DeduplicatedValues<V>(entries: seq<Entry<V>>, k: nat)
    requires k < |Deduplicated(entries)|
    ensures var e := Deduplicated(entries)[k]; HasKey(entries, e.key) && e.value == LastValue(entries, e.key)
    decreases |entries|
  {
    var first := entries[0].key;
    var rest := Without(entries[1..], first);
    OwnKey(entries, 0);
    if k > 0 {
      var key := Deduplicated(rest)[k - 1].key;
      DeduplicatedValues(rest, k - 1);
      WithoutLast(entries[1..], first, key);
      LastOfTail(entries, key);
    }
  }

  lemma {:induction false} LastOfTail<V>(entries: seq<Entry<V>>, key: string)
    requires entries != [] && HasKey(entries[1..], key)
    ensures HasKey(entries, key) && LastValue(entries, key) == LastValue(entries[1..], key)
  {
    var n := |entries| - 1;
    HasKeyIn(entries[1..], entries[0], key);
    assert entries == [entries[0]] + entries[1..];
    if entries[n].key != key {
      assert entries[1..] == entries[..n][1..] + [entries[n]];
      HasKeyIn(entries[..n][1..], entries[n], key);
      LastValueAppend(entries[..n][1..], entries[n], key);
      LastOfTail(entries[..n], key);
    }
  }

  lemma {:induction false} RevaluedInsert<V>(d: seq<Entry<V>>, e: Entry<V>, entries: seq<Entry<V>>)
    requires forall k :: 0 <= k < |d| ==> HasKey(entries, d[k].key)
    requires HasKey(entries, e.key)
    ensures forall k :: 0 <= k < |Insert(d, e)| ==> HasKey(entries, Insert(d, e)[k].key)
    ensures Revalued(Insert(d, e), entries) ==
            Revalued(d, entries) + if HasKey(d, e.key) then [] else [Entry(e.key, LastValue(entries, e.key))]
  {
    if d != [] {
      HasKeyIn(d[1..], d[0], e.key);
      assert d == [d[0]] + d[1..];
      if d[0].key != e.key {
        RevaluedInsert(d[1..], e, entries);
        var first := [Entry(d[0].key, LastValue(entries, d[0].key))];
        assert Revalued(d, entries) == first + Revalued(d[1..], entries);
        assert Revalued(Insert(d, e), entries) == first + Revalued(Insert(d[1..], e), entries);
      } else {
        assert Revalued(Insert(d, e), entries) == Revalued(d, entries);
      }
    }
  }

  lemma {:induction false} KeptIsRevalued<V>(entries: seq<Entry<V>>, m: nat)
    requires m <= |entries|
    ensures forall k :: 0 <= k < |Deduplicated(entries[..m])| ==> HasKey(entries, Deduplicated(entries[..m])[k].key)
    ensures Kept(entries, m) == Revalued(Deduplicated(entries[..m]), entries)
  {
    if m > 0 {
      var e := entries[m - 1];
      KeptIsRevalued(entries, m - 1);
      OwnKey(entries, m - 1);
      assert entries[..m] == entries[..m - 1] + [e];
      DeduplicatedAppend(entries[..m - 1], e);
      DeduplicatedKeys(entries[..m - 1], e.key);
      RevaluedInsert(Deduplicated(entries[..m - 1]), e, entries);
    }
  }

  /** First key position, last value, read off the positions. */
  lemma KeptIsDeduplicated<V>(entries: seq<Entry<V>>)
    ensures Kept(entries, |entries|) == Deduplicated(entries)
  {
    KeptIsRevalued(entries, |entries|);
    assert entries[..|entries|] == entries;
    forall k | 0 <= k < |Deduplicated(entries)|
      ensures Revalued(Deduplicated(entries), entries)[k] == Deduplicated(entries)[k]
    {
      DeduplicatedValues(entries, k);
    }
  }

  // ----- Sorting positions -----

  ghost predicate StrictTotal(xs: seq<nat>, precedes: (nat, nat) -> bool)
  {
    (forall a, b :: a in xs && b in xs && a != b ==> precedes(a, b) || precedes(b, a)) &&
    forall a, b, c :: a in xs && b in xs && c in xs && precedes(a, b) && precedes(b, c) ==> precedes(a, c)
  }

  ghost predicate Ordered(xs: seq<nat>, precedes: (nat, nat) -> bool)
  {
    forall p, q :: 0 <= p < q < |xs| ==> precedes(xs[p], xs[q])
  }

  function InsertSorted(x: nat, xs: seq<nat>, precedes: (nat, nat) -> bool): (r: seq<nat>)
    ensures |r| == |xs| + 1 && forall y :: y in r <==> y == x || y in xs
  {
    if xs == [] || precedes(x, xs[0]) then [x] + xs else [xs[0]] + InsertSorted(x, xs[1..], precedes)
  }

  /** The library's sort, by insertion. */
  function Sorted(xs: seq<nat>, precedes: (nat, nat) -> bool): (r: seq<nat>)
    ensures |r| == |xs| && forall y :: y in r <==> y in xs
  {
    if xs == [] then [] else InsertSorted(xs[0], Sorted(xs[1..], precedes), precedes)
  }

  lemma {:induction false} InsertOrdered(x: nat, xs: seq<nat>, precedes: (nat, nat) -> bool)
    requires Ordered(xs, precedes) && x !in xs && StrictTotal([x] + xs, precedes)
    ensures Ordered(InsertSorted(x, xs, precedes), precedes)
  {
    var all := [x] + xs;
    if xs == [] {
    } else if precedes(x, xs[0]) {
      forall q | 0 < q < |all|
        ensures precedes(x, all[q])
      {
        assert all[q] in all && xs[0] in all && x in all;
        assert all[q] == xs[q - 1];
      }
    } else {
      var rest := InsertSorted(x, xs[1..], precedes);
      assert forall y :: y in [x] + xs[1..] ==> y in all;
      InsertOrdered(x, xs[1..], precedes);
      forall q | 0 <= q < |rest|
        ensures precedes(xs[0], rest[q])
      {
        assert x in all && xs[0] in all && rest[q] in rest;
        if rest[q] != x {
          var k :| 0 <= k < |xs[1..]| && xs[1..][k] == rest[q];
          assert xs[k + 1] == rest[q];
        }
      }
    }
  }

  lemma {:induction false} SortedOrdered(xs: seq<nat>, precedes: (nat, nat) -> bool)
    requires StrictTotal(xs, precedes) && forall p, q :: 0 <= p < q < |xs| ==> xs[p] != xs[q]
    ensures Ordered(Sorted(xs, precedes), precedes)
  {
    if xs != [] {
      SortedOrdered(xs[1..], precedes);
      assert forall y :: y in [xs[0]] + Sorted(xs[1..], precedes) ==> y in xs;
      InsertOrdered(xs[0], Sorted(xs[1..], precedes), precedes);
    }
  }

  // ----- The order the groups are found in -----

  /** By key, and by position among equal keys. */
  predicate Precedes<V>(entries: seq<Entry<V>>, i: nat, k: nat)
  {
    i < |entries| && k < |entries| &&
    (Before(entries[i].key, entries[k].key) || (entries[i].key == entries[k].key && i < k))
  }

  /** All positions, in that order. */
  ghost predicate IsOrder<V>(entries: seq<Entry<V>>, order: seq<nat>)
  {
    (forall i: nat :: i in order <==> i < |entries|) &&
    forall p, q :: 0 <= p < q < |order| ==> Precedes(entries, order[p], order[q])
  }

  lemma PrecedesTotal<V>(entries: seq<Entry<V>>, xs: seq<nat>)
    requires forall i :: i in xs ==> i < |entries|
    ensures StrictTotal(xs, (i: nat, k: nat) => Precedes(entries, i, k))
  {
    forall a, b | a in xs && b in xs && a != b
      ensures Precedes(entries, a, b) || Precedes(entries, b, a)
    {
      BeforeTotal(entries[a].key, entries[b].key);
    }
    forall a, b, c | a in xs && b in xs && c in xs && Precedes(entries, a, b) && Precedes(entries, b, c)
      ensures Precedes(entries, a, c)
    {
      if Before(entries[a].key, entries[b].key) && Before(entries[b].key, entries[c].key) {
        BeforeTransitive(entries[a].key, entries[b].key, entries[c].key);
      }
    }
  }

  method SortPositions<V>(entries: seq<Entry<V>>) returns (order: seq<nat>)
    ensures IsOrder(entries, order)
  {
    var all := seq(|entries|, i requires 0 <= i < |entries| => i as nat);
    assert forall i: nat :: i < |entries| ==> all[i] == i;
    PrecedesTotal(entries, all);
    SortedOrdered(all, (i: nat, k: nat) => Precedes(entries, i, k));
    order := Sorted(all, (i: nat, k: nat) => Precedes(entries, i, k));
    forall i: nat
      ensures i in order <==> i < |entries|
    {
      assert i in order <==> i in all;
      if i < |entries| {
        assert all[i] == i;
      }
    }
  }

  /** Equal keys lie next to each other. */
  lemma KeyBetween<V>(entries: seq<Entry<V>>, order: seq<nat>, p: nat, q: nat, r: nat)
    requires IsOrder(entries, order) && p <= q <= r < |order|
    requires order[p] < |entries| && order[q] < |entries| && order[r] < |entries|
    requires entries[order[p]].key == entries[order[r]].key
    ensures entries[order[q]].key == entries[order[p]].key
  {
    var a, b := entries[order[p]].key, entries[order[q]].key;
    BeforeStrict(a, b);
    if p < q && q < r {
      assert Precedes(entries, order[p], order[q]) && Precedes(entries, order[q], order[r]);
    }
  }

  /** A maximal stretch of one key: its first position is the key's first, its last one the key's last. */
  lemma GroupEnds<V>(entries: seq<Entry<V>>, order: seq<nat>, from: nat, to: nat)
    requires IsOrder(entries, order) && from < to <= |order|
    requires forall p :: 0 <= p < |order| ==> order[p] < |entries|
    requires forall p :: from <= p < to ==> entries[order[p]].key == entries[order[from]].key
    requires from > 0 ==> entries[order[from - 1]].key != entries[order[from]].key
    requires to < |order| ==> entries[order[to]].key != entries[order[from]].key
    ensures First(entries, order[from])
    ensures forall p :: from < p < to ==> !First(entries, order[p])
    ensures HasKey(entries, entries[order[from]].key)
    ensures LastValue(entries, entries[order[from]].key) == entries[order[to - 1]].value
  {
    hide LastValue, IsOrder, First;
    var key := entries[order[from]].key;
    forall j: nat | j < |entries| && entries[j].key == key
      ensures order[from] <= j <= order[to - 1]
    {
      PositionOf(entries, order, j);
      var p: nat :| p < |order| && order[p] == j;
      SameKeyInside(entries, order, from, to, p);
    }
    NoEarlier(entries, order[from]);
    forall p | from < p < to
      ensures !First(entries, order[p])
    {
      PrecedesAt(entries, order, from, p);
      BeforeStrict(key, key);
      HasEarlier(entries, order[from], order[p]);
    }
    LastValueAt(entries, order[to - 1]);
  }

  lemma PositionOf<V>(entries: seq<Entry<V>>, order: seq<nat>, i: nat)
    requires IsOrder(entries, order) && i < |entries|
    ensures exists p: nat :: p < |order| && order[p] == i
  {
    assert i in order;
  }

  lemma PrecedesAt<V>(entries: seq<Entry<V>>, order: seq<nat>, p: nat, q: nat)
    requires IsOrder(entries, order) && p < q < |order|
    ensures Precedes(entries, order[p], order[q])
  {
  }

  lemma NoEarlier<V>(entries: seq<Entry<V>>, i: nat)
    requires i < |entries| && forall j: nat :: j < |entries| && entries[j].key == entries[i].key ==> i <= j
    ensures First(entries, i)
  {
  }

  lemma HasEarlier<V>(entries: seq<Entry<V>>, i: nat, k: nat)
    requires i < k < |entries| && entries[i].key == entries[k].key
    ensures !First(entries, k)
  {
    assert entries[..k][i].key == entries[k].key;
  }

  lemma SameKeyInside<V>(entries: seq<Entry<V>>, order: seq<nat>, from: nat, to: nat, p: nat)
    requires IsOrder(entries, order) && from < to <= |order| && p < |order|
    requires forall q :: 0 <= q < |order| ==> order[q] < |entries|
    requires from > 0 ==> entries[order[from - 1]].key != entries[order[from]].key
    requires to < |order| ==> entries[order[to]].key != entries[order[from]].key
    requires entries[order[p]].key == entries[order[from]].key == entries[order[to - 1]].key
    ensures from <= p < to && order[from] <= order[p] <= order[to - 1]
  {
    hide IsOrder;
    var key := entries[order[from]].key;
    BeforeStrict(key, key);
    if p < from {
      KeyBetween(entries, order, p, from - 1, from);
    } else if p >= to {
      KeyBetween(entries, order, from, to, p);
    } else {
      if from < p {
        PrecedesAt(entries, order, from, p);
      }
      if p < to - 1 {
        PrecedesAt(entries, order, p, to - 1);
      }
    }
  }

  lemma {:induction false} LastValueAt<V>(entries: seq<Entry<V>>, last: nat)
    requires last < |entries| && forall j :: last < j < |entries| ==> entries[j].key != entries[last].key
    ensures HasKey(entries, entries[last].key) && LastValue(entries, entries[last].key) == entries[last].value
  {
    if last < |entries| - 1 {
      LastValueAt(entries[..|entries| - 1], last);
    }
  }

  // ----- The pass -----

  /** Where the pass stands: the first `done` positions of the order are settled, each first occurrence among them holds
      its key's last value, and everything else is untouched. */
  ghost predicate Settled<V>(start: seq<Entry<V>>, order: seq<nat>, done: nat, entries: seq<Entry<V>>, firsts: seq<nat>)
    requires done <= |order|
  {
    |entries| == |start| && (forall p :: 0 <= p < |order| ==> order[p] < |start|) &&
    (forall i :: 0 <= i < |start| ==> entries[i].key == start[i].key) &&
    (forall p :: done <= p < |order| ==> entries[order[p]] == start[order[p]]) &&
    (forall f :: f in firsts ==> f in order[..done] && SettledAt(start, entries, f)) &&
    (forall p :: 0 <= p < done && First(start, order[p]) ==> order[p] in firsts) &&
    forall p, q :: 0 <= p < q < |firsts| ==> firsts[p] != firsts[q]
  }

  ghost predicate SettledAt<V>(start: seq<Entry<V>>, entries: seq<Entry<V>>, f: nat)
    requires |entries| == |start|
  {
    f < |start| && First(start, f) && HasKey(start, start[f].key) && entries[f].value == LastValue(start, start[f].key)
  }

  ghost predicate Boundary<V>(start: seq<Entry<V>>, order: seq<nat>, at: nat)
    requires at <= |order| && forall p :: 0 <= p < |order| ==> order[p] < |start|
  {
    0 < at < |order| ==> start[order[at - 1]].key != start[order[at]].key
  }

  /** One group: its last value moves to its first position. */
  lemma SettleGroup<V>(start: seq<Entry<V>>, order: seq<nat>, from: nat, to: nat, was: seq<Entry<V>>,
                       firsts: seq<nat>, now: seq<Entry<V>>)
    requires IsOrder(start, order) && from < to <= |order| && Settled(start, order, from, was, firsts)
    requires Boundary(start, order, from) && Boundary(start, order, to)
    requires forall p :: from <= p < to ==> start[order[p]].key == start[order[from]].key
    requires |now| == |was| && forall i :: 0 <= i < |now| ==> now[i].key == was[i].key
    requires forall i :: 0 <= i < |now| && i != order[from] && i != order[to - 1] ==> now[i] == was[i]
    requires now[order[from]].value == was[order[to - 1]].value
    ensures Settled(start, order, to, now, firsts + [order[from]])
  {
    hide LastValue, IsOrder, First, HasKey;
    GroupEnds(start, order, from, to);
    OrderUnique(start, order);
    var first, all := order[from], firsts + [order[from]];
    assert forall p :: 0 <= p < from ==> order[p] == order[..to][p];
    assert first == order[..to][from];
    forall f | f in all
      ensures f in order[..to] && SettledAt(start, now, f)
    {
      if f in firsts {
        assert SettledAt(start, was, f);
        var p: nat :| p < from && order[..from][p] == f;
        assert order[p] == f;
      }
    }
    forall p | 0 <= p < |firsts|
      ensures firsts[p] != first
    {
      assert firsts[p] in order[..from];
    }
  }

  lemma OrderUnique<V>(start: seq<Entry<V>>, order: seq<nat>)
    requires IsOrder(start, order)
    ensures forall p, q :: 0 <= p < q < |order| ==> order[p] != order[q]
    ensures forall p :: 0 <= p < |order| ==> order[p] < |start|
  {
    forall p: nat, q: nat | p < q < |order|
      ensures order[p] != order[q]
    {
      assert Precedes(start, order[p], order[q]);
      BeforeStrict(start[order[p]].key, start[order[p]].key);
    }
    forall p | 0 <= p < |order|
      ensures order[p] < |start|
    {
      assert order[p] in order;
    }
  }

  /** The group scan over the sorted positions. */
  method CollapseGroups<V>(start: seq<Entry<V>>, order: seq<nat>) returns (entries: seq<Entry<V>>, firsts: seq<nat>)
    requires IsOrder(start, order)
    ensures Settled(start, order, |order|, entries, firsts)
  {
    hide LastValue, IsOrder, First, HasKey, Settled;
    OrderUnique(start, order);
    NothingSettled(start, order);
    entries, firsts := start, [];
    var cursor := 0;
    while cursor < |order|
      invariant cursor <= |order| && Settled(start, order, cursor, entries, firsts) && Boundary(start, order, cursor)
      decreases |order| - cursor
    {
      ghost var was, from := entries, cursor;
      Untouched(start, order, cursor, entries, firsts);
      var first := order[cursor];
      var last := first;
      cursor := cursor + 1;
      while cursor < |order| && entries[order[cursor]].key == entries[first].key
        invariant from < cursor <= |order| && last == order[cursor - 1]
        invariant forall p :: from <= p < cursor ==> start[order[p]].key == start[first].key
      {
        last := order[cursor];
        cursor := cursor + 1;
      }
      if first != last {
        var mine, lasts := entries[first], entries[last];
        entries := entries[first := Entry(mine.key, lasts.value)][last := Entry(lasts.key, mine.value)];
      }
      SettleGroup(start, order, from, cursor, was, firsts, entries);
      firsts := firsts + [first];
    }
  }

  lemma Untouched<V>(start: seq<Entry<V>>, order: seq<nat>, done: nat, entries: seq<Entry<V>>, firsts: seq<nat>)
    requires done <= |order| && Settled(start, order, done, entries, firsts)
    ensures |entries| == |start| && forall i :: 0 <= i < |start| ==> entries[i].key == start[i].key
  {
  }

  lemma NothingSettled<V>(start: seq<Entry<V>>, order: seq<nat>)
    requires forall p :: 0 <= p < |order| ==> order[p] < |start|
    ensures Settled(start, order, 0, start, [])
  {
  }

  /** Exactly the first occurrences are left, each with the last value of its key. */
  lemma AllSettled<V>(start: seq<Entry<V>>, order: seq<nat>, entries: seq<Entry<V>>, firsts: seq<nat>)
    requires IsOrder(start, order) && Settled(start, order, |order|, entries, firsts)
    ensures |entries| == |start|
    ensures forall i: nat :: i < |start| ==> (i in firsts <==> First(start, i))
    ensures forall i: nat :: i < |start| && First(start, i) ==>
              HasKey(start, start[i].key) && entries[i] == Entry(start[i].key, LastValue(start, start[i].key))
    ensures forall f :: f in firsts ==> f < |start|
  {
    hide LastValue, First, HasKey;
    forall i: nat | i < |start|
      ensures i in firsts <==> First(start, i)
      ensures First(start, i) ==> SettledAt(start, entries, i)
    {
      PositionOf(start, order, i);
      var p: nat :| p < |order| && order[p] == i;
      if i in firsts {
        assert SettledAt(start, entries, i);
      }
    }
  }

  /** The retain pass: one look at each position, along the kept positions in increasing order. */
  method RetainKept<V>(start: seq<Entry<V>>, entries: seq<Entry<V>>, kept: seq<nat>) returns (result: seq<Entry<V>>)
    requires |entries| == |start|
    requires forall p, q :: 0 <= p < q < |kept| ==> kept[p] < kept[q]
    requires forall i: nat :: i < |start| ==> (i in kept <==> First(start, i))
    requires forall i: nat :: i < |start| && First(start, i) ==>
               HasKey(start, start[i].key) && entries[i] == Entry(start[i].key, LastValue(start, start[i].key))
    ensures result == Kept(start, |start|)
  {
    hide LastValue, First, HasKey;
    result := [];
    var nextKept := 0;
    for source := 0 to |entries|
      invariant nextKept <= |kept| && result == Kept(start, source)
      invariant forall p :: 0 <= p < nextKept ==> kept[p] < source
      invariant forall p :: nextKept <= p < |kept| ==> source <= kept[p]
    {
      var keep := nextKept < |kept| && kept[nextKept] == source;
      assert keep <==> source in kept;
      if keep {
        result := result + [entries[source]];
        nextKept := nextKept + 1;
      }
    }
  }

  method FinishSorted<V>(start: seq<Entry<V>>) returns (result: seq<Entry<V>>)
    ensures result == Deduplicated(start)
  {
    hide IsOrder, First, HasKey, LastValue, Settled, Kept;
    var order := SortPositions(start);
    var entries, firsts := CollapseGroups(start, order);
    AllSettled(start, order, entries, firsts);
    FirstsUnique(start, order, entries, firsts);
    var increasing := (i: nat, k: nat) => i < k;
    SortedOrdered(firsts, increasing);
    var kept := Sorted(firsts, increasing);
    result := RetainKept(start, entries, kept);
    KeptIsDeduplicated(start);
  }

  lemma FirstsUnique<V>(start: seq<Entry<V>>, order: seq<nat>, entries: seq<Entry<V>>, firsts: seq<nat>)
    requires Settled(start, order, |order|, entries, firsts)
    ensures forall p, q :: 0 <= p < q < |firsts| ==> firsts[p] != firsts[q]
  {
  }

  const LINEAR_DEDUP_THRESHOLD: nat := 16

  /** Small or large, the finished object is the same function of its occurrences. */
  method FinishOccurrences<V>(occurrences: seq<Entry<V>>) returns (entries: seq<Entry<V>>)
    ensures entries == Deduplicated(occurrences)
  {
    if |occurrences| <= LINEAR_DEDUP_THRESHOLD {
      entries := FinishLinear(occurrences);
    } else {
      entries := FinishSorted(occurrences);
    }
  }
}
