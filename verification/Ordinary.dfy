/** What a stretch of a request does to ordinary names: those that are no temp names, and no links of a stale one. */
module Ordinary {
  import opened Bytes
  import opened FsModel
  import opened Output
  import opened Writer

  /** An ordinary name, free of the process's temp names when the request began. */
  ghost predicate Clear(begin: Fs, base: string, p: Path)
  {
    p.base != base && Free(begin, base, p)
  }

  /** They are still free. */
  ghost predicate StayClear(begin: Fs, base: string, now: Fs)
  {
    forall p: Path :: Clear(begin, base, p) ==> Free(now, base, p)
  }

  /** The inode is none of theirs. */
  ghost predicate Hidden(begin: Fs, base: string, now: Fs, i: nat)
  {
    forall p: Path :: Clear(begin, base, p) ==> Some(i) !in now.MayBe(p)
  }

  /** They hold what they held. */
  ghost predicate SameContents(begin: Fs, base: string, was: Fs, now: Fs)
  {
    forall p: Path :: Clear(begin, base, p) ==> now.Contents(p) == was.Contents(p)
  }

  /** What each name may be given. */
  type Outputs = Path -> set<Option<Bytes>>

  function One(target: Path, bytes: Bytes): Outputs
  {
    p => if p == target then {Some(bytes)} else {}
  }

  function Nothing(): Outputs { p => {} }

  /** After a crash a name shows nothing but what it could show before, or one of its outputs, complete. */
  ghost predicate Shows(begin: Fs, base: string, was: Fs, s: Fs, outs: Outputs)
  {
    forall p: Path, allowed :: Clear(begin, base, p) && was.ShowsOnly(p, allowed) ==> s.ShowsOnly(p, allowed + outs(p))
  }

  ghost predicate AllShow(begin: Fs, base: string, was: Fs, states: seq<Fs>, from: nat, outs: Outputs)
  {
    forall k :: from <= k < |states| ==> Shows(begin, base, was, states[k], outs)
  }

  lemma ShowsSame(begin: Fs, base: string, was: Fs, outs: Outputs)
    ensures Shows(begin, base, was, was, outs)
  {
    forall p: Path, allowed | Clear(begin, base, p) && was.ShowsOnly(p, allowed)
      ensures was.ShowsOnly(p, allowed + outs(p))
    {
      ShowsMore(was, p, allowed, allowed + outs(p));
    }
  }

  lemma ShowsThen(begin: Fs, base: string, a: Fs, b: Fs, c: Fs, first: Outputs, second: Outputs, outs: Outputs)
    requires Shows(begin, base, a, b, first) && Shows(begin, base, b, c, second)
    requires forall p :: Clear(begin, base, p) ==> first(p) <= outs(p) && second(p) <= outs(p)
    ensures Shows(begin, base, a, c, outs)
  {
    forall p: Path, allowed | Clear(begin, base, p) && a.ShowsOnly(p, allowed)
      ensures c.ShowsOnly(p, allowed + outs(p))
    {
      assert b.ShowsOnly(p, allowed + first(p));
      assert c.ShowsOnly(p, allowed + first(p) + second(p));
      ShowsMore(c, p, allowed + first(p) + second(p), allowed + outs(p));
    }
  }

  /** A stretch of the trace in which every state shows no more than that. */
  ghost predicate Stretch(begin: Fs, base: string, was: Fs, before: seq<Fs>, now: Fs, trace: seq<Fs>, outs: Outputs)
  {
    before <= trace && AllShow(begin, base, was, trace, |before|, outs) && Shows(begin, base, was, now, outs)
  }

  lemma NoStretch(begin: Fs, base: string, was: Fs, trace: seq<Fs>, outs: Outputs)
    ensures Stretch(begin, base, was, trace, was, trace, outs)
  {
    ShowsSame(begin, base, was, outs);
  }

  lemma StretchEnds(begin: Fs, base: string, was: Fs, before: seq<Fs>, now: Fs, trace: seq<Fs>, outs: Outputs)
    requires Stretch(begin, base, was, before, now, trace, outs)
    ensures Shows(begin, base, was, now, outs)
  {
  }

  lemma StretchMore(begin: Fs, base: string, was: Fs, before: seq<Fs>, now: Fs, trace: seq<Fs>, outs: Outputs,
                    more: Outputs)
    requires Stretch(begin, base, was, before, now, trace, outs)
    requires forall p :: Clear(begin, base, p) ==> outs(p) <= more(p)
    ensures Stretch(begin, base, was, before, now, trace, more)
  {
    NoStretch(begin, base, was, before, Nothing());
    StretchThen(begin, base, was, before, was, before, now, trace, Nothing(), outs, more);
  }

  /** Two stretches, one after the other. */
  lemma StretchThen(begin: Fs, base: string, a: Fs, atA: seq<Fs>, b: Fs, atB: seq<Fs>, c: Fs, atC: seq<Fs>,
                    first: Outputs, second: Outputs, outs: Outputs)
    requires Stretch(begin, base, a, atA, b, atB, first) && Stretch(begin, base, b, atB, c, atC, second)
    requires forall p :: Clear(begin, base, p) ==> first(p) <= outs(p) && second(p) <= outs(p)
    ensures Stretch(begin, base, a, atA, c, atC, outs)
  {
    hide Shows, Clear;
    NoOutputs(begin, base);
    ShowsThen(begin, base, a, b, c, first, second, outs);
    forall k | |atA| <= k < |atC|
      ensures Shows(begin, base, a, atC[k], outs)
    {
      if k < |atB| {
        assert atC[k] == atB[k];
        ShowsSame(begin, base, atB[k], Nothing());
        ShowsThen(begin, base, a, atB[k], atB[k], first, Nothing(), outs);
      } else {
        ShowsThen(begin, base, a, b, atC[k], first, second, outs);
      }
    }
  }

  lemma NoOutputs(begin: Fs, base: string)
    ensures forall p, outs: Outputs :: Nothing()(p) <= outs(p)
  {
  }

  /** A session on a hidden inode, seen from the ordinary names. */
  lemma SessionShows(begin: Fs, base: string, was: Fs, states: seq<Fs>, from: nat, temp: Path, target: Path, i: nat,
                     bytes: Bytes)
    requires Hidden(begin, base, was, i) && temp.base == base && AllCrashSafe(was, states, from, temp, target, i, bytes)
    ensures AllShow(begin, base, was, states, from, One(target, bytes))
  {
    forall k | from <= k < |states|
      ensures Shows(begin, base, was, states[k], One(target, bytes))
    {
      assert CrashSafe(was, states[k], temp, target, i, bytes);
      forall p: Path, allowed | Clear(begin, base, p) && was.ShowsOnly(p, allowed)
        ensures states[k].ShowsOnly(p, allowed + One(target, bytes)(p))
      {
        if p != target {
          assert allowed + {} == allowed;
        }
      }
    }
  }

  /** The inode a temp name leads to, or will, is hidden. */
  lemma TempHidden(begin: Fs, was: Fs, temp: Path)
    requires was.Valid() && StayClear(begin, temp.base, was)
    ensures Hidden(begin, temp.base, was, TempInode(was, temp))
  {
    forall p: Path | Clear(begin, temp.base, p)
      ensures Some(TempInode(was, temp)) !in was.MayBe(p)
    {
      FreeOfTemp(was, temp, p);
    }
  }

  /** A session that publishes nothing keeps ordinary names as they are. */
  lemma ApartOrdinary(begin: Fs, was: Fs, now: Fs, temp: Path, i: nat)
    requires was.Valid() && StayClear(begin, temp.base, was) && Hidden(begin, temp.base, was, i) &&
             Apart(was, now, temp, i)
    requires temp in now.names ==> now.names[temp] == i && i == TempInode(was, temp)
    ensures StayClear(begin, temp.base, now) && SameContents(begin, temp.base, was, now)
    ensures |was.inodes| <= |now.inodes|
    ensures forall j :: Hidden(begin, temp.base, was, j) ==> Hidden(begin, temp.base, now, j)
  {
    forall p: Path | Clear(begin, temp.base, p)
      ensures Free(now, temp.base, p) && now.MayBe(p) <= was.MayBe(p) && now.Contents(p) == was.Contents(p)
    {
      ApartKeeps(was, now, temp, i, p, {});
      assert now.MayBe(p) <= was.MayBe(p);
      if temp in now.names {
        ApartFree(was, now, temp, p);
      } else {
        GoneFree(was, now, temp, i, p);
      }
    }
  }

  lemma GoneFree(was: Fs, now: Fs, temp: Path, i: nat, p: Path)
    requires Apart(was, now, temp, i) && temp !in now.names && Free(was, temp.base, p) && p.base != temp.base
    ensures Free(now, temp.base, p)
  {
    forall m: Path | m in now.names
      ensures m != temp && m in was.names && now.names[m] == was.names[m]
    {
      assert m != temp ==> now.Lookup(m) == was.Lookup(m);
    }
  }

  /** A session that publishes keeps them too, but for the target. */
  lemma ReplacedOrdinary(begin: Fs, was: Fs, now: Fs, temp: Path, target: Path, bytes: Bytes)
    requires was.Valid() && StayClear(begin, temp.base, was)
    requires temp == Path(target.dir, temp.base) && Replaced(was, now, temp, target, TempInode(was, temp), bytes)
    requires temp in now.names ==> now.names[temp] == TempInode(was, temp)
    ensures StayClear(begin, temp.base, now)
    ensures forall p: Path :: Clear(begin, temp.base, p) ==>
              now.Contents(p) == if p == target then Some(bytes) else was.Contents(p)
    ensures Clear(begin, temp.base, target) ==> temp !in now.names
  {
    var i := TempInode(was, temp);
    TempHidden(begin, was, temp);
    assert was.Lookup(target) in was.MayBe(target);
    assert target.base == temp.base ==> target == temp;
    forall p: Path | Clear(begin, temp.base, p)
      ensures Free(now, temp.base, p) && now.Contents(p) == if p == target then Some(bytes) else was.Contents(p)
    {
      if temp == target || was.Lookup(target) == Some(i) {
        ApartKeeps(was, now, temp, i, p, {});
        ApartFree(was, now, temp, p);
      } else {
        PublishedKeeps(was, now, temp, target, i, p, {}, bytes);
        PublishedFree(was, now, temp, target, p);
      }
    }
  }

  /** So do writes and drops: no temp name appears. */
  lemma UnlinkedOrdinary(begin: Fs, was: Fs, now: Fs, temp: Path, i: nat)
    requires was.Valid() && StayClear(begin, temp.base, was) && Hidden(begin, temp.base, was, i)
    requires Apart(was, now, temp, i) && Unlinked(was, now, temp)
    ensures StayClear(begin, temp.base, now) && SameContents(begin, temp.base, was, now)
    ensures forall j :: Hidden(begin, temp.base, was, j) ==> Hidden(begin, temp.base, now, j)
  {
    forall p: Path | Clear(begin, temp.base, p)
      ensures Free(now, temp.base, p) && now.MayBe(p) <= was.MayBe(p) && now.Contents(p) == was.Contents(p)
    {
      ApartKeeps(was, now, temp, i, p, {});
    }
  }

  /** A session that publishes nothing, seen from the ordinary names. */
  lemma ApartStretch(begin: Fs, was: Fs, before: seq<Fs>, now: Fs, trace: seq<Fs>, temp: Path, i: nat)
    requires was.Valid() && Hidden(begin, temp.base, was, i) && before <= trace
    requires Apart(was, now, temp, i) && AllApart(was, trace, |before|, temp, i)
    ensures Stretch(begin, temp.base, was, before, now, trace, Nothing())
  {
    hide Shows, Apart;
    forall k | |before| <= k < |trace|
      ensures Shows(begin, temp.base, was, trace[k], Nothing())
    {
      ApartShows(begin, was, trace[k], temp, i);
    }
    ApartShows(begin, was, now, temp, i);
  }

  lemma ApartShows(begin: Fs, was: Fs, now: Fs, temp: Path, i: nat)
    requires was.Valid() && Hidden(begin, temp.base, was, i) && Apart(was, now, temp, i)
    ensures Shows(begin, temp.base, was, now, Nothing())
  {
    forall p: Path, allowed | Clear(begin, temp.base, p) && was.ShowsOnly(p, allowed)
      ensures now.ShowsOnly(p, allowed + Nothing()(p))
    {
      ApartKeeps(was, now, temp, i, p, allowed);
      assert allowed + {} == allowed;
    }
  }

  /** A run that may publish, seen from the ordinary names. */
  lemma RunStretch(begin: Fs, was: Fs, before: seq<Fs>, now: Fs, trace: seq<Fs>, temp: Path, target: Path, i: nat,
                   bytes: Bytes)
    requires was.Valid() && Hidden(begin, temp.base, was, i) && before < trace && trace[|trace| - 1] == now
    requires AllApartOrPublished(was, trace, |before|, temp, target, i, bytes)
    ensures Stretch(begin, temp.base, was, before, now, trace, One(target, bytes))
  {
    hide Shows;
    SessionCrashSafe(was, trace, |before|, temp, target, i, bytes);
    SessionShows(begin, temp.base, was, trace, |before|, temp, target, i, bytes);
  }

  lemma SameSelf(begin: Fs, base: string, was: Fs)
    ensures SameContents(begin, base, was, was)
  {
  }

  lemma SameThen(begin: Fs, base: string, a: Fs, b: Fs, c: Fs)
    requires SameContents(begin, base, a, b) && SameContents(begin, base, b, c)
    ensures SameContents(begin, base, a, c)
  {
  }

  lemma SameMeans(begin: Fs, base: string, was: Fs, now: Fs)
    requires SameContents(begin, base, was, now)
    ensures forall p: Path :: Clear(begin, base, p) ==> now.Contents(p) == was.Contents(p)
  {
  }

  /** Writes to a hidden inode change nothing for ordinary names. */
  lemma WroteOrdinary(begin: Fs, was: Fs, before: seq<Fs>, now: Fs, trace: seq<Fs>, temp: Path, i: nat)
    requires was.Valid() && StayClear(begin, temp.base, was) && Hidden(begin, temp.base, was, i)
    requires Wrote(was, before, now, trace, i)
    ensures StayClear(begin, temp.base, now) && Hidden(begin, temp.base, now, i)
    ensures SameContents(begin, temp.base, was, now) && |now.inodes| == |was.inodes| && now.names == was.names
    ensures Stretch(begin, temp.base, was, before, now, trace, Nothing())
  {
    WroteApart(was, before, now, trace, temp, i);
    ApartStretch(begin, was, before, now, trace, temp, i);
    UnlinkedOrdinary(begin, was, now, temp, i);
  }

  // ----- Temp files left behind -----

  /** No temp file is left that was not there before, and is no destination. */
  ghost predicate NoNewTemps(start: Fs, now: Fs, base: string, targets: set<Path>)
  {
    forall m: Path :: m.base == base && m !in start.names && m !in targets ==> m !in now.names
  }

  lemma NoNewTempsThen(start: Fs, was: Fs, now: Fs, base: string)
    requires NoNewTemps(start, was, base, {}) && NoNewTemps(was, now, base, {})
    ensures NoNewTemps(start, now, base, {})
  {
  }

  lemma KnownTarget(was: Fs, now: Fs, base: string, target: Path)
    requires NoNewTemps(was, now, base, {target}) && target in was.names
    ensures NoNewTemps(was, now, base, {})
  {
  }

  lemma ApartTemps(was: Fs, now: Fs, temp: Path, i: nat)
    requires Apart(was, now, temp, i) && (temp in now.names ==> temp in was.names)
    ensures forall targets :: NoNewTemps(was, now, temp.base, targets)
  {
    forall m: Path | m.base == temp.base && m !in was.names
      ensures m !in now.names
    {
      assert m != temp ==> now.Lookup(m) == was.Lookup(m);
    }
  }

  lemma ReplacedTemps(was: Fs, now: Fs, temp: Path, target: Path, bytes: Bytes)
    requires was.Valid() && temp == Path(target.dir, temp.base)
    requires Replaced(was, now, temp, target, TempInode(was, temp), bytes)
    ensures NoNewTemps(was, now, temp.base, {target})
  {
    assert target.base == temp.base ==> target == temp;
    forall m: Path | m.base == temp.base && m !in was.names && m != target
      ensures m !in now.names
    {
      assert m != temp ==> now.Lookup(m) == was.Lookup(m);
    }
  }
}
