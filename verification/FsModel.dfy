/**
 A file system with crashes: what running processes see, and what a power loss may leave of it.

 An inode's bytes are certain after a crash only once a data sync covered them; otherwise any bytes may be found. A name
 may lead, after a crash, to any target it has had since its directory was last synced. `rename` and the other directory
 operations are atomic, as in POSIX.1-2017, System Interfaces, `rename()`.
 */
module FsModel {
  import opened Bytes

  datatype Path = Path(dir: string, base: string)

  datatype Inode = Inode(content: Bytes, settled: bool)

  datatype Fs = Fs(inodes: seq<Inode>, names: map<Path, nat>, history: map<Path, set<Option<nat>>>)
  {
    ghost predicate Valid()
    {
      (forall p :: p in names ==> names[p] < |inodes|) &&
      forall p, t :: p in history && t in history[p] && t.Some? ==> t.value < |inodes|
    }

    /** Where a name leads now. */
    function Lookup(p: Path): Option<nat>
    {
      if p in names then Some(names[p]) else None
    }

    /** Where a name may lead after a crash. */
    function MayBe(p: Path): set<Option<nat>>
    {
      {Lookup(p)} + (if p in history then history[p] else {})
    }

    /** The bytes a reader finds now. */
    function Contents(p: Path): Option<Bytes>
    {
      if p in names && names[p] < |inodes| then Some(inodes[names[p]].content) else None
    }

    /** `c` may be found at `p` after a crash. */
    ghost predicate AfterCrash(p: Path, c: Option<Bytes>)
    {
      exists t :: t in MayBe(p) && MayHold(t, c)
    }

    ghost predicate MayHold(t: Option<nat>, c: Option<Bytes>)
    {
      match t
      case None => c == None
      case Some(i) => c.Some? && i < |inodes| && (inodes[i].settled ==> inodes[i].content == c.value)
    }

    /** Every possible target of `p` is, durably, one of the allowed contents (`None` for an absent file). */
    ghost predicate ShowsOnly(p: Path, allowed: set<Option<Bytes>>)
    {
      forall t :: t in MayBe(p) ==> SafeTarget(t, allowed)
    }

    predicate SafeTarget(t: Option<nat>, allowed: set<Option<Bytes>>)
    {
      match t
      case None => None in allowed
      case Some(i) => i < |inodes| && inodes[i].settled && Some(inodes[i].content) in allowed
    }

    /** Durably the complete old contents or the complete new ones. */
    ghost predicate Safe(p: Path, old': Option<Bytes>, new': Bytes)
    {
      ShowsOnly(p, {old', Some(new')})
    }

    // ----- Primitive operations -----

    function Relink(p: Path, t: Option<nat>): Fs
    {
      Fs(inodes, if t.Some? then names[p := t.value] else names - {p}, history[p := MayBe(p)])
    }

    /** Open for writing with truncation: an existing name keeps its inode. */
    function CreateStep(p: Path): Fs
    {
      if p in names then
        if names[p] < |inodes| then this.(inodes := inodes[names[p] := Inode([], false)]) else this
      else this.(inodes := inodes + [Inode([], false)]).Relink(p, Some(|inodes|))
    }

    function AppendStep(i: nat, bytes: Bytes): Fs
      requires i < |inodes|
    {
      this.(inodes := inodes[i := Inode(inodes[i].content + bytes, false)])
    }

    function SettleStep(i: nat): Fs
      requires i < |inodes|
    {
      this.(inodes := inodes[i := Inode(inodes[i].content, true)])
    }

    /** Renaming a name over another link of the same inode does nothing. */
    function RenameStep(from: Path, to: Path): Fs
      requires from in names
    {
      if Lookup(to) == Lookup(from) then this
      else Relink(to, Some(names[from])).Relink(from, None)
    }

    function RemoveStep(p: Path): Fs { Relink(p, None) }

    function SyncDirStep(dir: string): Fs
    {
      this.(history := map p | p in history && p.dir != dir :: history[p])
    }
  }

  // ----- What safety means -----

  /** Allowed contents are exactly what no crash can leave: `ShowsOnly` is crash safety. */
  lemma ShowsOnlyIsCrashSafe(fs: Fs, p: Path, allowed: set<Option<Bytes>>)
    requires fs.Valid()
    ensures fs.ShowsOnly(p, allowed) <==> forall c :: fs.AfterCrash(p, c) ==> c in allowed
  {
    if !fs.ShowsOnly(p, allowed) {
      var t :| t in fs.MayBe(p) && !fs.SafeTarget(t, allowed);
      var odd := Unlisted(allowed);
      var c := if t.None? then None
               else Some(if fs.inodes[t.value].settled then fs.inodes[t.value].content else odd);
      assert fs.MayHold(t, c);
      assert fs.AfterCrash(p, c);
    }
  }

  /** Bytes longer than all members of a finite set. */
  lemma Unlisted(allowed: set<Option<Bytes>>) returns (odd: Bytes)
    ensures odd != [] && forall c :: c in allowed && c.Some? ==> |c.value| < |odd|
    decreases |allowed|
  {
    odd := ['x'];
    if allowed != {} {
      var c :| c in allowed;
      var shorter := Unlisted(allowed - {c});
      odd := shorter + if c.Some? then c.value else [];
      forall d | d in allowed && d.Some?
        ensures |d.value| < |odd|
      {
        assert d == c || d in allowed - {c};
      }
    }
  }

  /** The replaced file: no crash can show anything but the complete old or the complete new contents. */
  lemma SafeIsCrashSafe(fs: Fs, p: Path, old': Option<Bytes>, new': Bytes)
    requires fs.Valid()
    ensures fs.Safe(p, old', new') <==> forall c :: fs.AfterCrash(p, c) ==> c == old' || c == Some(new')
  {
    ShowsOnlyIsCrashSafe(fs, p, {old', Some(new')});
  }

  /** A running reader finds allowed contents as well. */
  lemma ShownContents(fs: Fs, p: Path, allowed: set<Option<Bytes>>)
    requires fs.Valid() && fs.ShowsOnly(p, allowed)
    ensures fs.Contents(p) in allowed
  {
    assert fs.Lookup(p) in fs.MayBe(p);
    assert fs.SafeTarget(fs.Lookup(p), allowed);
  }

  // ----- Why the protocol has its steps -----

  /** Renaming over the target is safe exactly when the data sync came first and the bytes are all there. */
  lemma RenameNeedsSync(fs: Fs, temp: Path, target: Path, old': Option<Bytes>, new': Bytes)
    requires fs.Valid() && temp in fs.names && temp != target && fs.Lookup(target) != fs.Lookup(temp)
    requires fs.Safe(target, old', new')
    ensures fs.RenameStep(temp, target).Safe(target, old', new') <==>
            fs.SafeTarget(Some(fs.names[temp]), {old', Some(new')})
  {
    var after := fs.RenameStep(temp, target);
    assert after.MayBe(target) == fs.MayBe(target) + {Some(fs.names[temp])};
    assert forall t :: after.SafeTarget(t, {old', Some(new')}) <==> fs.SafeTarget(t, {old', Some(new')});
  }

  /** Truncating a temp name that may share the target's inode destroys the target's only copy. */
  lemma AliasedTempIsUnsafe(fs: Fs, temp: Path, target: Path, old': Option<Bytes>, new': Bytes)
    requires fs.Valid() && temp in fs.names && Some(fs.names[temp]) in fs.MayBe(target)
    ensures !fs.CreateStep(temp).Safe(target, old', new')
  {
    var after := fs.CreateStep(temp);
    assert Some(fs.names[temp]) in after.MayBe(target);
    assert !after.SafeTarget(Some(fs.names[temp]), {old', Some(new')});
  }

  /** Opening the temp name leaves the target safe exactly when the two cannot share an inode. */
  lemma CreateSafeExactly(fs: Fs, temp: Path, target: Path, old': Option<Bytes>, new': Bytes)
    requires fs.Valid() && temp != target && fs.Safe(target, old', new')
    ensures fs.CreateStep(temp).Safe(target, old', new') <==>
            (temp in fs.names ==> Some(fs.names[temp]) !in fs.MayBe(target))
  {
    var after := fs.CreateStep(temp);
    assert after.MayBe(target) == fs.MayBe(target);
    if temp in fs.names && Some(fs.names[temp]) in fs.MayBe(target) {
      AliasedTempIsUnsafe(fs, temp, target, old', new');
    } else {
      assert forall t :: t in fs.MayBe(target) ==>
             after.SafeTarget(t, {old', Some(new')}) == fs.SafeTarget(t, {old', Some(new')}) by {
        forall t | t in fs.MayBe(target)
          ensures after.SafeTarget(t, {old', Some(new')}) == fs.SafeTarget(t, {old', Some(new')})
        {
          assert fs.SafeTarget(t, {old', Some(new')});
        }
      }
    }
  }

  // ----- Temp names -----

  /** The inode opening the temp name would use. */
  function TempInode(fs: Fs, temp: Path): nat
  {
    if temp in fs.names then fs.names[temp] else |fs.inodes|
  }

  /** No temp name of the process leads to an inode `p` may lead to, and the temp name of its own directory shares its
      inode with no other temp name. */
  ghost predicate Free(fs: Fs, base: string, p: Path)
  {
    (forall m: Path :: m in fs.names && m.base == base ==> Some(fs.names[m]) !in fs.MayBe(p)) &&
    forall m: Path :: m in fs.names && m.base == base && m.dir != p.dir && Path(p.dir, base) in fs.names ==>
      fs.names[m] != fs.names[Path(p.dir, base)]
  }

  /** Where no temp file exists every name is free. */
  lemma NoTempsFree(fs: Fs, base: string, p: Path)
    requires forall m: Path :: m in fs.names ==> m.base != base
    ensures Free(fs, base, p)
  {
  }

  lemma FreeOfTemp(fs: Fs, temp: Path, p: Path)
    requires fs.Valid() && Free(fs, temp.base, p)
    ensures Some(TempInode(fs, temp)) !in fs.MayBe(p)
  {
  }

  /** Opening a temp name somebody owns truncates the owner's file: both writers then hold one inode and one name. */
  lemma SecondOpenSteals(fs: Fs, temp: Path, i: nat)
    requires fs.Valid() && fs.Lookup(temp) == Some(i)
    ensures var after := fs.CreateStep(temp);
            after.Lookup(temp) == Some(i) && i < |after.inodes| && after.inodes[i].content == []
    ensures temp !in fs.CreateStep(temp).RemoveStep(temp).names
  {
  }

  // ----- A writer's session -----

  /** Between the two states nothing happened but to the temp name and its inode `i`. */
  ghost predicate Apart(was: Fs, now: Fs, temp: Path, i: nat)
  {
    |was.inodes| <= |now.inodes| &&
    (forall k :: 0 <= k < |was.inodes| && k != i ==> now.inodes[k] == was.inodes[k]) &&
    forall p :: p != temp ==> now.Lookup(p) == was.Lookup(p) && now.MayBe(p) <= was.MayBe(p)
  }

  /** As `Apart`, but the target now leads to the temp file's inode and the temp name is gone. */
  ghost predicate Published(was: Fs, now: Fs, temp: Path, target: Path, i: nat)
  {
    |was.inodes| <= |now.inodes| && i < |now.inodes| && temp !in now.names &&
    (forall k :: 0 <= k < |was.inodes| && k != i ==> now.inodes[k] == was.inodes[k]) &&
    (forall p :: p != temp && p != target ==> now.Lookup(p) == was.Lookup(p) && now.MayBe(p) <= was.MayBe(p)) &&
    now.Lookup(target) == Some(i) && now.MayBe(target) <= was.MayBe(target) + {Some(i)}
  }

  lemma ApartKeeps(was: Fs, now: Fs, temp: Path, i: nat, p: Path, allowed: set<Option<Bytes>>)
    requires was.Valid() && Apart(was, now, temp, i) && p != temp && Some(i) !in was.MayBe(p)
    ensures was.ShowsOnly(p, allowed) ==> now.ShowsOnly(p, allowed)
    ensures now.Contents(p) == was.Contents(p)
  {
    assert was.Lookup(p) in was.MayBe(p);
    if was.ShowsOnly(p, allowed) {
      forall t | t in now.MayBe(p)
        ensures now.SafeTarget(t, allowed)
      {
        assert was.SafeTarget(t, allowed);
      }
    }
  }

  lemma PublishedKeeps(was: Fs, now: Fs, temp: Path, target: Path, i: nat, p: Path, allowed: set<Option<Bytes>>,
                       bytes: Bytes)
    requires was.Valid() && Published(was, now, temp, target, i) && p != temp && Some(i) !in was.MayBe(p)
    requires p == target ==> now.inodes[i] == Inode(bytes, true)
    ensures was.ShowsOnly(p, allowed) ==> now.ShowsOnly(p, if p == target then allowed + {Some(bytes)} else allowed)
    ensures now.Contents(p) == if p == target then Some(bytes) else was.Contents(p)
  {
    assert was.Lookup(p) in was.MayBe(p);
    if was.ShowsOnly(p, allowed) {
      forall t | t in now.MayBe(p)
        ensures now.SafeTarget(t, if p == target then allowed + {Some(bytes)} else allowed)
      {
        if t in was.MayBe(p) {
          assert was.SafeTarget(t, allowed);
        }
      }
    }
  }

  /** A session leaves free names free. */
  lemma ApartFree(was: Fs, now: Fs, temp: Path, p: Path)
    requires was.Valid() && Apart(was, now, temp, TempInode(was, temp)) && Free(was, temp.base, p) &&
             p.base != temp.base
    requires temp in now.names ==> now.names[temp] == TempInode(was, temp)
    ensures Free(now, temp.base, p)
  {
    TempsBefore(was, now, temp);
  }

  lemma PublishedFree(was: Fs, now: Fs, temp: Path, target: Path, p: Path)
    requires was.Valid() && Published(was, now, temp, target, TempInode(was, temp)) && Free(was, temp.base, p)
    requires p.base != temp.base && target.base != temp.base && temp == Path(target.dir, temp.base)
    ensures Free(now, temp.base, p)
  {
    forall m: Path | m in now.names && m.base == temp.base
      ensures m != temp && m in was.names && now.names[m] == was.names[m]
    {
      assert now.Lookup(m) == was.Lookup(m);
    }
  }

  lemma TempsBefore(was: Fs, now: Fs, temp: Path)
    requires Apart(was, now, temp, TempInode(was, temp))
    ensures forall m: Path :: m in now.names && m != temp ==> m in was.names && now.names[m] == was.names[m]
  {
    forall m: Path | m in now.names && m != temp
      ensures m in was.names && now.names[m] == was.names[m]
    {
      assert now.Lookup(m) == was.Lookup(m);
    }
  }

  /** Only the bytes of inode `i` changed. */
  ghost predicate OnlyInode(was: Fs, now: Fs, i: nat)
  {
    now.names == was.names && now.history == was.history && |now.inodes| == |was.inodes| &&
    forall k :: 0 <= k < |was.inodes| && k != i ==> now.inodes[k] == was.inodes[k]
  }

  lemma OnlyInodeApart(start: Fs, was: Fs, now: Fs, temp: Path, i: nat)
    requires Apart(start, was, temp, i) && OnlyInode(was, now, i)
    ensures Apart(start, now, temp, i)
  {
    assert forall p :: now.Lookup(p) == was.Lookup(p) && now.MayBe(p) == was.MayBe(p);
  }

  lemma ApartSame(was: Fs, temp: Path, i: nat)
    ensures Apart(was, was, temp, i)
  {
  }

  lemma CreateApart(was: Fs, temp: Path)
    requires was.Valid()
    ensures var now := was.CreateStep(temp);
            now.Valid() && now.Lookup(temp) == Some(TempInode(was, temp)) && TempInode(was, temp) < |now.inodes| &&
            now.inodes[TempInode(was, temp)] == Inode([], false) && Apart(was, now, temp, TempInode(was, temp))
  {
    var now := was.CreateStep(temp);
    assert forall p :: p != temp ==> now.Lookup(p) == was.Lookup(p) && now.MayBe(p) == was.MayBe(p);
  }

  lemma RemoveApart(start: Fs, was: Fs, temp: Path, i: nat)
    requires was.Valid() && Apart(start, was, temp, i)
    ensures var now := was.RemoveStep(temp); now.Valid() && temp !in now.names && Apart(start, now, temp, i)
  {
    var now := was.RemoveStep(temp);
    assert forall p :: p != temp ==> now.Lookup(p) == was.Lookup(p) && now.MayBe(p) == was.MayBe(p);
    assert now.MayBe(temp) == {None} + was.MayBe(temp);
  }

  /** Renaming the temp file over a target that is not already a link of it. */
  lemma RenamePublishes(start: Fs, was: Fs, temp: Path, target: Path, i: nat)
    requires was.Valid() && Apart(start, was, temp, i) && start.Lookup(target) != Some(i)
    requires temp != target && was.Lookup(temp) == Some(i)
    ensures var now := was.RenameStep(temp, target);
            now.Valid() && now.inodes == was.inodes && Published(start, now, temp, target, i)
  {
    assert was.Lookup(target) == start.Lookup(target);
    RenameMeans(was, temp, target, i);
  }

  lemma RenameMeans(was: Fs, temp: Path, target: Path, i: nat)
    requires was.Valid() && temp != target && was.Lookup(temp) == Some(i) && was.Lookup(target) != Some(i)
    ensures var now := was.RenameStep(temp, target);
            now.Valid() && now.inodes == was.inodes && temp !in now.names && now.Lookup(target) == Some(i) &&
            now.MayBe(target) == was.MayBe(target) + {Some(i)} &&
            forall p :: p != temp && p != target ==> now.Lookup(p) == was.Lookup(p) && now.MayBe(p) == was.MayBe(p)
  {
    var now := was.RenameStep(temp, target);
    assert now.MayBe(temp) == was.MayBe(temp) + {None};
  }

  lemma SyncDirPublished(start: Fs, was: Fs, temp: Path, target: Path, i: nat, dir: string)
    requires was.Valid()
    ensures var now := was.SyncDirStep(dir);
            now.Valid() && now.inodes == was.inodes && now.names == was.names &&
            (Published(start, was, temp, target, i) ==> Published(start, now, temp, target, i)) &&
            (Apart(start, was, temp, i) ==> Apart(start, now, temp, i))
    ensures dir == target.dir ==> was.SyncDirStep(dir).MayBe(target) == {was.Lookup(target)}
  {
    var now := was.SyncDirStep(dir);
    assert forall p :: now.Lookup(p) == was.Lookup(p) && now.MayBe(p) <= was.MayBe(p);
  }
}
