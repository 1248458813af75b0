/** The write paths: the one-shot atomic replace, and the streaming writer committed by a rename. */
module Output {
  import opened Bytes
  import opened Decimal
  import opened FsModel
  import opened Utf8

  /** Every state since position `from` lies inside the temp file's session. */
  ghost predicate AllApart(was: Fs, states: seq<Fs>, from: nat, temp: Path, i: nat)
  {
    forall k :: from <= k < |states| ==> states[k].Valid() && Apart(was, states[k], temp, i)
  }

  /** Every state since position `from` is inside the session, or behind its rename with the complete new contents. */
  ghost predicate AllApartOrPublished(was: Fs, states: seq<Fs>, from: nat, temp: Path, target: Path, i: nat,
                                      bytes: Bytes)
  {
    forall k :: from <= k < |states| ==> ApartOrPublished(was, states[k], temp, target, i, bytes)
  }

  ghost predicate ApartOrPublished(was: Fs, s: Fs, temp: Path, target: Path, i: nat, bytes: Bytes)
  {
    s.Valid() &&
    (Apart(was, s, temp, i) ||
     (Published(was, s, temp, target, i) && s.inodes[i] == Inode(bytes, true)))
  }

  /** Crash safety of one state: a name that is no link of inode `i` can show nothing it could not show before, and the
      target nothing but that or the new bytes. */
  ghost predicate CrashSafe(was: Fs, s: Fs, temp: Path, target: Path, i: nat, bytes: Bytes)
  {
    forall p, allowed :: p != temp && Some(i) !in was.MayBe(p) && was.ShowsOnly(p, allowed) ==>
      s.ShowsOnly(p, if p == target then allowed + {Some(bytes)} else allowed)
  }

  ghost predicate AllCrashSafe(was: Fs, states: seq<Fs>, from: nat, temp: Path, target: Path, i: nat, bytes: Bytes)
  {
    forall k :: from <= k < |states| ==> CrashSafe(was, states[k], temp, target, i, bytes)
  }

  lemma ShowsMore(fs: Fs, p: Path, allowed: set<Option<Bytes>>, more: set<Option<Bytes>>)
    requires fs.ShowsOnly(p, allowed) && allowed <= more
    ensures fs.ShowsOnly(p, more)
  {
    assert forall t :: fs.SafeTarget(t, allowed) ==> fs.SafeTarget(t, more);
  }

  lemma SessionCrashSafe(was: Fs, states: seq<Fs>, from: nat, temp: Path, target: Path, i: nat, bytes: Bytes)
    requires was.Valid() && AllApartOrPublished(was, states, from, temp, target, i, bytes)
    ensures AllCrashSafe(was, states, from, temp, target, i, bytes)
  {
    forall k | from <= k < |states|
      ensures CrashSafe(was, states[k], temp, target, i, bytes)
    {
      var s := states[k];
      assert ApartOrPublished(was, s, temp, target, i, bytes);
      forall p, allowed | p != temp && Some(i) !in was.MayBe(p) && was.ShowsOnly(p, allowed)
        ensures s.ShowsOnly(p, if p == target then allowed + {Some(bytes)} else allowed)
      {
        if Apart(was, s, temp, i) {
          ApartKeeps(was, s, temp, i, p, allowed);
          ShowsMore(s, p, allowed, if p == target then allowed + {Some(bytes)} else allowed);
        } else {
          PublishedKeeps(was, s, temp, target, i, p, allowed, bytes);
        }
      }
    }
  }

  /** After a successful commit: the target leads to the temp file's inode, with the complete bytes on disk; unless it
      was a link of that inode all along, or the temp name itself, the temp name is gone. */
  ghost predicate Replaced(was: Fs, now: Fs, temp: Path, target: Path, i: nat, bytes: Bytes)
  {
    i < |now.inodes| && now.inodes[i] == Inode(bytes, true) && now.Lookup(target) == Some(i) &&
    if temp == target || was.Lookup(target) == Some(i) then Apart(was, now, temp, i) && now.Lookup(temp) == Some(i)
    else Published(was, now, temp, target, i)
  }

  /** How many calls failed: those that are reported, and the removals and directory syncs, which are not. */
  datatype Faults = Faults(failed: nat, unremoved: nat, unsynced: nat)
  {
    predicate UpTo(later: Faults)
    {
      failed <= later.failed && unremoved <= later.unremoved && unsynced <= later.unsynced
    }

    function AndFailed(): Faults { this.(failed := failed + 1) }

    function AndUnremoved(): Faults { this.(unremoved := unremoved + 1) }

    function AndUnsynced(): Faults { this.(unsynced := unsynced + 1) }
  }

  /** The operating system: each call may fail; `trace` holds every state a crash could meet,
      `faults` counts failures. */
  class FileSystem {
    var now: Fs
    ghost var trace: seq<Fs>
    ghost var faults: Faults

    ghost predicate Valid()
      reads this
    {
      now.Valid() && trace != [] && trace[|trace| - 1] == now
    }

    constructor (fs: Fs)
      requires fs.Valid()
      ensures Valid() && now == fs && trace == [fs] && faults == Faults(0, 0, 0)
    {
      now := fs;
      trace := [fs];
      faults := Faults(0, 0, 0);
    }

    /** Open for writing, created or truncated. */
    method Create(p: Path) returns (r: Option<nat>)
      requires Valid()
      modifies this
      ensures Valid() && trace == old(trace) + [now]
      ensures r.None? ==> now == old(now)
      ensures r.Some? ==> now == old(now).CreateStep(p) && now.Lookup(p) == r
      ensures faults == if r.Some? then old(faults) else old(faults).AndFailed()
    {
      if * {
        CreateApart(now, p);
        now := now.CreateStep(p);
        r := Some(now.names[p]);
      } else {
        r := None;
        faults := faults.AndFailed();
      }
      trace := trace + [now];
    }

    /** One write call: a failure, or a prefix that is nonempty when there was anything to write. */
    method Append(i: nat, bytes: Bytes) returns (r: Option<nat>)
      requires Valid() && i < |now.inodes|
      modifies this
      ensures Valid() && trace == old(trace) + [now] && OnlyInode(old(now), now, i)
      ensures r.None? ==> now == old(now)
      ensures r.Some? ==> r.value <= |bytes| && (bytes != [] ==> r.value > 0)
      ensures r.Some? ==> now.inodes[i].content == old(now).inodes[i].content + bytes[..r.value]
      ensures faults == if r.Some? then old(faults) else old(faults).AndFailed()
    {
      if * {
        var n: nat :| n <= |bytes| && (bytes != [] ==> n > 0);
        now := now.AppendStep(i, bytes[..n]);
        r := Some(n);
      } else {
        r := None;
        faults := faults.AndFailed();
      }
      trace := trace + [now];
    }

    /** Data sync: on success the inode's bytes have reached the disk. */
    method Sync(i: nat) returns (ok: bool)
      requires Valid() && i < |now.inodes|
      modifies this
      ensures Valid() && trace == old(trace) + [now] && OnlyInode(old(now), now, i)
      ensures now.inodes[i].content == old(now).inodes[i].content
      ensures ok ==> now.inodes[i].settled
      ensures faults == if ok then old(faults) else old(faults).AndFailed()
    {
      ok := *;
      if ok {
        now := now.SettleStep(i);
      } else {
        faults := faults.AndFailed();
      }
      trace := trace + [now];
    }

    method Rename(from: Path, to: Path) returns (ok: bool)
      requires Valid()
      modifies this
      ensures Valid() && trace == old(trace) + [now]
      ensures ok ==> from in old(now).names && now == old(now).RenameStep(from, to)
      ensures !ok ==> now == old(now)
      ensures faults == if ok || from !in old(now).names then old(faults) else old(faults).AndFailed()
    {
      ok := *;
      if ok && from in now.names {
        now := now.RenameStep(from, to);
      } else {
        ok := false;
        faults := if from in now.names then faults.AndFailed() else faults;
      }
      trace := trace + [now];
    }

    /** Reading a whole file. That there is none is no failure of the call. */
    method ReadFile(p: Path) returns (r: Option<Bytes>)
      requires Valid()
      modifies this`faults
      ensures r.Some? ==> r == now.Contents(p)
      ensures faults == if r == now.Contents(p) then old(faults) else old(faults).AndFailed()
    {
      r := None;
      if * {
        r := now.Contents(p);
      }
      if r != now.Contents(p) {
        faults := faults.AndFailed();
      }
    }

    /** Giving a new file the replaced file's mode. */
    method KeepMode() returns (ok: bool)
      modifies this`faults
      ensures faults == if ok then old(faults) else old(faults).AndFailed()
    {
      ok := *;
      if !ok {
        faults := faults.AndFailed();
      }
    }

    /** Best effort: the callers ignore a failure, and that the name is already gone is none. */
    method Remove(p: Path)
      requires Valid()
      modifies this
      ensures Valid() && trace == old(trace) + [now]
      ensures (p in old(now).names && now == old(now).RemoveStep(p) && faults == old(faults)) ||
              (p in old(now).names && now == old(now) && faults == old(faults).AndUnremoved()) ||
              (p !in old(now).names && now == old(now) && faults == old(faults))
    {
      if p in now.names {
        if * {
          now := now.RemoveStep(p);
        } else {
          faults := faults.AndUnremoved();
        }
      }
      trace := trace + [now];
    }

    /** Best effort as well. */
    method SyncParent(dir: string)
      requires Valid()
      modifies this
      ensures Valid() && trace == old(trace) + [now]
      ensures (now == old(now).SyncDirStep(dir) && faults == old(faults)) ||
              (now == old(now) && faults == old(faults).AndUnsynced())
    {
      if * {
        now := now.SyncDirStep(dir);
      } else {
        faults := faults.AndUnsynced();
      }
      trace := trace + [now];
    }

    /** The write-all loop. `n` bytes were written when it stops. */
    method WriteAll(i: nat, bytes: Bytes) returns (ok: bool, n: nat)
      requires Valid() && i < |now.inodes|
      modifies this
      ensures Valid() && old(trace) <= trace && OnlyInode(old(now), now, i)
      ensures forall k :: |old(trace)| <= k < |trace| ==> trace[k].Valid() && OnlyInode(old(now), trace[k], i)
      ensures n <= |bytes| && (ok ==> n == |bytes|)
      ensures now.inodes[i].content == old(now).inodes[i].content + bytes[..n]
      ensures faults == if ok then old(faults) else old(faults).AndFailed()
      ensures bytes == [] ==> ok && now == old(now) && trace == old(trace)
    {
      n := 0;
      ok := true;
      while n < |bytes|
        invariant Valid() && old(trace) <= trace && OnlyInode(old(now), now, i) && n <= |bytes|
        invariant forall k :: |old(trace)| <= k < |trace| ==> trace[k].Valid() && OnlyInode(old(now), trace[k], i)
        invariant now.inodes[i].content == old(now).inodes[i].content + bytes[..n]
        invariant faults == old(faults) && (n == 0 ==> now == old(now) && trace == old(trace))
        decreases |bytes| - n
      {
        var r := Append(i, bytes[n..]);
        if r.None? {
          return false, n;
        }
        assert bytes[..n] + bytes[n..][..r.value] == bytes[..n + r.value];
        n := n + r.value;
      }
    }
  }

  /** Two stretches of a session's trace, one after the other. */
  lemma TraceJoin(was: Fs, states: seq<Fs>, from: nat, mid: nat, temp: Path, target: Path, i: nat, bytes: Bytes)
    requires from <= mid <= |states|
    requires AllApartOrPublished(was, states[..mid], from, temp, target, i, bytes)
    requires AllApartOrPublished(was, states, mid, temp, target, i, bytes)
    ensures AllApartOrPublished(was, states, from, temp, target, i, bytes)
  {
    assert forall k :: from <= k < mid ==> states[k] == states[..mid][k];
  }

  lemma ApartTrace(was: Fs, states: seq<Fs>, from: nat, temp: Path, target: Path, i: nat, bytes: Bytes)
    requires AllApart(was, states, from, temp, i)
    ensures AllApartOrPublished(was, states, from, temp, target, i, bytes)
  {
  }

  lemma OneStateTrace(was: Fs, states: seq<Fs>, temp: Path, target: Path, i: nat, bytes: Bytes)
    requires states != [] && ApartOrPublished(was, states[|states| - 1], temp, target, i, bytes)
    ensures AllApartOrPublished(was, states, |states| - 1, temp, target, i, bytes)
  {
  }

  // ----- The one-shot replace -----

  /** The temp name of the one-shot replace: derived from the target's own file name where that is UTF-8. */
  function AtomicTemp(target: Path, pid: nat): Path
  {
    Path(target.dir, "." + (if IsUtf8(target.base) then target.base else "out") + ".jqf-tmp-" + Digits(pid))
  }

  /** It can never be the target itself: it is longer than a UTF-8 name, and UTF-8 where the name is not. */
  lemma AtomicTempDiffers(target: Path, pid: nat)
    ensures AtomicTemp(target, pid) != target && AtomicTemp(target, pid).dir == target.dir
  {
    var temp := AtomicTemp(target, pid);
    if IsUtf8(target.base) {
      assert |temp.base| > |target.base|;
    } else {
      DigitsDenote(pid);
      var end := Digits(pid);
      assert temp.base == ".out.jqf-tmp-" + end;
      assert forall k :: 0 <= k < |end| ==> IsDigit(end[k]);
      AsciiIsUtf8(temp.base);
    }
  }

  /** No two replacements that run at one time share a temp file: it lies beside its target, and its name gives the
      target's name and the process. */
  lemma AtomicTempsApart(a: Path, b: Path, pid: nat, other: nat)
    requires IsUtf8(a.base) && IsUtf8(b.base) && AtomicTemp(a, pid) == AtomicTemp(b, other)
    ensures a == b && pid == other
  {
    hide IsUtf8;
    var x, y := Digits(pid), Digits(other);
    var left, right := "." + a.base + ".jqf-tmp-", "." + b.base + ".jqf-tmp-";
    DigitsDenote(pid);
    DigitsDenote(other);
    NoDash(x);
    NoDash(y);
    assert left + x == AtomicTemp(a, pid).base == right + y;
    LastDash(left, x, right, y);
    assert left[1..|a.base| + 1] == a.base && right[1..|b.base| + 1] == b.base;
  }

  lemma NoDash(digits: Bytes)
    requires AllDigits(digits)
    ensures '-' !in digits
  {
  }

  /** What follows the last dash of a name, and what comes before. */
  lemma LastDash(a: string, x: string, b: string, y: string)
    requires a + x == b + y && a != [] && b != [] && a[|a| - 1] == '-' == b[|b| - 1] && '-' !in x && '-' !in y
    ensures a == b && x == y
  {
    NotLonger(a, x, b);
    NotLonger(b, y, a);
    Seam(a, x);
    Seam(b, y);
  }

  lemma NotLonger(a: string, x: string, b: string)
    requires b <= a + x && b != [] && b[|b| - 1] == '-' && '-' !in x
    ensures |b| <= |a|
  {
    assert forall k :: |a| <= k < |a + x| ==> (a + x)[k] in x;
    assert (a + x)[|b| - 1] == '-';
  }

  /** Every crash from here on shows the new bytes, unless the directory sync failed. */
  ghost predicate DurableOr(now: Fs, target: Path, bytes: Bytes, before: Faults, faults: Faults)
  {
    faults.unsynced > before.unsynced || now.ShowsOnly(target, {Some(bytes)})
  }

  lemma OnlyTargetIsDurable(now: Fs, target: Path, i: nat, bytes: Bytes, before: Faults, faults: Faults)
    requires i < |now.inodes| && now.inodes[i] == Inode(bytes, true)
    requires now.MayBe(target) == {Some(i)} || faults.unsynced > before.unsynced
    ensures DurableOr(now, target, bytes, before, faults)
  {
  }

  lemma DurableSince(now: Fs, target: Path, bytes: Bytes, first: Faults, before: Faults, faults: Faults)
    requires first.UpTo(before) && DurableOr(now, target, bytes, before, faults)
    ensures DurableOr(now, target, bytes, first, faults)
  {
  }

  /** What a replace leaves behind of names that are no links of the temp file's inode `i`. */
  ghost predicate Outcome(was: Fs, now: Fs, temp: Path, target: Path, i: nat, bytes: Bytes, ok: bool)
  {
    (ok ==> now.Contents(target) == Some(bytes)) &&
    (Some(i) !in was.MayBe(target) ==>
       if ok then temp !in now.names else now.Contents(target) == was.Contents(target)) &&
    forall p :: p != temp && p != target && Some(i) !in was.MayBe(p) ==> now.Contents(p) == was.Contents(p)
  }

  lemma SessionOutcome(was: Fs, now: Fs, temp: Path, target: Path, i: nat, bytes: Bytes, ok: bool)
    requires was.Valid() && temp != target
    requires if ok then Replaced(was, now, temp, target, i, bytes) else Apart(was, now, temp, i)
    ensures Outcome(was, now, temp, target, i, bytes, ok)
  {
    assert was.Lookup(target) in was.MayBe(target);
    forall p | p != temp && Some(i) !in was.MayBe(p)
      ensures now.Contents(p) == if p == target && ok then Some(bytes) else was.Contents(p)
    {
      if ok && was.Lookup(target) != Some(i) {
        PublishedKeeps(was, now, temp, target, i, p, {}, bytes);
      } else {
        ApartKeeps(was, now, temp, i, p, {});
      }
    }
  }

  /** For every name that is no link of a stale temp file's inode: in every state no crash shows anything but the old
      contents, or, for the target, the complete new bytes. It gives up only when a call failed; a temp file stays only
      when its removal failed or when the target was a link of it. */
  method WriteAtomic(fs: FileSystem, target: Path, pid: nat, bytes: Bytes, keepMode: bool) returns (ok: bool)
    requires fs.Valid()
    modifies fs
    ensures fs.Valid() && old(fs.trace) <= fs.trace && old(fs.faults).UpTo(fs.faults)
    ensures var temp, i := AtomicTemp(target, pid), TempInode(old(fs.now), AtomicTemp(target, pid));
            AllCrashSafe(old(fs.now), fs.trace, |old(fs.trace)|, temp, target, i, bytes) &&
            Outcome(old(fs.now), fs.now, temp, target, i, bytes, ok) &&
            (ok ==> DurableOr(fs.now, target, bytes, old(fs.faults), fs.faults)) &&
            (!ok ==> fs.faults.failed > old(fs.faults).failed) &&
            (!ok && temp in fs.now.names ==> fs.faults.unremoved > old(fs.faults).unremoved)
  {
    hide AllCrashSafe, Apart, Published, AllApartOrPublished, Outcome, Replaced, DurableOr;
    AtomicTempDiffers(target, pid);
    var temp := AtomicTemp(target, pid);
    ghost var was, from, i := fs.now, |fs.trace|, TempInode(fs.now, temp);
    ok := ReplaceSteps(fs, temp, target, bytes, keepMode, was, i);
    SessionCrashSafe(was, fs.trace, from, temp, target, i, bytes);
    SessionOutcome(was, fs.now, temp, target, i, bytes, ok);
  }

  /** The steps in order: create, keep the mode, write, sync, rename, sync the directory; a failure removes the temp. */
  method ReplaceSteps(fs: FileSystem, temp: Path, target: Path, bytes: Bytes, keepMode: bool, ghost was: Fs,
                      ghost i: nat)
    returns (ok: bool)
    requires fs.Valid() && fs.now == was && temp != target && i == TempInode(was, temp)
    modifies fs
    ensures fs.Valid() && old(fs.trace) <= fs.trace && old(fs.faults).UpTo(fs.faults)
    ensures AllApartOrPublished(was, fs.trace, |old(fs.trace)|, temp, target, i, bytes)
    ensures ok ==> Replaced(was, fs.now, temp, target, i, bytes)
    ensures ok ==> DurableOr(fs.now, target, bytes, old(fs.faults), fs.faults)
    ensures !ok ==> Apart(was, fs.now, temp, i) && fs.faults.failed > old(fs.faults).failed
    ensures !ok && temp in fs.now.names ==> fs.faults.unremoved > old(fs.faults).unremoved
  {
    hide Apart, Published, AllApart, AllApartOrPublished, Replaced, DurableOr;
    ghost var from := |fs.trace|;
    var file := OpenTemp(fs, temp, target, bytes, was, i);
    ok := file.Some?;
    if ok && keepMode {
      ok := fs.KeepMode();
    }
    if ok {
      ghost var before := fs.trace;
      ok := WriteAndSync(fs, file.value, bytes, was, temp);
      SessionJoin(was, before, fs.trace, from, temp, target, i, bytes);
    }
    if ok {
      ok := RenameAndSync(fs, temp, target, bytes, was, i, from);
    }
    if !ok {
      RemoveTemp(fs, temp, target, bytes, was, i, from);
    }
  }

  lemma SessionJoin(was: Fs, before: seq<Fs>, states: seq<Fs>, from: nat, temp: Path, target: Path, i: nat,
                    bytes: Bytes)
    requires from <= |before| && before <= states
    requires AllApartOrPublished(was, before, from, temp, target, i, bytes) && AllApart(was, states, |before|, temp, i)
    ensures AllApartOrPublished(was, states, from, temp, target, i, bytes)
  {
    ApartTrace(was, states, |before|, temp, target, i, bytes);
    assert states[..|before|] == before;
    TraceJoin(was, states, from, |before|, temp, target, i, bytes);
  }

  method OpenTemp(fs: FileSystem, temp: Path, target: Path, ghost bytes: Bytes, ghost was: Fs, ghost i: nat)
    returns (file: Option<nat>)
    requires fs.Valid() && fs.now == was && i == TempInode(was, temp)
    modifies fs
    ensures fs.Valid() && old(fs.trace) <= fs.trace && Apart(was, fs.now, temp, i)
    ensures AllApartOrPublished(was, fs.trace, |old(fs.trace)|, temp, target, i, bytes)
    ensures file.Some? ==> file.value == i && fs.now.Lookup(temp) == file
    ensures fs.faults == if file.Some? then old(fs.faults) else old(fs.faults).AndFailed()
    ensures file.Some? ==> i < |fs.now.inodes| && fs.now.inodes[i] == Inode([], false)
  {
    CreateApart(was, temp);
    ApartSame(was, temp, i);
    file := fs.Create(temp);
    OneStateTrace(was, fs.trace, temp, target, i, bytes);
  }

  method RemoveTemp(fs: FileSystem, temp: Path, target: Path, ghost bytes: Bytes, ghost was: Fs, ghost i: nat,
                    ghost from: nat)
    requires fs.Valid() && Apart(was, fs.now, temp, i) && from <= |fs.trace|
    requires AllApartOrPublished(was, fs.trace, from, temp, target, i, bytes)
    modifies fs
    ensures fs.Valid() && old(fs.trace) <= fs.trace && Apart(was, fs.now, temp, i)
    ensures AllApartOrPublished(was, fs.trace, from, temp, target, i, bytes)
    ensures old(fs.faults).UpTo(fs.faults)
    ensures temp in fs.now.names ==> fs.faults == old(fs.faults).AndUnremoved()
  {
    ghost var before := fs.trace;
    RemoveApart(was, fs.now, temp, i);
    fs.Remove(temp);
    assert fs.trace[..|before|] == before;
    OneStateTrace(was, fs.trace, temp, target, i, bytes);
    TraceJoin(was, fs.trace, from, |before|, temp, target, i, bytes);
  }

  method WriteAndSync(fs: FileSystem, file: nat, bytes: Bytes, ghost was: Fs, ghost temp: Path) returns (ok: bool)
    requires fs.Valid() && file < |fs.now.inodes| && fs.now.inodes[file].content == []
    requires Apart(was, fs.now, temp, file)
    modifies fs
    ensures fs.Valid() && old(fs.trace) <= fs.trace && OnlyInode(old(fs.now), fs.now, file)
    ensures AllApart(was, fs.trace, |old(fs.trace)|, temp, file) && Apart(was, fs.now, temp, file)
    ensures ok ==> fs.now.inodes[file] == Inode(bytes, true)
    ensures fs.faults == if ok then old(fs.faults) else old(fs.faults).AndFailed()
  {
    ghost var from, before := |fs.trace|, fs.now;
    var n;
    ok, n := fs.WriteAll(file, bytes);
    SessionGrew(was, before, fs.trace, from, temp, file);
    OnlyInodeApart(was, before, fs.now, temp, file);
    if ok {
      ghost var written := fs.now;
      ok := fs.Sync(file);
      OnlyInodeApart(was, written, fs.now, temp, file);
      assert bytes[..n] == bytes;
    }
  }

  lemma SessionGrew(was: Fs, before: Fs, states: seq<Fs>, from: nat, temp: Path, i: nat)
    requires Apart(was, before, temp, i)
    requires forall k :: from <= k < |states| ==> states[k].Valid() && OnlyInode(before, states[k], i)
    ensures AllApart(was, states, from, temp, i)
  {
    forall k | from <= k < |states|
      ensures states[k].Valid() && Apart(was, states[k], temp, i)
    {
      OnlyInodeApart(was, before, states[k], temp, i);
    }
  }

  /** A temp name that is not there, or not any more, makes the rename fail without any call being at fault. */
  method RenameAndSync(fs: FileSystem, temp: Path, target: Path, ghost bytes: Bytes, ghost was: Fs, ghost i: nat,
                       ghost from: nat)
    returns (ok: bool)
    requires fs.Valid() && Apart(was, fs.now, temp, i) && i < |fs.now.inodes|
    requires temp in fs.now.names ==> fs.now.names[temp] == i
    requires fs.now.inodes[i] == Inode(bytes, true)
    requires from <= |fs.trace| && AllApartOrPublished(was, fs.trace, from, temp, target, i, bytes)
    modifies fs
    ensures fs.Valid() && old(fs.trace) < fs.trace && old(fs.faults).UpTo(fs.faults)
    ensures AllApartOrPublished(was, fs.trace, from, temp, target, i, bytes)
    ensures ok ==> temp in old(fs.now).names && Replaced(was, fs.now, temp, target, i, bytes)
    ensures ok ==> DurableOr(fs.now, target, bytes, old(fs.faults), fs.faults)
    ensures ok ==> fs.faults.failed == old(fs.faults).failed && fs.faults.unremoved == old(fs.faults).unremoved
    ensures !ok ==> fs.now == old(fs.now) && fs.trace == old(fs.trace) + [fs.now]
    ensures !ok ==> fs.faults == if temp in old(fs.now).names then old(fs.faults).AndFailed() else old(fs.faults)
  {
    hide Apart, Published, AllApartOrPublished;
    ghost var before, faults, linked := fs.trace, fs.faults, fs.now;
    ok := fs.Rename(temp, target);
    if ok {
      RenameReplaces(was, linked, temp, target, i, bytes);
      ghost var renamed := fs.now;
      OneStateTrace(was, fs.trace, temp, target, i, bytes);
      TraceJoinAt(was, before, fs.trace, from, temp, target, i, bytes);
      ghost var mid := fs.trace;
      SyncDirPublished(was, renamed, temp, target, i, target.dir);
      fs.SyncParent(target.dir);
      OnlyTargetIsDurable(fs.now, target, i, bytes, faults, fs.faults);
      ReplacedSafe(was, fs.now, temp, target, i, bytes);
      OneStateTrace(was, fs.trace, temp, target, i, bytes);
      TraceJoinAt(was, mid, fs.trace, from, temp, target, i, bytes);
    } else {
      ApartSafe(was, fs.now, temp, target, i, bytes);
      OneStateTrace(was, fs.trace, temp, target, i, bytes);
      TraceJoinAt(was, before, fs.trace, from, temp, target, i, bytes);
    }
  }

  lemma TraceJoinAt(was: Fs, before: seq<Fs>, states: seq<Fs>, from: nat, temp: Path, target: Path, i: nat,
                    bytes: Bytes)
    requires from <= |before| && before <= states && |states| == |before| + 1
    requires AllApartOrPublished(was, before, from, temp, target, i, bytes)
    requires AllApartOrPublished(was, states, |before|, temp, target, i, bytes)
    ensures AllApartOrPublished(was, states, from, temp, target, i, bytes)
  {
    assert states[..|before|] == before;
    TraceJoin(was, states, from, |before|, temp, target, i, bytes);
  }

  lemma ApartSafe(was: Fs, now: Fs, temp: Path, target: Path, i: nat, bytes: Bytes)
    requires now.Valid() && Apart(was, now, temp, i)
    ensures ApartOrPublished(was, now, temp, target, i, bytes)
  {
  }

  lemma ReplacedSafe(was: Fs, now: Fs, temp: Path, target: Path, i: nat, bytes: Bytes)
    requires now.Valid() && Replaced(was, now, temp, target, i, bytes)
    ensures ApartOrPublished(was, now, temp, target, i, bytes)
  {
  }

  lemma RenameReplaces(was: Fs, linked: Fs, temp: Path, target: Path, i: nat, bytes: Bytes)
    requires linked.Valid() && Apart(was, linked, temp, i) && linked.Lookup(temp) == Some(i)
    requires i < |linked.inodes| && linked.inodes[i] == Inode(bytes, true)
    ensures var now := linked.RenameStep(temp, target);
            now.Valid() && Replaced(was, now, temp, target, i, bytes) &&
              ApartOrPublished(was, now, temp, target, i, bytes)
  {
    assert temp != target ==> linked.Lookup(target) == was.Lookup(target);
    if temp != target && was.Lookup(target) != Some(i) {
      RenamePublishes(was, linked, temp, target, i);
    }
  }
}
