/** The streaming destination: a buffered writer on a temp file, committed by a rename or dropped. */
module Writer {
  import opened Bytes
  import opened Decimal
  import opened FsModel
  import opened Output

  const CAPACITY: nat := 64 * 1024

  /** All writers of one process in one directory share this name. */
  function TempBase(pid: nat): string { ".jqf-tmp-" + Digits(pid) }

  function TempOf(target: Path, pid: nat): Path { Path(target.dir, TempBase(pid)) }

  /** Two writers meet on a temp name exactly when one process opened them in one directory. */
  lemma TempNames(a: Path, b: Path, pid: nat, other: nat)
    ensures TempOf(a, pid) == TempOf(b, other) <==> a.dir == b.dir && pid == other
    ensures TempBase(pid)[..9] == ".jqf-tmp-" && TempOf(a, pid).dir == a.dir
  {
    var x, y := Digits(pid), Digits(other);
    DigitsDenote(pid);
    DigitsDenote(other);
    assert (".jqf-tmp-" + x)[9..] == x && (".jqf-tmp-" + y)[9..] == y;
  }

  /** Only writes to inode `i` happened between the two states of the system. */
  ghost predicate Wrote(was: Fs, before: seq<Fs>, now: Fs, trace: seq<Fs>, i: nat)
  {
    before <= trace && OnlyInode(was, now, i) &&
    forall k :: |before| <= k < |trace| ==> trace[k].Valid() && OnlyInode(was, trace[k], i)
  }

  lemma WroteNothing(now: Fs, trace: seq<Fs>, i: nat)
    ensures Wrote(now, trace, now, trace, i)
  {
  }

  lemma WroteThen(was: Fs, before: seq<Fs>, mid: Fs, between: seq<Fs>, now: Fs, trace: seq<Fs>, i: nat)
    requires Wrote(was, before, mid, between, i) && Wrote(mid, between, now, trace, i)
    ensures Wrote(was, before, now, trace, i)
  {
    forall k | |before| <= k < |trace|
      ensures trace[k].Valid() && OnlyInode(was, trace[k], i)
    {
      if k < |between| {
        assert trace[k] == between[k];
      } else {
        assert OnlyInode(mid, trace[k], i);
      }
    }
  }

  lemma WroteApart(was: Fs, before: seq<Fs>, now: Fs, trace: seq<Fs>, temp: Path, i: nat)
    requires Wrote(was, before, now, trace, i)
    ensures Apart(was, now, temp, i) && AllApart(was, trace, |before|, temp, i)
  {
    ApartSame(was, temp, i);
    OnlyInodeApart(was, was, now, temp, i);
    SessionGrew(was, was, trace, |before|, temp, i);
  }

  /** No name changed, but that this one may be gone. */
  ghost predicate Unlinked(was: Fs, now: Fs, temp: Path)
  {
    now.names == was.names || now.names == was.names - {temp}
  }

  class CliWriter {
    const fs: FileSystem
    const target: Path
    const file: nat
    /** The temp file to rename over the target; cleared once the rename consumed it. */
    var temp: Option<Path>
    var buffer: Bytes
    /** Every byte the writer has taken. */
    ghost var accepted: Bytes

    /** Not yet committed or dropped: file and buffer together hold what was accepted, and the temp name leads to the
        file or is gone. */
    ghost predicate Live()
      reads this, fs
    {
      fs.Valid() && temp.Some? && file < |fs.now.inodes| &&
      (temp.value in fs.now.names ==> fs.now.names[temp.value] == file) &&
      fs.now.inodes[file].content + buffer == accepted
    }

    /** The writer owns its temp name. */
    ghost predicate Linked()
      reads this, fs
    {
      temp.Some? && fs.now.Lookup(temp.value) == Some(file)
    }

    constructor (fs: FileSystem, target: Path, temp: Path, file: nat)
      requires fs.Valid() && fs.now.Lookup(temp) == Some(file)
      requires file < |fs.now.inodes| && fs.now.inodes[file].content == []
      ensures Live() && Linked() && accepted == [] && buffer == [] && this.temp == Some(temp)
      ensures this.fs == fs && this.target == target && this.file == file
    {
      this.fs := fs;
      this.target := target;
      this.file := file;
      this.temp := Some(temp);
      this.buffer := [];
      this.accepted := [];
    }

    /** Writes the buffer out; what a failure leaves unwritten stays buffered. */
    method FlushBuffer() returns (ok: bool)
      requires Live()
      modifies this`buffer, fs
      ensures Live() && Wrote(old(fs.now), old(fs.trace), fs.now, fs.trace, file) && (ok ==> buffer == [])
      ensures fs.faults == if ok then old(fs.faults) else old(fs.faults).AndFailed()
    {
      ghost var was := fs.now;
      var n;
      ok, n := fs.WriteAll(file, buffer);
      assert buffer[..n] + buffer[n..] == buffer;
      assert was.inodes[file].content + buffer[..n] + buffer[n..] == was.inodes[file].content + buffer;
      buffer := buffer[n..];
    }

    /** One buffered write: flush when the bytes do not fit, then buffer them, or write large ones straight through. */
    method Write(bytes: Bytes) returns (r: Option<nat>)
      requires Live()
      modifies this`buffer, this`accepted, fs
      ensures Live() && Wrote(old(fs.now), old(fs.trace), fs.now, fs.trace, file)
      ensures fs.faults == if r.Some? then old(fs.faults) else old(fs.faults).AndFailed()
      ensures r.None? ==> accepted == old(accepted)
      ensures r.Some? ==> r.value <= |bytes| && accepted == old(accepted) + bytes[..r.value]
      ensures r.Some? && bytes != [] ==> r.value > 0
      ensures |bytes| < 0x1_0000 && |old(buffer)| + |bytes| <= 0x1_0000 ==>
                fs.trace == old(fs.trace) && r == Some(|bytes|) && buffer == old(buffer) + bytes
      ensures r.Some? ==> if |bytes| >= 0x1_0000 then buffer == [] else |buffer| <= 0x1_0000
    {
      hide Wrote;
      WroteNothing(fs.now, fs.trace, file);
      if |buffer| + |bytes| > CAPACITY {
        var flushed := FlushBuffer();
        if !flushed {
          return None;
        }
      }
      if |bytes| >= CAPACITY {
        ghost var mid, between := fs.now, fs.trace;
        r := WriteThrough(bytes);
        WroteThen(old(fs.now), old(fs.trace), mid, between, fs.now, fs.trace, file);
        return r;
      }
      Assoc(fs.now.inodes[file].content, buffer, bytes);
      buffer := buffer + bytes;
      accepted := accepted + bytes;
      assert bytes[..|bytes|] == bytes;
      return Some(|bytes|);
    }

    /** Large bytes go past the empty buffer. */
    method WriteThrough(bytes: Bytes) returns (r: Option<nat>)
      requires Live() && buffer == []
      modifies this`accepted, fs
      ensures Live() && Wrote(old(fs.now), old(fs.trace), fs.now, fs.trace, file)
      ensures fs.faults == if r.Some? then old(fs.faults) else old(fs.faults).AndFailed()
      ensures r.None? ==> accepted == old(accepted)
      ensures r.Some? ==> r.value <= |bytes| && accepted == old(accepted) + bytes[..r.value]
      ensures r.Some? && bytes != [] ==> r.value > 0
    {
      ghost var content := fs.now.inodes[file].content;
      r := fs.Append(file, bytes);
      assert content + [] == content && fs.now.inodes[file].content + [] == fs.now.inodes[file].content;
      if r.Some? {
        accepted := accepted + bytes[..r.value];
      }
    }

    /** The write-all loop the drive uses. */
    method WriteFully(bytes: Bytes) returns (ok: bool)
      requires Live()
      modifies this`buffer, this`accepted, fs
      ensures Live() && Wrote(old(fs.now), old(fs.trace), fs.now, fs.trace, file)
      ensures fs.faults == if ok then old(fs.faults) else old(fs.faults).AndFailed()
      ensures ok ==> accepted == old(accepted) + bytes
    {
      hide Wrote;
      ghost var was, before := fs.now, fs.trace;
      WroteNothing(was, before, file);
      var n := 0;
      while n < |bytes|
        invariant Live() && Wrote(was, before, fs.now, fs.trace, file) && fs.faults == old(fs.faults) && n <= |bytes|
        invariant accepted == old(accepted) + bytes[..n]
        decreases |bytes| - n
      {
        ghost var mid, between := fs.now, fs.trace;
        var r := Write(bytes[n..]);
        WroteThen(was, before, mid, between, fs.now, fs.trace, file);
        if r.None? {
          return false;
        }
        assert bytes[..n] + bytes[n..][..r.value] == bytes[..n + r.value];
        n := n + r.value;
      }
      assert bytes[..n] == bytes;
      return true;
    }

    /** Gives the writer up: its temp name is removed, whatever it leads to by now, and then the buffer's last flush
        goes to the writer's own inode. */
    method Drop()
      requires fs.Valid() && temp.Some? && file < |fs.now.inodes|
      modifies this`buffer, fs
      ensures fs.Valid() && old(fs.trace) < fs.trace && old(fs.faults).UpTo(fs.faults)
      ensures Apart(old(fs.now), fs.now, temp.value, file)
      ensures AllApart(old(fs.now), fs.trace, |old(fs.trace)|, temp.value, file)
      ensures Unlinked(old(fs.now), fs.now, temp.value)
      ensures temp.value in fs.now.names <==>
              temp.value in old(fs.now).names && fs.faults.unremoved > old(fs.faults).unremoved
      ensures old(buffer) == [] ==> fs.faults.failed == old(fs.faults).failed
      ensures old(buffer) == [] ==> fs.now == old(fs.now) || fs.now == old(fs.now).RemoveStep(temp.value)
    {
      ghost var start, t := fs.now, temp.value;
      ghost var from := |fs.trace|;
      ApartSame(start, t, file);
      RemoveApart(start, start, t, file);
      fs.Remove(temp.value);
      ghost var was, trace := fs.now, fs.trace;
      var ok, n := fs.WriteAll(file, buffer);
      buffer := buffer[n..];
      SessionGrew(start, was, fs.trace, |trace|, t, file);
      OnlyInodeApart(start, was, fs.now, t, file);
      assert forall k :: from <= k < |trace| ==> fs.trace[k] == trace[k];
    }

    /** Flush, sync, rename, sync the directory; a failure before the rename drops the writer. */
    method Commit() returns (ok: bool)
      requires Live()
      modifies this, fs
      ensures fs.Valid() && old(fs.trace) < fs.trace && old(fs.faults).UpTo(fs.faults) && accepted == old(accepted)
      ensures AllApartOrPublished(old(fs.now), fs.trace, |old(fs.trace)|, old(temp).value, target, file, accepted)
      ensures ok ==> old(Linked()) && temp == None
      ensures ok ==> Replaced(old(fs.now), fs.now, old(temp).value, target, file, accepted)
      ensures ok ==> DurableOr(fs.now, target, accepted, old(fs.faults), fs.faults)
      ensures ok ==> fs.faults.failed == old(fs.faults).failed && fs.faults.unremoved == old(fs.faults).unremoved
      ensures !ok ==> Apart(old(fs.now), fs.now, old(temp).value, file)
      ensures !ok ==> fs.faults.failed > old(fs.faults).failed || !old(Linked())
      ensures !ok ==> Unlinked(old(fs.now), fs.now, old(temp).value)
      ensures !ok && old(temp).value in fs.now.names ==> fs.faults.unremoved > old(fs.faults).unremoved
    {
      hide Apart, Published, AllApart, AllApartOrPublished, Replaced, DurableOr;
      ghost var t, start, from := temp.value, fs.now, |fs.trace|;
      ok := FlushAndSync();
      WroteApart(start, old(fs.trace), fs.now, fs.trace, t, file);
      ApartTrace(start, fs.trace, from, t, target, file, accepted);
      if ok {
        ok := RenameAndSync(fs, temp.value, target, accepted, start, file, from);
        if ok {
          temp := None;
          return;
        }
      }
      ghost var mid, between := fs.now, fs.trace;
      Drop();
      ApartTrace(mid, fs.trace, |between|, t, target, file, accepted);
      SessionThen(start, mid, between, fs.now, fs.trace, from, t, target, file, accepted);
    }

    method FlushAndSync() returns (ok: bool)
      requires Live()
      modifies this`buffer, fs
      ensures Live() && Wrote(old(fs.now), old(fs.trace), fs.now, fs.trace, file)
      ensures fs.faults == if ok then old(fs.faults) else old(fs.faults).AndFailed()
      ensures ok ==> fs.now.inodes[file] == Inode(accepted, true)
    {
      ok := FlushBuffer();
      if ok {
        ok := fs.Sync(file);
        assert fs.now.inodes[file].content + [] == fs.now.inodes[file].content;
      }
    }
  }

  /** A session that follows another on the same temp file, seen from before both. */
  lemma SessionThen(was: Fs, mid: Fs, between: seq<Fs>, now: Fs, trace: seq<Fs>, from: nat, temp: Path, target: Path,
                    i: nat, bytes: Bytes)
    requires Apart(was, mid, temp, i) && from <= |between| && between <= trace
    requires AllApartOrPublished(was, between, from, temp, target, i, bytes)
    requires AllApartOrPublished(mid, trace, |between|, temp, target, i, bytes)
    ensures AllApartOrPublished(was, trace, from, temp, target, i, bytes)
    ensures Replaced(mid, now, temp, target, i, bytes) ==> Replaced(was, now, temp, target, i, bytes)
    ensures Apart(mid, now, temp, i) ==> Apart(was, now, temp, i)
  {
    forall k | from <= k < |trace|
      ensures ApartOrPublished(was, trace[k], temp, target, i, bytes)
    {
      if k < |between| {
        assert trace[k] == between[k];
      } else {
        assert ApartOrPublished(mid, trace[k], temp, target, i, bytes);
      }
    }
  }
}
