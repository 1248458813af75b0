/** One run per destination: open, publish, commit or drop; and the loop that edits a list of files in place. */
module InPlace {
  import opened Bytes
  import opened FsModel
  import opened Output
  import opened Writer
  import opened Ordinary

  /** Opens the destination's temp file; a failure on the way removes it again. */
  method OpenWriter(fs: FileSystem, target: Path, pid: nat, keepMode: bool) returns (w: Option<CliWriter>)
    requires fs.Valid()
    modifies fs
    ensures fs.Valid() && old(fs.trace) < fs.trace && old(fs.faults).UpTo(fs.faults)
    ensures var temp, i := TempOf(target, pid), TempInode(old(fs.now), TempOf(target, pid));
            AllApart(old(fs.now), fs.trace, |old(fs.trace)|, temp, i) && Apart(old(fs.now), fs.now, temp, i) &&
            (temp in fs.now.names ==> fs.now.names[temp] == i) &&
            (w.None? ==> fs.faults.failed > old(fs.faults).failed) &&
            (w.None? && temp in fs.now.names ==>
               temp in old(fs.now).names || fs.faults.unremoved > old(fs.faults).unremoved) &&
            (w.Some? ==>
               fresh(w.value) && w.value.Live() && w.value.Linked() && w.value.fs == fs && w.value.target == target &&
               w.value.accepted == [] && w.value.buffer == [] && w.value.temp == Some(temp) && w.value.file == i &&
               fs.faults == old(fs.faults))
  {
    hide Apart, AllApart;
    var temp := TempOf(target, pid);
    ghost var was, before, i := fs.now, fs.trace, TempInode(fs.now, temp);
    CreateApart(was, temp);
    ApartSame(was, temp, i);
    var file := fs.Create(temp);
    NoneApart(was, before, temp, i);
    ApartLast(was, before, before, fs.trace, fs.now, temp, i);
    if file.None? {
      return None;
    }
    if keepMode {
      var kept := fs.KeepMode();
      if !kept {
        ghost var between := fs.trace;
        RemoveApart(was, fs.now, temp, i);
        fs.Remove(temp);
        ApartLast(was, before, between, fs.trace, fs.now, temp, i);
        return None;
      }
    }
    var writer := new CliWriter(fs, target, temp, file.value);
    return Some(writer);
  }

  lemma NoneApart(was: Fs, before: seq<Fs>, temp: Path, i: nat)
    ensures AllApart(was, before, |before|, temp, i)
  {
  }

  lemma ApartLast(was: Fs, before: seq<Fs>, between: seq<Fs>, trace: seq<Fs>, now: Fs, temp: Path, i: nat)
    requires before <= between && trace == between + [now] && AllApart(was, between, |before|, temp, i)
    requires now.Valid() && Apart(was, now, temp, i)
    ensures AllApart(was, trace, |before|, temp, i)
  {
  }

  /** What one run publishes, and whether it succeeds. */
  datatype Run = Run(chunks: seq<Bytes>, ok: bool)

  /** The chunks go to the writer one by one, until a write fails. */
  method WriteChunks(w: CliWriter, chunks: seq<Bytes>) returns (ok: bool)
    requires w.Live()
    modifies w`buffer, w`accepted, w.fs
    ensures w.Live() && Wrote(old(w.fs.now), old(w.fs.trace), w.fs.now, w.fs.trace, w.file)
    ensures w.fs.faults == if ok then old(w.fs.faults) else old(w.fs.faults).AndFailed()
    ensures ok ==> w.accepted == old(w.accepted) + Flatten(chunks)
  {
    hide Wrote;
    ghost var was, before, accepted := w.fs.now, w.fs.trace, w.accepted;
    WroteNothing(was, before, w.file);
    var k := 0;
    while k < |chunks|
      invariant k <= |chunks| && w.Live() && Wrote(was, before, w.fs.now, w.fs.trace, w.file)
      invariant w.fs.faults == old(w.fs.faults) && w.accepted == accepted + Flatten(chunks[..k])
    {
      FlattenAppend(chunks[..k], chunks[k]);
      Assoc(accepted, Flatten(chunks[..k]), chunks[k]);
      assert chunks[..k + 1] == chunks[..k] + [chunks[k]];
      ghost var mid, between := w.fs.now, w.fs.trace;
      ok := w.WriteFully(chunks[k]);
      WroteThen(was, before, mid, between, w.fs.now, w.fs.trace, w.file);
      if !ok {
        return;
      }
      k := k + 1;
    }
    assert chunks[..k] == chunks;
    return true;
  }

  /** The life of an open writer: every chunk is published, and then it is committed, or dropped at
      the first failure. */
  method Publish(w: CliWriter, run: Run) returns (ok: bool)
    requires w.Live() && w.Linked() && w.accepted == []
    modifies w, w.fs
    ensures w.fs.Valid() && old(w.fs.trace) <= w.fs.trace && old(w.fs.faults).UpTo(w.fs.faults)
    ensures AllApartOrPublished(old(w.fs.now), w.fs.trace, |old(w.fs.trace)|, old(w.temp).value, w.target, w.file,
                                Flatten(run.chunks))
    ensures ok ==> run.ok && Replaced(old(w.fs.now), w.fs.now, old(w.temp).value, w.target, w.file, Flatten(run.chunks))
    ensures ok ==> DurableOr(w.fs.now, w.target, Flatten(run.chunks), old(w.fs.faults), w.fs.faults)
    ensures ok ==> w.fs.faults.unremoved == old(w.fs.faults).unremoved
    ensures !ok ==> Apart(old(w.fs.now), w.fs.now, old(w.temp).value, w.file)
    ensures !ok && run.ok ==> w.fs.faults.failed > old(w.fs.faults).failed
    ensures !ok && old(w.temp).value in w.fs.now.names ==>
              w.fs.now.names[old(w.temp).value] == w.file && w.fs.faults.unremoved > old(w.fs.faults).unremoved
  {
    hide Apart, Published, AllApart, AllApartOrPublished, Replaced, DurableOr, Wrote;
    ghost var was, before, bytes, temp := w.fs.now, w.fs.trace, Flatten(run.chunks), w.temp.value;
    ok := WriteChunks(w, run.chunks);
    ghost var mid, between := w.fs.now, w.fs.trace;
    WroteSession(was, before, mid, between, temp, w.target, w.file, bytes);
    if ok && run.ok {
      assert [] + bytes == bytes;
      ok := w.Commit();
      SessionThen(was, mid, between, w.fs.now, w.fs.trace, |before|, temp, w.target, w.file, bytes);
    } else {
      ok := false;
      w.Drop();
      ApartTrace(mid, w.fs.trace, |between|, temp, w.target, w.file, bytes);
      SessionThen(was, mid, between, w.fs.now, w.fs.trace, |before|, temp, w.target, w.file, bytes);
    }
  }

  lemma WroteSession(was: Fs, before: seq<Fs>, mid: Fs, between: seq<Fs>, temp: Path, target: Path, i: nat,
                     bytes: Bytes)
    requires Wrote(was, before, mid, between, i)
    ensures before <= between && mid.names == was.names && Apart(was, mid, temp, i)
    ensures AllApartOrPublished(was, between, |before|, temp, target, i, bytes)
  {
    WroteApart(was, before, mid, between, temp, i);
    ApartTrace(was, between, |before|, temp, target, i, bytes);
  }

  /** One run: open the destination, publish every chunk, commit when all went well, drop otherwise. `begin` is the
      state in which ordinary names are told apart from links of stale temp files. */
  method RunOne(fs: FileSystem, target: Path, pid: nat, keepMode: bool, run: Run, ghost begin: Fs) returns (ok: bool)
    requires fs.Valid() && StayClear(begin, TempBase(pid), fs.now)
    modifies fs
    ensures fs.Valid() && old(fs.faults).UpTo(fs.faults) && StayClear(begin, TempBase(pid), fs.now)
    ensures Stretch(begin, TempBase(pid), old(fs.now), old(fs.trace), fs.now, fs.trace,
                    One(target, Flatten(run.chunks)))
    ensures forall p: Path :: Clear(begin, TempBase(pid), p) ==>
              fs.now.Contents(p) == if ok && p == target then Some(Flatten(run.chunks)) else old(fs.now).Contents(p)
    ensures ok ==> run.ok && fs.now.Contents(target) == Some(Flatten(run.chunks))
    ensures ok ==> DurableOr(fs.now, target, Flatten(run.chunks), old(fs.faults), fs.faults)
    ensures ok && Clear(begin, TempBase(pid), target) ==> TempOf(target, pid) !in fs.now.names
    ensures !ok && run.ok ==> fs.faults.failed > old(fs.faults).failed
    ensures !ok ==> Shows(begin, TempBase(pid), old(fs.now), fs.now, Nothing())
    ensures fs.faults.unremoved == old(fs.faults).unremoved ==>
              NoNewTemps(old(fs.now), fs.now, TempBase(pid), {target})
  {
    hide Apart, Published, AllApart, AllApartOrPublished, Replaced, Stretch, DurableOr, StayClear, Hidden, NoNewTemps,
         Clear, SameContents, Shows;
    ghost var temp, was, before := TempOf(target, pid), fs.now, fs.trace;
    ghost var i, bytes := TempInode(was, temp), Flatten(run.chunks);
    TempHidden(begin, was, temp);
    var w := OpenWriter(fs, target, pid, keepMode);
    ApartTrace(was, fs.trace, |before|, temp, target, i, bytes);
    ok := false;
    if w.Some? {
      ghost var mid, between := fs.now, fs.trace;
      ok := Publish(w.value, run);
      SessionThen(was, mid, between, fs.now, fs.trace, |before|, temp, target, i, bytes);
    }
    RunStretch(begin, was, before, fs.now, fs.trace, temp, target, i, bytes);
    if ok {
      ReplacedContents(was, fs.now, temp, target, i, bytes);
      ReplacedOrdinary(begin, was, fs.now, temp, target, bytes);
      ReplacedTemps(was, fs.now, temp, target, bytes);
    } else {
      ApartOrdinary(begin, was, fs.now, temp, i);
      ApartShows(begin, was, fs.now, temp, i);
      if fs.faults.unremoved == old(fs.faults).unremoved {
        ApartTemps(was, fs.now, temp, i);
      }
    }
  }

  lemma ReplacedContents(was: Fs, now: Fs, temp: Path, target: Path, i: nat, bytes: Bytes)
    requires Replaced(was, now, temp, target, i, bytes)
    ensures now.Contents(target) == Some(bytes) && (temp in now.names ==> now.names[temp] == i)
  {
  }

  // ----- Editing a list of files in place -----

  /** What a name holds after `done` runs, each on what its file then holds and written back to it. */
  function Held(start: Fs, files: seq<Path>, run: (nat, Bytes) -> Run, done: nat, p: Path): Option<Bytes>
    requires done <= |files|
    decreases done, 0
  {
    if done == 0 then start.Contents(p)
    else if files[done - 1] == p then OutputOf(start, files, run, done - 1)
    else Held(start, files, run, done - 1, p)
  }

  /** What run `k` publishes. */
  function OutputOf(start: Fs, files: seq<Path>, run: (nat, Bytes) -> Run, k: nat): Option<Bytes>
    requires k < |files|
    decreases k, 1
  {
    match Held(start, files, run, k, files[k])
    case None => None
    case Some(bytes) => Some(Flatten(run(k, bytes).chunks))
  }

  /** The run finds its file and succeeds on it. */
  predicate Succeeds(start: Fs, files: seq<Path>, run: (nat, Bytes) -> Run, k: nat)
    requires k < |files|
  {
    match Held(start, files, run, k, files[k])
    case None => false
    case Some(bytes) => run(k, bytes).ok
  }

  predicate Distinct(files: seq<Path>) { forall i, k :: 0 <= i < k < |files| ==> files[i] != files[k] }

  /** A file listed once is run on its own original bytes, and then holds the output of that. */
  lemma {:induction false} OwnBytes(start: Fs, files: seq<Path>, run: (nat, Bytes) -> Run, done: nat, k: nat)
    requires done <= |files| && k < |files| && Distinct(files)
    ensures k >= done ==> Held(start, files, run, done, files[k]) == start.Contents(files[k])
    ensures k < done ==> Held(start, files, run, done, files[k]) == OutputOf(start, files, run, k)
    ensures OutputOf(start, files, run, k) == match start.Contents(files[k])
                                              case None => None
                                              case Some(bytes) => Some(Flatten(run(k, bytes).chunks))
    decreases done
  {
    HeldUnlisted(start, files, run, k, files[k]);
    if done > 0 {
      OwnBytes(start, files, run, done - 1, k);
    }
  }

  lemma {:induction false} HeldUnlisted(start: Fs, files: seq<Path>, run: (nat, Bytes) -> Run, done: nat, p: Path)
    requires done <= |files| && p !in files[..done]
    ensures Held(start, files, run, done, p) == start.Contents(p)
  {
    if done > 0 {
      assert files[done - 1] == files[..done][done - 1];
      assert forall q :: q in files[..done - 1] ==> q in files[..done];
      HeldUnlisted(start, files, run, done - 1, p);
    }
  }

  /** A name may be given the outputs of the runs on it. */
  function OwnOutputs(start: Fs, files: seq<Path>, run: (nat, Bytes) -> Run): Outputs
  {
    p => set k: nat | k < |files| && files[k] == p && OutputOf(start, files, run, k).Some? ::
      OutputOf(start, files, run, k)
  }

  /** `done` runs were successful, and every ordinary name holds what they make of it. */
  ghost predicate Progress(start: Fs, now: Fs, files: seq<Path>, done: nat, base: string, run: (nat, Bytes) -> Run)
    requires done <= |files|
  {
    (forall k :: 0 <= k < done && Clear(start, base, files[k]) ==> Succeeds(start, files, run, k)) &&
    forall p: Path :: Clear(start, base, p) ==> now.Contents(p) == Held(start, files, run, done, p)
  }

  lemma ProgressNext(start: Fs, was: Fs, now: Fs, files: seq<Path>, k: nat, base: string, run: (nat, Bytes) -> Run,
                     bytes: Bytes)
    requires k < |files| && Progress(start, was, files, k, base, run) && was.Contents(files[k]) == Some(bytes)
    requires run(k, bytes).ok
    requires forall p: Path :: Clear(start, base, p) ==>
               now.Contents(p) == if p == files[k] then Some(Flatten(run(k, bytes).chunks)) else was.Contents(p)
    ensures Progress(start, now, files, k + 1, base, run)
  {
    hide Clear, Held, OutputOf;
    ProgressRead(start, was, files, k, base, run);
    forall p: Path | Clear(start, base, p)
      ensures now.Contents(p) == Held(start, files, run, k + 1, p)
    {
      HeldNext(start, files, run, k, p);
    }
  }

  lemma HeldNext(start: Fs, files: seq<Path>, run: (nat, Bytes) -> Run, k: nat, p: Path)
    requires k < |files|
    ensures Held(start, files, run, k + 1, p) ==
            if files[k] == p then OutputOf(start, files, run, k) else Held(start, files, run, k, p)
  {
  }

  lemma ProgressSame(start: Fs, was: Fs, now: Fs, files: seq<Path>, k: nat, base: string, run: (nat, Bytes) -> Run)
    requires k <= |files| && Progress(start, was, files, k, base, run)
    requires forall p: Path :: Clear(start, base, p) ==> now.Contents(p) == was.Contents(p)
    ensures Progress(start, now, files, k, base, run)
  {
    hide Clear;
  }

  /** The edited files are durable, unless a directory sync failed. */
  ghost predicate AllDurable(start: Fs, now: Fs, files: seq<Path>, done: nat, base: string, run: (nat, Bytes) -> Run,
                             before: Faults, faults: Faults)
    requires done <= |files|
  {
    forall p: Path :: Clear(start, base, p) && p in files[..done] && Held(start, files, run, done, p).Some? ==>
      DurableOr(now, p, Held(start, files, run, done, p).value, before, faults)
  }

  /** A run that gives up keeps them durable. */
  lemma DurableKept(start: Fs, was: Fs, now: Fs, files: seq<Path>, done: nat, base: string, run: (nat, Bytes) -> Run,
                    first: Faults, before: Faults, faults: Faults)
    requires done <= |files| && AllDurable(start, was, files, done, base, run, first, before) && before.UpTo(faults)
    requires Shows(start, base, was, now, Nothing())
    ensures AllDurable(start, now, files, done, base, run, first, faults)
  {
    forall p: Path | Clear(start, base, p) && p in files[..done] && Held(start, files, run, done, p).Some?
      ensures DurableOr(now, p, Held(start, files, run, done, p).value, first, faults)
    {
      var out := Held(start, files, run, done, p);
      assert DurableOr(was, p, out.value, first, before);
      assert {out} + Nothing()(p) == {out};
    }
  }

  /** One that succeeds makes its file durable and keeps the others. */
  lemma DurableNext(start: Fs, was: Fs, now: Fs, files: seq<Path>, done: nat, base: string, run: (nat, Bytes) -> Run,
                    bytes: Bytes, first: Faults, before: Faults, faults: Faults)
    requires done < |files| && AllDurable(start, was, files, done, base, run, first, before) && before.UpTo(faults)
    requires first.UpTo(before) && Shows(start, base, was, now, One(files[done], bytes))
    requires DurableOr(now, files[done], bytes, before, faults)
    requires Clear(start, base, files[done]) ==> OutputOf(start, files, run, done) == Some(bytes)
    ensures AllDurable(start, now, files, done + 1, base, run, first, faults)
  {
    forall p: Path | Clear(start, base, p) && p in files[..done + 1] && Held(start, files, run, done + 1, p).Some?
      ensures DurableOr(now, p, Held(start, files, run, done + 1, p).value, first, faults)
    {
      if p == files[done] {
        DurableSince(now, p, bytes, first, before, faults);
      } else {
        var out := Held(start, files, run, done, p);
        assert p in files[..done];
        assert DurableOr(was, p, out.value, first, before);
        assert {out} + One(files[done], bytes)(p) == {out};
      }
    }
  }

  /** What the request has done when `done` files are edited. */
  ghost predicate Editing(start: Fs, before: seq<Fs>, now: Fs, trace: seq<Fs>, files: seq<Path>, done: nat,
                          base: string, run: (nat, Bytes) -> Run, first: Faults, faults: Faults)
    requires done <= |files|
  {
    first.UpTo(faults) && StayClear(start, base, now) && Progress(start, now, files, done, base, run) &&
    Stretch(start, base, start, before, now, trace, OwnOutputs(start, files, run)) &&
    AllDurable(start, now, files, done, base, run, first, faults) &&
    (faults.unremoved == first.unremoved ==> NoNewTemps(start, now, base, {}))
  }

  /** One run per listed file, on what the file then holds, written back to it; the first failure ends the request.
      `done` runs were successful. Ordinary names are those that share no inode with a temp file lying about at the
      start. */
  method EditInPlace(fs: FileSystem, files: seq<Path>, pid: nat, run: (nat, Bytes) -> Run) returns (done: nat, ok: bool)
    requires fs.Valid()
    modifies fs
    ensures fs.Valid() && done <= |files| && (ok <==> done == |files|)
    ensures Editing(old(fs.now), old(fs.trace), fs.now, fs.trace, files, done, TempBase(pid), run, old(fs.faults),
                    fs.faults)
    ensures !ok && fs.faults.failed == old(fs.faults).failed && Clear(old(fs.now), TempBase(pid), files[done]) ==>
              !Succeeds(old(fs.now), files, run, done)
  {
    hide StayClear, Clear, Stretch, Progress, NoNewTemps, AllDurable, DurableOr;
    ghost var start, before, base, first := fs.now, fs.trace, TempBase(pid), fs.faults;
    done, ok := 0, true;
    EditStart(start, before, files, base, run, first);
    while done < |files|
      invariant done <= |files| && ok && fs.Valid()
      invariant Editing(start, before, fs.now, fs.trace, files, done, base, run, first, fs.faults)
    {
      ok := EditOne(fs, files, done, pid, run, start, before, first);
      if !ok {
        return;
      }
      done := done + 1;
    }
  }

  /** One turn of the loop. */
  method EditOne(fs: FileSystem, files: seq<Path>, k: nat, pid: nat, run: (nat, Bytes) -> Run, ghost start: Fs,
                 ghost begun: seq<Fs>, ghost first: Faults)
    returns (ok: bool)
    requires fs.Valid() && k < |files|
    requires Editing(start, begun, fs.now, fs.trace, files, k, TempBase(pid), run, first, fs.faults)
    modifies fs
    ensures fs.Valid() && old(fs.faults).UpTo(fs.faults)
    ensures Editing(start, begun, fs.now, fs.trace, files, if ok then k + 1 else k,
                    TempBase(pid), run, first, fs.faults)
    ensures !ok && fs.faults.failed == old(fs.faults).failed && Clear(start, TempBase(pid), files[k]) ==>
              !Succeeds(start, files, run, k)
  {
    hide StayClear, Clear, Stretch, Progress, NoNewTemps, AllDurable, DurableOr, OutputOf, OwnOutputs, Shows, Held,
         Succeeds;
    ghost var was, before, base, faults := fs.now, fs.trace, TempBase(pid), fs.faults;
    ProgressRead(start, was, files, k, base, run);
    var bytes := fs.ReadFile(files[k]);
    ShowsSame(start, base, was, Nothing());
    DurableKept(start, was, was, files, k, base, run, first, faults, fs.faults);
    if bytes.None? {
      return false;
    }
    var keepMode := *;
    ghost var out, read := Flatten(run(k, bytes.value).chunks), fs.faults;
    ok := RunOne(fs, files[k], pid, keepMode, run(k, bytes.value), start);
    OwnOutput(start, base, files, run, k, out);
    StretchThen(start, base, start, begun, was, before, fs.now, fs.trace, OwnOutputs(start, files, run),
                One(files[k], out), OwnOutputs(start, files, run));
    if fs.faults.unremoved == first.unremoved {
      KnownTarget(was, fs.now, base, files[k]);
      NoNewTempsThen(start, was, fs.now, base);
    }
    if ok {
      StretchEnds(start, base, was, before, fs.now, fs.trace, One(files[k], out));
      DurableNext(start, was, fs.now, files, k, base, run, out, first, read, fs.faults);
      ProgressNext(start, was, fs.now, files, k, base, run, bytes.value);
    } else {
      DurableKept(start, was, fs.now, files, k, base, run, first, read, fs.faults);
      ProgressSame(start, was, fs.now, files, k, base, run);
    }
  }

  /** The run gets what its file holds by then. */
  lemma ProgressRead(start: Fs, was: Fs, files: seq<Path>, k: nat, base: string, run: (nat, Bytes) -> Run)
    requires k < |files| && Progress(start, was, files, k, base, run)
    ensures Clear(start, base, files[k]) ==>
              match was.Contents(files[k])
              case None => !Succeeds(start, files, run, k)
              case Some(bytes) =>
                (Succeeds(start, files, run, k) <==> run(k, bytes).ok) &&
                OutputOf(start, files, run, k) == Some(Flatten(run(k, bytes).chunks))
  {
  }

  lemma OwnOutput(start: Fs, base: string, files: seq<Path>, run: (nat, Bytes) -> Run, k: nat, out: Bytes)
    requires k < |files| && (Clear(start, base, files[k]) ==> OutputOf(start, files, run, k) == Some(out))
    ensures forall p :: Clear(start, base, p) ==> One(files[k], out)(p) <= OwnOutputs(start, files, run)(p)
  {
  }

  lemma EditStart(start: Fs, trace: seq<Fs>, files: seq<Path>, base: string, run: (nat, Bytes) -> Run, first: Faults)
    ensures Editing(start, trace, start, trace, files, 0, base, run, first, first)
  {
    NoStretch(start, base, start, trace, OwnOutputs(start, files, run));
  }
}
