/** `--split-exp`: one file per published item, all written through the one temp name of their directory. */
module SplitFiles {
  import opened Bytes
  import opened FsModel
  import opened Output
  import opened Writer
  import opened Ordinary
  import InPlace

  /** Of this process's temp files only the open writer's is not known, and no other name leads to it. */
  ghost predicate Tidy(known: set<Path>, now: Fs, base: string, temp: Option<Path>, file: nat)
  {
    (forall m: Path :: m in now.names && m.base == base && m !in known ==> Some(m) == temp) &&
    (temp.Some? && temp.value !in known ==> forall p :: p != temp.value ==> now.Lookup(p) != Some(file)) &&
    (temp.Some? && temp.value in now.names ==> now.names[temp.value] == file)
  }

  lemma TidySame(known: set<Path>, was: Fs, now: Fs, base: string, temp: Option<Path>, file: nat)
    requires now.names == was.names
    ensures Tidy(known, was, base, temp, file) ==> Tidy(known, now, base, temp, file)
  {
    assert forall p :: now.Lookup(p) == was.Lookup(p);
  }

  lemma TidyKnown(known: set<Path>, more: set<Path>, now: Fs, base: string, temp: Option<Path>, file: nat)
    requires known <= more
    ensures Tidy(known, now, base, temp, file) ==> Tidy(more, now, base, temp, file)
  {
  }

  /** Opening another temp file. */
  lemma TidyOpened(known: set<Path>, was: Fs, now: Fs, other: Option<Path>, file: nat, temp: Path)
    requires was.Valid() && Tidy(known, was, temp.base, other, file) && Apart(was, now, temp, TempInode(was, temp))
    requires temp in now.names ==> now.names[temp] == TempInode(was, temp)
    ensures forall m: Path :: m in now.names && m.base == temp.base && m !in known ==> Some(m) == other || m == temp
    ensures temp !in known ==> forall p :: p != temp ==> now.Lookup(p) != Some(TempInode(was, temp))
    ensures (temp in now.names ==> temp in was.names) ==> Tidy(known, now, temp.base, other, file)
  {
    forall m: Path | m in now.names && m.base == temp.base && m !in known
      ensures Some(m) == other || m == temp
    {
      assert m != temp ==> now.Lookup(m) == was.Lookup(m);
    }
    if temp !in known {
      forall p | p != temp
        ensures now.Lookup(p) != Some(TempInode(was, temp))
      {
        assert now.Lookup(p) == was.Lookup(p);
      }
    }
    if (temp in now.names ==> temp in was.names) && other.Some? {
      assert other.value != temp ==> now.Lookup(other.value) == was.Lookup(other.value);
      forall p | p != other.value && other.value !in known
        ensures now.Lookup(p) != Some(file)
      {
        assert p != temp ==> now.Lookup(p) == was.Lookup(p);
        assert was.Lookup(p) != Some(file);
      }
    }
  }

  class SplitDestination {
    const fs: FileSystem
    const pid: nat
    /** The current item's writer; a skipped item leaves its writer here. */
    var current: Option<CliWriter>
    /** The state and the failures before the request. */
    ghost const begin: Fs
    ghost const since: Faults
    /** The destinations opened so far. */
    ghost var targets: set<Path>

    /** Names that may be there: those that were, and the destinations. */
    ghost function Known(): set<Path>
      reads this
    {
      begin.names.Keys + targets
    }

    ghost predicate Sound()
      reads this, fs, if current.Some? then {current.value} else {}
    {
      fs.Valid() && since.UpTo(fs.faults) && StayClear(begin, TempBase(pid), fs.now) &&
      match current
      case None => fs.faults.unremoved == since.unremoved ==> Tidy(Known(), fs.now, TempBase(pid), None, 0)
      case Some(w) =>
        w.fs == fs && w.temp == Some(TempOf(w.target, pid)) && w.target in targets &&
        w.file < |fs.now.inodes| && Hidden(begin, TempBase(pid), fs.now, w.file) &&
        (fs.faults.unremoved == since.unremoved ==> Tidy(Known(), fs.now, TempBase(pid), w.temp, w.file))
    }

    ghost predicate Valid()
      reads this, fs, if current.Some? then {current.value} else {}
    {
      Sound() && (current.Some? ==> current.value.Live())
    }

    /** Between items: a writer that is still there has taken nothing. */
    ghost predicate Idle()
      reads this, if current.Some? then {current.value} else {}
    {
      current.Some? ==> current.value.accepted == [] && current.value.buffer == []
    }

    constructor (fs: FileSystem, pid: nat)
      requires fs.Valid()
      ensures Valid() && Idle() && current == None && this.fs == fs && this.pid == pid
      ensures begin == fs.now && since == fs.faults && targets == {}
    {
      this.fs := fs;
      this.pid := pid;
      this.current := None;
      this.begin := fs.now;
      this.targets := {};
      this.since := fs.faults;
    }

    /** While every removal worked, the only temp file that was not there before the request, and is no destination
        itself, is the open writer's. */
    lemma OnlyTemp(m: Path)
      requires Sound() && fs.faults.unremoved == since.unremoved
      requires m in fs.now.names && m.base == TempBase(pid) && m !in begin.names && m !in targets
      ensures current.Some? && current.value.temp == Some(m) && fs.now.names[m] == current.value.file
      ensures forall p :: p != m ==> fs.now.Lookup(p) != Some(current.value.file)
    {
    }

    /** Opens the item's destination, and only then drops the writer a skipped item left. Of one directory both have the
        one temp name: the drop removes the new writer's file. */
    method Open(target: Path) returns (ok: bool)
      requires Valid() && Idle()
      modifies this`current, this`targets, fs, if current.Some? then {current.value} else {}
      ensures Sound() && old(fs.faults).UpTo(fs.faults) && SameContents(begin, TempBase(pid), old(fs.now), fs.now)
      ensures Stretch(begin, TempBase(pid), old(fs.now), old(fs.trace), fs.now, fs.trace, Nothing())
      ensures !ok ==> current == old(current) && fs.faults.failed > old(fs.faults).failed
      ensures targets == old(targets) + {target}
      ensures ok ==> Valid() && Idle() && current.Some? && fresh(current.value) && current.value.target == target &&
                     fs.faults.failed == old(fs.faults).failed
      ensures ok ==> (current.value.Linked() <==>
                        !(old(current).Some? && old(current).value.target.dir == target.dir) ||
                        fs.faults.unremoved > old(fs.faults).unremoved)
    {
      hide Apart, AllApart, StayClear, Hidden, Stretch, SameContents, Tidy, Shows, AllShow;
      ghost var was, before, temp, base := fs.now, fs.trace, TempOf(target, pid), TempBase(pid);
      ghost var i := TempInode(was, temp);
      TempHidden(begin, was, temp);
      var keepMode := *;
      var writer := InPlace.OpenWriter(fs, target, pid, keepMode);
      ok := writer.Some?;
      ApartStretch(begin, was, before, fs.now, fs.trace, temp, i);
      ApartOrdinary(begin, was, fs.now, temp, i);
      targets := targets + {target};
      if fs.faults.unremoved == since.unremoved {
        var other, file := None, 0;
        if current.Some? {
          other, file := current.value.temp, current.value.file;
        }
        TidyKnown(old(Known()), Known(), was, base, other, file);
        TidyOpened(Known(), was, fs.now, other, file, temp);
      }
      if ok {
        ghost var mid, between := fs.now, fs.trace;
        Replace(writer.value);
        StretchThen(begin, base, was, before, mid, between, fs.now, fs.trace, Nothing(), Nothing(), Nothing());
        SameThen(begin, base, was, mid, fs.now);
      }
    }

    /** The assignment that stores the new writer: the old one is dropped. */
    method Replace(next: CliWriter)
      requires fs.Valid() && since.UpTo(fs.faults) && StayClear(begin, TempBase(pid), fs.now)
      requires next.fs == fs && next.Live() && next.Linked() && next.accepted == [] && next.buffer == []
      requires next.temp == Some(TempOf(next.target, pid)) && next.target in targets
      requires Hidden(begin, TempBase(pid), fs.now, next.file)
      requires current.Some? ==>
                 var w := current.value;
                 w != next && w.fs == fs && w.temp == Some(TempOf(w.target, pid)) && w.buffer == [] &&
                 w.file < |fs.now.inodes| && Hidden(begin, TempBase(pid), fs.now, w.file)
      requires fs.faults.unremoved == since.unremoved ==>
                 (forall m: Path :: m in fs.now.names && m.base == TempBase(pid) && m !in Known() ==>
                    m == next.temp.value || (current.Some? && Some(m) == current.value.temp)) &&
                 (next.temp.value !in Known() ==>
                    forall p :: p != next.temp.value ==> fs.now.Lookup(p) != Some(next.file))
      modifies this`current, fs, if current.Some? then {current.value} else {}
      ensures Valid() && Idle() && current == Some(next) && old(fs.faults).UpTo(fs.faults)
      ensures Stretch(begin, TempBase(pid), old(fs.now), old(fs.trace), fs.now, fs.trace, Nothing())
      ensures SameContents(begin, TempBase(pid), old(fs.now), fs.now) && fs.faults.failed == old(fs.faults).failed
      ensures next.Linked() <==> !(old(current).Some? && old(current).value.target.dir == next.target.dir) ||
                                 fs.faults.unremoved > old(fs.faults).unremoved
    {
      hide Apart, AllApart, StayClear, Hidden, Stretch, SameContents;
      ghost var was, before := fs.now, fs.trace;
      if current.Some? {
        var w := current.value;
        w.Drop();
        ApartStretch(begin, was, before, fs.now, fs.trace, w.temp.value, w.file);
        UnlinkedOrdinary(begin, was, fs.now, w.temp.value, w.file);
      } else {
        NoStretch(begin, TempBase(pid), was, before, Nothing());
        SameSelf(begin, TempBase(pid), was);
      }
      current := Some(next);
    }

    /** Item bytes go to the current file; without one the write is an error. */
    method Write(bytes: Bytes) returns (r: Option<nat>)
      requires Valid()
      modifies fs, if current.Some? then {current.value} else {}
      ensures Valid() && SameContents(begin, TempBase(pid), old(fs.now), fs.now)
      ensures Stretch(begin, TempBase(pid), old(fs.now), old(fs.trace), fs.now, fs.trace, Nothing())
      ensures fs.faults == if current.Some? && r.None? then old(fs.faults).AndFailed() else old(fs.faults)
      ensures current == None ==> r == None && fs.trace == old(fs.trace)
      ensures current.Some? ==>
                var w := current.value;
                match r
                case None => w.accepted == old(w.accepted)
                case Some(n) => n <= |bytes| && w.accepted == old(w.accepted) + bytes[..n] && (bytes != [] ==> n > 0)
    {
      ghost var was, before := fs.now, fs.trace;
      if current.None? {
        NoStretch(begin, TempBase(pid), was, before, Nothing());
        return None;
      }
      hide Wrote, StayClear, Hidden, Stretch, SameContents, Tidy;
      r := current.value.Write(bytes);
      WroteOrdinary(begin, was, before, fs.now, fs.trace, current.value.temp.value, current.value.file);
      TidySame(Known(), was, fs.now, TempBase(pid), current.value.temp, current.value.file);
    }

    /** Commits the current item's file: it holds what was written, or, on a failure, what it held before the item. It
        fails without any call failing exactly when the writer's temp name was taken from it. */
    method Commit() returns (ok: bool)
      requires Valid()
      modifies this`current, fs, if current.Some? then {current.value} else {}
      ensures Valid() && current == None && old(fs.faults).UpTo(fs.faults)
      ensures old(current).None? ==> ok && fs.now == old(fs.now) && fs.trace == old(fs.trace)
      ensures old(current).Some? ==>
                var w, base := old(current).value, TempBase(pid);
                w.accepted == old(current.value.accepted) &&
                Stretch(begin, base, old(fs.now), old(fs.trace), fs.now, fs.trace, One(w.target, w.accepted)) &&
                (forall p: Path :: Clear(begin, base, p) ==>
                   fs.now.Contents(p) == if ok && p == w.target then Some(w.accepted) else old(fs.now).Contents(p)) &&
                (ok ==> old(current.value.Linked()) && fs.now.Contents(w.target) == Some(w.accepted)) &&
                (ok ==> DurableOr(fs.now, w.target, w.accepted, old(fs.faults), fs.faults)) &&
                (ok ==> fs.faults.failed == old(fs.faults).failed) &&
                (!ok ==> Shows(begin, base, old(fs.now), fs.now, Nothing())) &&
                (!ok ==> fs.faults.failed > old(fs.faults).failed || !old(current.value.Linked()))
    {
      if current.None? {
        return true;
      }
      hide Apart, AllApart, AllApartOrPublished, Published, Replaced, StayClear, Hidden, Stretch, SameContents,
           DurableOr, Clear, Shows;
      var w := current.value;
      ghost var temp, was, before := w.temp.value, fs.now, fs.trace;
      ok := w.Commit();
      current := None;
      RunStretch(begin, was, before, fs.now, fs.trace, temp, w.target, w.file, w.accepted);
      if ok {
        InPlace.ReplacedContents(was, fs.now, temp, w.target, w.file, w.accepted);
        ReplacedOrdinary(begin, was, fs.now, temp, w.target, w.accepted);
        if fs.faults.unremoved == since.unremoved {
          TidyReplaced(Known(), was, fs.now, temp, w.target, w.file, w.accepted);
        }
      } else {
        UnlinkedOrdinary(begin, was, fs.now, temp, w.file);
        ApartShows(begin, was, fs.now, temp, w.file);
        SameMeans(begin, TempBase(pid), was, fs.now);
      }
    }

    /** A request that ends drops the writer that is still there: no destination changes. */
    method Abandon()
      requires Sound()
      modifies this`current, fs, if current.Some? then {current.value} else {}
      ensures Valid() && current == None && old(fs.faults).UpTo(fs.faults)
      ensures SameContents(begin, TempBase(pid), old(fs.now), fs.now)
      ensures Stretch(begin, TempBase(pid), old(fs.now), old(fs.trace), fs.now, fs.trace, Nothing())
    {
      ghost var was, before := fs.now, fs.trace;
      if current.None? {
        NoStretch(begin, TempBase(pid), was, before, Nothing());
        return;
      }
      hide Apart, AllApart, StayClear, Hidden, Stretch, SameContents;
      var w := current.value;
      w.Drop();
      current := None;
      ApartStretch(begin, was, before, fs.now, fs.trace, w.temp.value, w.file);
      UnlinkedOrdinary(begin, was, fs.now, w.temp.value, w.file);
    }
  }

  /** A committed writer's temp name is gone, unless it was known. */
  lemma TidyReplaced(known: set<Path>, was: Fs, now: Fs, temp: Path, target: Path, i: nat, bytes: Bytes)
    requires Tidy(known, was, temp.base, Some(temp), i) && Replaced(was, now, temp, target, i, bytes)
    requires temp == Path(target.dir, temp.base) && target in known
    ensures Tidy(known, now, temp.base, None, 0)
  {
    assert was.Lookup(target) == Some(i) ==> temp in known || temp == target;
    forall m: Path | m.base == temp.base && m !in known
      ensures m !in now.names
    {
      assert m != temp ==> now.Lookup(m) == was.Lookup(m);
    }
  }

  // ----- A whole request -----

  /** How encoding one item goes: to its end, passed over before its first byte, or broken off. */
  datatype Ending = Complete | Skipped | Broken

  /** One item as the drive encodes it. It has no name when its split expression gave no string. */
  datatype Item = Item(name: Option<string>, chunks: seq<Bytes>, ending: Ending)

  /** The file a name means. */
  type Resolver = string -> Path

  predicate Publishes(item: Item, resolve: Resolver, p: Path)
  {
    item.name.Some? && item.ending == Complete && resolve(item.name.value) == p
  }

  /** An earlier item, published or not, has the name. */
  predicate Repeats(items: seq<Item>, k: nat)
    requires k < |items|
  {
    exists j :: 0 <= j < k && items[j].name == items[k].name
  }

  /** The directory of the writer that a skipped item left open before item `k`. */
  function LeftOpen(items: seq<Item>, resolve: Resolver, k: nat): Option<string>
    requires k <= |items|
  {
    if k == 0 then None
    else
      match items[k - 1].name
      case None => LeftOpen(items, resolve, k - 1)
      case Some(name) => if items[k - 1].ending == Skipped then Some(resolve(name).dir) else None
  }

  /** Item `k` ends the request. */
  predicate Stops(items: seq<Item>, resolve: Resolver, k: nat)
    requires k < |items|
  {
    items[k].name.Some? &&
    (Repeats(items, k) || items[k].ending == Broken ||
     (items[k].ending == Complete && LeftOpen(items, resolve, k) == Some(resolve(items[k].name.value).dir)))
  }

  /** What a name holds after the items: the last one published to its file. */
  function After(before: Option<Bytes>, items: seq<Item>, resolve: Resolver, p: Path): Option<Bytes>
  {
    if items == [] then before
    else
      var last := items[|items| - 1];
      if Publishes(last, resolve, p)
         then Some(Flatten(last.chunks)) else After(before, items[..|items| - 1], resolve, p)
  }

  /** A name may be given the bytes of the items published to it. */
  function ItemOutputs(items: seq<Item>, resolve: Resolver): Outputs
  {
    p => set k: nat | k < |items| && Publishes(items[k], resolve, p) :: Some(Flatten(items[k].chunks))
  }

  function ItemOutput(target: Path, item: Item): Outputs
  {
    if item.ending == Complete then One(target, Flatten(item.chunks)) else Nothing()
  }

  /** The published files are durable, unless a directory sync failed. */
  ghost predicate AllDurable(begin: Fs, base: string, now: Fs, items: seq<Item>, resolve: Resolver, before: Faults,
                             faults: Faults)
  {
    forall p: Path :: Clear(begin, base, p) && After(None, items, resolve, p).Some? ==>
      DurableOr(now, p, After(None, items, resolve, p).value, before, faults)
  }

  ghost predicate Holds(begin: Fs, base: string, was: Fs, now: Fs, items: seq<Item>, resolve: Resolver)
  {
    forall p: Path :: Clear(begin, base, p) ==> now.Contents(p) == After(was.Contents(p), items, resolve, p)
  }

  function Targets(items: seq<Item>, resolve: Resolver): set<Path>
  {
    set k | 0 <= k < |items| && items[k].name.Some? :: resolve(items[k].name.value)
  }

  /** One named item: open its file, write its bytes, commit. */
  method PublishItem(d: SplitDestination, target: Path, item: Item) returns (ok: bool)
    requires d.Valid() && d.Idle()
    modifies d, d.fs, if d.current.Some? then {d.current.value} else {}
    ensures d.Sound() && old(d.fs.faults).UpTo(d.fs.faults) && d.targets == old(d.targets) + {target}
    ensures d.current.Some? ==> d.current == old(d.current) || fresh(d.current.value)
    ensures Stretch(d.begin, TempBase(d.pid), old(d.fs.now), old(d.fs.trace), d.fs.now, d.fs.trace,
                    ItemOutput(target, item))
    ensures forall p: Path :: Clear(d.begin, TempBase(d.pid), p) ==>
              d.fs.now.Contents(p) ==
              if ok && item.ending == Complete && p == target then Some(Flatten(item.chunks))
              else old(d.fs.now).Contents(p)
    ensures !ok ==> Shows(d.begin, TempBase(d.pid), old(d.fs.now), d.fs.now, Nothing())
    ensures ok ==> d.Valid() && d.Idle() && item.ending != Broken && d.fs.faults.failed == old(d.fs.faults).failed
    ensures ok ==> LiveDir(d) == if item.ending == Complete then None else Some(target.dir)
    ensures ok && item.ending == Complete ==>
              DurableOr(d.fs.now, target, Flatten(item.chunks), old(d.fs.faults), d.fs.faults) &&
              (old(LiveDir(d)) == Some(target.dir) ==> d.fs.faults.unremoved > old(d.fs.faults).unremoved)
    ensures !ok && d.fs.faults.failed == old(d.fs.faults).failed ==>
              item.ending == Broken || (item.ending == Complete && old(LiveDir(d)) == Some(target.dir))
  {
    hide StayClear, Hidden, Stretch, SameContents, Tidy, Wrote, DurableOr, Clear, Shows;
    ghost var base, was, before, bytes := TempBase(d.pid), d.fs.now, d.fs.trace, Flatten(item.chunks);
    ok := d.Open(target);
    ghost var begun, atOpen := d.fs.now, d.fs.trace;
    SameMeans(d.begin, base, was, begun);
    if !ok || item.ending == Skipped {
      StretchMore(d.begin, base, was, before, begun, atOpen, Nothing(), ItemOutput(target, item));
      StretchEnds(d.begin, base, was, before, begun, atOpen, Nothing());
      return;
    }
    var w := d.current.value;
    ok := InPlace.WriteChunks(w, item.chunks);
    ghost var written, atWritten := d.fs.now, d.fs.trace;
    WroteOrdinary(d.begin, begun, atOpen, written, atWritten, w.temp.value, w.file);
    TidySame(d.Known(), begun, written, base, w.temp, w.file);
    SameMeans(d.begin, base, begun, written);
    StretchThen(d.begin, base, was, before, begun, atOpen, written, atWritten, Nothing(), Nothing(), Nothing());
    StretchMore(d.begin, base, was, before, written, atWritten, Nothing(), ItemOutput(target, item));
    StretchEnds(d.begin, base, was, before, written, atWritten, Nothing());
    if !ok || item.ending == Broken {
      return false;
    }
    assert [] + bytes == bytes;
    ghost var faults := d.fs.faults;
    ok := d.Commit();
    StretchThen(d.begin, base, was, before, written, atWritten, d.fs.now, d.fs.trace, Nothing(), One(target, bytes),
                ItemOutput(target, item));
    if ok {
      DurableSince(d.fs.now, target, bytes, old(d.fs.faults), faults, d.fs.faults);
    } else {
      ShowsThen(d.begin, base, was, written, d.fs.now, Nothing(), Nothing(), Nothing());
    }
  }

  /** The directory of the writer that is still there. */
  ghost function LiveDir(d: SplitDestination): Option<string>
    reads d
  {
    if d.current.Some? then Some(d.current.value.target.dir) else None
  }

  /** What the request has done when `done` items are dealt with. */
  ghost predicate Publishing(begin: Fs, base: string, was: Fs, before: seq<Fs>, now: Fs, trace: seq<Fs>,
                             items: seq<Item>, done: nat, resolve: Resolver, first: Faults, faults: Faults)
    requires done <= |items|
  {
    first.UpTo(faults) && Holds(begin, base, was, now, items[..done], resolve) &&
    Stretch(begin, base, was, before, now, trace, ItemOutputs(items, resolve)) &&
    AllDurable(begin, base, now, items[..done], resolve, first, faults) &&
    (forall k :: 0 <= k < done && items[k].name.Some? ==> !Repeats(items, k) && items[k].ending != Broken) &&
    (faults.unremoved == first.unremoved ==> forall k :: 0 <= k < done ==> !Stops(items, resolve, k))
  }

  lemma PublishingStart(begin: Fs, base: string, was: Fs, before: seq<Fs>, items: seq<Item>, resolve: Resolver,
                        first: Faults)
    ensures Publishing(begin, base, was, before, was, before, items, 0, resolve, first, first)
  {
    NoStretch(begin, base, was, before, ItemOutputs(items, resolve));
  }

  /** Nothing more was published. */
  lemma PublishingSame(begin: Fs, base: string, was: Fs, before: seq<Fs>, mid: Fs, between: seq<Fs>, now: Fs,
                       trace: seq<Fs>,
                       items: seq<Item>, done: nat, resolve: Resolver, first: Faults, prior: Faults, faults: Faults)
    requires done <= |items| && prior.UpTo(faults)
    requires Publishing(begin, base, was, before, mid, between, items, done, resolve, first, prior)
    requires Stretch(begin, base, was, before, now, trace, ItemOutputs(items, resolve))
    requires Shows(begin, base, mid, now, Nothing())
    requires forall p: Path :: Clear(begin, base, p) ==> now.Contents(p) == mid.Contents(p)
    ensures Publishing(begin, base, was, before, now, trace, items, done, resolve, first, faults)
  {
    var items' := items[..done];
    forall p: Path | Clear(begin, base, p) && After(None, items', resolve, p).Some?
      ensures DurableOr(now, p, After(None, items', resolve, p).value, first, faults)
    {
      var c := After(None, items', resolve, p);
      assert DurableOr(mid, p, c.value, first, prior);
      assert {c} + Nothing()(p) == {c};
    }
  }

  /** One more item was dealt with. */
  lemma PublishingNext(begin: Fs, base: string, was: Fs, before: seq<Fs>, mid: Fs, between: seq<Fs>, now: Fs,
                       trace: seq<Fs>,
                       items: seq<Item>, done: nat, resolve: Resolver, first: Faults, prior: Faults, faults: Faults,
                       target: Path)
    requires done < |items| && prior.UpTo(faults) && items[done].name.Some? && target == resolve(items[done].name.value)
    requires Publishing(begin, base, was, before, mid, between, items, done, resolve, first, prior)
    requires Stretch(begin, base, was, before, now, trace, ItemOutputs(items, resolve))
    requires Shows(begin, base, mid, now, ItemOutput(target, items[done]))
    requires forall p: Path :: Clear(begin, base, p) ==>
               now.Contents(p) == if Publishes(items[done], resolve, p) then Some(Flatten(items[done].chunks))
                                  else mid.Contents(p)
    requires items[done].ending == Complete ==> DurableOr(now, target, Flatten(items[done].chunks), prior, faults)
    requires !Repeats(items, done) && items[done].ending != Broken
    requires faults.unremoved == prior.unremoved ==> !Stops(items, resolve, done)
    ensures Publishing(begin, base, was, before, now, trace, items, done + 1, resolve, first, faults)
  {
    var items' := items[..done + 1];
    assert items'[..done] == items[..done] && items'[done] == items[done];
    forall p: Path | Clear(begin, base, p) && After(None, items', resolve, p).Some?
      ensures DurableOr(now, p, After(None, items', resolve, p).value, first, faults)
    {
      if Publishes(items[done], resolve, p) {
        DurableSince(now, target, Flatten(items[done].chunks), first, prior, faults);
      } else {
        var c := After(None, items[..done], resolve, p);
        assert DurableOr(mid, p, c.value, first, prior);
        assert {c} + ItemOutput(target, items[done])(p) == {c};
      }
    }
  }

  /** A nameless item leaves everything as it is. */
  lemma PublishingPast(begin: Fs, base: string, was: Fs, before: seq<Fs>, now: Fs, trace: seq<Fs>, items: seq<Item>,
                       done: nat, resolve: Resolver, first: Faults, faults: Faults)
    requires done < |items| && items[done].name == None
    requires Publishing(begin, base, was, before, now, trace, items, done, resolve, first, faults)
    ensures Publishing(begin, base, was, before, now, trace, items, done + 1, resolve, first, faults)
  {
    var items' := items[..done + 1];
    assert items'[..done] == items[..done] && items'[done] == items[done];
    forall p: Path | Clear(begin, base, p) && After(None, items', resolve, p).Some?
      ensures DurableOr(now, p, After(None, items', resolve, p).value, first, faults)
    {
      assert DurableOr(now, p, After(None, items[..done], resolve, p).value, first, faults);
    }
  }

  lemma OutputOfItem(items: seq<Item>, k: nat, resolve: Resolver)
    requires k < |items| && items[k].name.Some?
    ensures forall p :: ItemOutput(resolve(items[k].name.value), items[k])(p) <= ItemOutputs(items, resolve)(p)
  {
    forall p | items[k].ending == Complete && p == resolve(items[k].name.value)
      ensures Some(Flatten(items[k].chunks)) in ItemOutputs(items, resolve)(p)
    {
      assert Publishes(items[k], resolve, p);
    }
  }

  /** The names in use. */
  ghost predicate Taken(items: seq<Item>, k: nat, taken: set<string>)
    requires k <= |items|
  {
    forall name :: name in taken <==> exists j :: 0 <= j < k && items[j].name == Some(name)
  }

  /** One item, named or not: a name that an earlier item has is refused. */
  method EncodeOne(d: SplitDestination, items: seq<Item>, k: nat, taken: set<string>, resolve: Resolver, ghost was: Fs,
                   ghost before: seq<Fs>, ghost first: Faults)
    returns (ok: bool, taken': set<string>)
    requires d.Valid() && d.Idle() && k < |items| && Taken(items, k, taken) && LeftOpen(items, resolve, k) == LiveDir(d)
    requires Publishing(d.begin, TempBase(d.pid), was, before, d.fs.now, d.fs.trace, items, k, resolve, first,
                        d.fs.faults)
    modifies d, d.fs, if d.current.Some? then {d.current.value} else {}
    ensures d.Sound() && old(d.fs.faults).UpTo(d.fs.faults) && d.targets <= old(d.targets) + Targets(items, resolve)
    ensures d.current.Some? ==> d.current == old(d.current) || fresh(d.current.value)
    ensures Publishing(d.begin, TempBase(d.pid), was, before, d.fs.now, d.fs.trace, items,
                       if ok then k + 1 else k, resolve, first, d.fs.faults)
    ensures ok ==> d.Valid() && d.Idle() && LeftOpen(items, resolve, k + 1) == LiveDir(d)
    ensures ok ==> d.fs.faults.failed == old(d.fs.faults).failed && Taken(items, k + 1, taken')
    ensures !ok && d.fs.faults.failed == old(d.fs.faults).failed ==> Stops(items, resolve, k)
  {
    hide StayClear, Hidden, Stretch, SameContents, Tidy, DurableOr, Clear, Shows, Publishing, ItemOutputs, ItemOutput;
    ghost var base, mid, between, prior := TempBase(d.pid), d.fs.now, d.fs.trace, d.fs.faults;
    match items[k].name {
      case None =>
        PublishingPast(d.begin, base, was, before, mid, between, items, k, resolve, first, prior);
        return true, taken;
      case Some(name) =>
        if name in taken {
          return false, taken;
        }
        var target := resolve(name);
        ok := PublishItem(d, target, items[k]);
        taken' := taken + {name};
        OutputOfItem(items, k, resolve);
        PublishingShows(d.begin, base, was, before, mid, between, items, k, resolve, first, prior);
        StretchThen(d.begin, base, was, before, mid, between, d.fs.now, d.fs.trace, ItemOutputs(items, resolve),
                    ItemOutput(target, items[k]), ItemOutputs(items, resolve));
        if ok {
          StretchEnds(d.begin, base, mid, between, d.fs.now, d.fs.trace, ItemOutput(target, items[k]));
          PublishingNext(d.begin, base, was, before, mid, between, d.fs.now, d.fs.trace, items, k, resolve, first,
                         prior, d.fs.faults, target);
        } else {
          PublishingSame(d.begin, base, was, before, mid, between, d.fs.now, d.fs.trace, items, k, resolve, first,
                         prior, d.fs.faults);
        }
    }
  }

  lemma PublishingShows(begin: Fs, base: string, was: Fs, before: seq<Fs>, now: Fs, trace: seq<Fs>, items: seq<Item>,
                        done: nat, resolve: Resolver, first: Faults, faults: Faults)
    requires done <= |items|
    requires Publishing(begin, base, was, before, now, trace, items, done, resolve, first, faults)
    ensures Stretch(begin, base, was, before, now, trace, ItemOutputs(items, resolve))
  {
  }

  /** The items in order, until one ends the request; a writer that is still there is dropped. `done` items were dealt
      with. Without a failed call it is the first that must end the request that does. */
  method PublishItems(d: SplitDestination, items: seq<Item>, resolve: Resolver) returns (done: nat)
    requires d.Valid() && d.current == None
    modifies d, d.fs
    ensures d.Valid() && d.current == None && done <= |items|
    ensures Publishing(d.begin, TempBase(d.pid), old(d.fs.now), old(d.fs.trace), d.fs.now, d.fs.trace, items, done,
                       resolve, old(d.fs.faults), d.fs.faults)
    ensures d.fs.faults.failed == old(d.fs.faults).failed && done < |items| ==> Stops(items, resolve, done)
    ensures d.fs.faults.failed == old(d.fs.faults).failed && d.fs.faults.unremoved == old(d.fs.faults).unremoved ==>
              done == FirstStop(items, resolve, 0)
    ensures d.fs.faults.unremoved == d.since.unremoved ==>
              NoNewTemps(d.begin, d.fs.now, TempBase(d.pid), old(d.targets) + Targets(items, resolve))
    ensures FilesApart(items[..done], resolve) ==>
              forall k :: 0 <= k < done && items[k].name.Some? && items[k].ending == Complete &&
                          Clear(d.begin, TempBase(d.pid), resolve(items[k].name.value)) ==>
                d.fs.now.Contents(resolve(items[k].name.value)) == Some(Flatten(items[k].chunks))
  {
    hide StayClear, Hidden, Stretch, SameContents, Tidy, Clear, Shows, Publishing, ItemOutputs, LeftOpen, Stops;
    ghost var base, was, before, first, outs :=
      TempBase(d.pid), d.fs.now, d.fs.trace, d.fs.faults, ItemOutputs(items, resolve);
    PublishingStart(d.begin, base, was, before, items, resolve, first);
    LeftOpenStart(items, resolve);
    var taken: set<string> := {};
    done := 0;
    var ok := true;
    while ok && done < |items|
      invariant done <= |items| && d.Sound() && (d.current.Some? ==> fresh(d.current.value)) && first.UpTo(d.fs.faults)
      invariant d.targets <= old(d.targets) + Targets(items, resolve)
      invariant ok ==> d.Valid() && d.Idle() && Taken(items, done, taken)
      invariant ok ==> LeftOpen(items, resolve, done) == LiveDir(d) && d.fs.faults.failed == first.failed
      invariant !ok ==> done < |items| && (d.fs.faults.failed == first.failed ==> Stops(items, resolve, done))
      invariant Publishing(d.begin, base, was, before, d.fs.now, d.fs.trace, items, done, resolve, first, d.fs.faults)
      decreases |items| - done, ok
    {
      ok, taken := EncodeOne(d, items, done, taken, resolve, was, before, first);
      done := if ok then done + 1 else done;
    }
    ghost var mid, between, prior := d.fs.now, d.fs.trace, d.fs.faults;
    d.Abandon();
    SameMeans(d.begin, base, mid, d.fs.now);
    PublishingShows(d.begin, base, was, before, mid, between, items, done, resolve, first, prior);
    StretchThen(d.begin, base, was, before, mid, between, d.fs.now, d.fs.trace, outs, Nothing(), outs);
    StretchEnds(d.begin, base, mid, between, d.fs.now, d.fs.trace, Nothing());
    PublishingSame(d.begin, base, was, before, mid, between, d.fs.now, d.fs.trace, items, done, resolve, first, prior,
                   d.fs.faults);
    if d.fs.faults.failed == first.failed && d.fs.faults.unremoved == first.unremoved {
      PublishedUpTo(d.begin, base, was, before, d.fs.now, d.fs.trace, items, done, resolve, first, d.fs.faults);
    }
    if FilesApart(items[..done], resolve) {
      PublishedStand(d.begin, base, was, before, d.fs.now, d.fs.trace, items, done, resolve, first, d.fs.faults);
    }
    if d.fs.faults.unremoved == d.since.unremoved {
      TidyEnd(d.begin, d.targets, d.fs.now, base, old(d.targets) + Targets(items, resolve));
    }
  }

  lemma LeftOpenStart(items: seq<Item>, resolve: Resolver)
    ensures LeftOpen(items, resolve, 0) == None
  {
  }

  lemma TidyEnd(begin: Fs, targets: set<Path>, now: Fs, base: string, more: set<Path>)
    requires Tidy(begin.names.Keys + targets, now, base, None, 0) && targets <= more
    ensures NoNewTemps(begin, now, base, more)
  {
  }

  /** The first item from `k` on that ends the request; past the last one when none does. */
  function FirstStop(items: seq<Item>, resolve: Resolver, k: nat): nat
    requires k <= |items|
    decreases |items| - k
  {
    if k == |items| || Stops(items, resolve, k) then k else FirstStop(items, resolve, k + 1)
  }

  lemma {:induction false} FirstStopIs(items: seq<Item>, resolve: Resolver, k: nat, n: nat)
    requires k <= n <= |items| && (forall j :: k <= j < n ==> !Stops(items, resolve, j))
    requires n < |items| ==> Stops(items, resolve, n)
    ensures FirstStop(items, resolve, k) == n
    decreases n - k
  {
    if k < n {
      FirstStopIs(items, resolve, k + 1, n);
    }
  }

  lemma PublishedUpTo(begin: Fs, base: string, was: Fs, before: seq<Fs>, now: Fs, trace: seq<Fs>, items: seq<Item>,
                      done: nat, resolve: Resolver, first: Faults, faults: Faults)
    requires done <= |items| && (done < |items| ==> Stops(items, resolve, done)) && faults.unremoved == first.unremoved
    requires Publishing(begin, base, was, before, now, trace, items, done, resolve, first, faults)
    ensures FirstStop(items, resolve, 0) == done
  {
    FirstStopIs(items, resolve, 0, done);
  }

  // ----- What a request means -----

  /** No two names mean one file. */
  predicate FilesApart(items: seq<Item>, resolve: Resolver)
  {
    forall i, j | 0 <= i < |items| && 0 <= j < |items| && items[i].name.Some? && items[j].name.Some? ::
      resolve(items[i].name.value) == resolve(items[j].name.value) ==> items[i].name == items[j].name
  }

  lemma PublishedStand(begin: Fs, base: string, was: Fs, before: seq<Fs>, now: Fs, trace: seq<Fs>, items: seq<Item>,
                       done: nat, resolve: Resolver, first: Faults, faults: Faults)
    requires done <= |items| && FilesApart(items[..done], resolve)
    requires Publishing(begin, base, was, before, now, trace, items, done, resolve, first, faults)
    ensures forall k :: 0 <= k < done && items[k].name.Some? && items[k].ending == Complete &&
                        Clear(begin, base, resolve(items[k].name.value)) ==>
              now.Contents(resolve(items[k].name.value)) == Some(Flatten(items[k].chunks))
  {
    hide Clear, After;
    var dealt := items[..done];
    forall k | 0 <= k < done && items[k].name.Some? && items[k].ending == Complete &&
               Clear(begin, base, resolve(items[k].name.value))
      ensures now.Contents(resolve(items[k].name.value)) == Some(Flatten(items[k].chunks))
    {
      forall j | 0 <= j < done
        ensures !Repeats(dealt, j) || dealt[j].name == None
      {
        assert forall i :: 0 <= i < j ==> dealt[i] == items[i];
        assert dealt[j] == items[j];
      }
      FirstItemStands(was.Contents(resolve(items[k].name.value)), dealt, resolve, k);
    }
  }

  /** While no name repeats, every published item stands, where no two names mean one file. */
  lemma {:induction false} FirstItemStands(before: Option<Bytes>, items: seq<Item>, resolve: Resolver, k: nat)
    requires k < |items| && items[k].name.Some? && items[k].ending == Complete
    requires forall j :: 0 <= j < |items| ==> !Repeats(items, j) || items[j].name == None
    requires FilesApart(items, resolve)
    ensures After(before, items, resolve, resolve(items[k].name.value)) == Some(Flatten(items[k].chunks))
  {
    var p := resolve(items[k].name.value);
    forall j | k < j < |items|
      ensures !Publishes(items[j], resolve, p)
    {
      assert items[j].name == items[k].name ==> Repeats(items, j);
    }
    LastOfPathStands(before, items, resolve, k, p);
  }

  /** Of several names that mean one file the last item stands. */
  lemma {:induction false} LastOfPathStands(before: Option<Bytes>, items: seq<Item>, resolve: Resolver, k: nat, p: Path)
    requires k < |items| && Publishes(items[k], resolve, p)
    requires forall j :: k < j < |items| ==> !Publishes(items[j], resolve, p)
    ensures After(before, items, resolve, p) == Some(Flatten(items[k].chunks))
  {
    if k < |items| - 1 {
      LastOfPathStands(before, items[..|items| - 1], resolve, k, p);
    }
  }

  lemma {:induction false} UnnamedStays(before: Option<Bytes>, items: seq<Item>, resolve: Resolver, p: Path)
    requires forall j :: 0 <= j < |items| ==> !Publishes(items[j], resolve, p)
    ensures After(before, items, resolve, p) == before
  {
    if items != [] {
      UnnamedStays(before, items[..|items| - 1], resolve, p);
    }
  }

  lemma {:induction false} FirstStopAtMost(items: seq<Item>, resolve: Resolver, k: nat, n: nat)
    requires k <= n < |items| && Stops(items, resolve, n)
    ensures FirstStop(items, resolve, k) <= n
    decreases n - k
  {
    if k < n && !Stops(items, resolve, k) {
      FirstStopAtMost(items, resolve, k + 1, n);
    }
  }

  /** A repeated name ends the request, whatever the first item of that name came to. */
  lemma RepeatEnds(items: seq<Item>, resolve: Resolver, j: nat, k: nat)
    requires j < k < |items| && items[j].name.Some? && items[k].name == items[j].name
    ensures FirstStop(items, resolve, 0) <= k
  {
    assert Repeats(items, k);
    FirstStopAtMost(items, resolve, 0, k);
  }

  /** The last named item before `k` was skipped, and its file is in this directory. */
  predicate SkippedInto(items: seq<Item>, resolve: Resolver, k: nat, dir: string)
    requires k <= |items|
  {
    exists j :: 0 <= j < k && items[j].name.Some? && items[j].ending == Skipped &&
      resolve(items[j].name.value).dir == dir &&
      forall i :: j < i < k ==> items[i].name == None
  }

  lemma {:induction false} LeftOpenExactly(items: seq<Item>, resolve: Resolver, k: nat, dir: string)
    requires k <= |items|
    ensures LeftOpen(items, resolve, k) == Some(dir) <==> SkippedInto(items, resolve, k, dir)
  {
    if k > 0 && items[k - 1].name == None {
      LeftOpenExactly(items, resolve, k - 1, dir);
      assert SkippedInto(items, resolve, k - 1, dir) ==> SkippedInto(items, resolve, k, dir);
      assert SkippedInto(items, resolve, k, dir) ==> SkippedInto(items, resolve, k - 1, dir);
    }
  }

  /** Without failed calls a request gets through its items exactly when no name repeats, none is broken off, and no
      item is published to the directory of a skipped item right before it. */
  lemma RunsThrough(items: seq<Item>, resolve: Resolver)
    ensures FirstStop(items, resolve, 0) == |items| <==>
            forall k :: 0 <= k < |items| && items[k].name.Some? ==>
              !Repeats(items, k) && items[k].ending != Broken &&
              (items[k].ending == Complete ==> !SkippedInto(items, resolve, k, resolve(items[k].name.value).dir))
  {
    forall k | 0 <= k < |items| && items[k].name.Some?
      ensures Stops(items, resolve, k) <==>
              Repeats(items, k) || items[k].ending == Broken ||
              (items[k].ending == Complete && SkippedInto(items, resolve, k, resolve(items[k].name.value).dir))
    {
      LeftOpenExactly(items, resolve, k, resolve(items[k].name.value).dir);
    }
    if n: nat :| n < |items| && Stops(items, resolve, n) {
      FirstStopAtMost(items, resolve, 0, n);
    } else {
      FirstStopIs(items, resolve, 0, |items|);
    }
  }

  /** A skipped item costs the next named item its file exactly when both files are in one directory. */
  lemma SkippedHarmsNext(items: seq<Item>, resolve: Resolver, j: nat, k: nat)
    requires j < k < |items| && items[j].name.Some? && items[j].ending == Skipped
    requires forall i :: j < i < k ==> items[i].name == None
    requires items[k].name.Some? && items[k].ending == Complete && !Repeats(items, k)
    ensures Stops(items, resolve, k) <==> resolve(items[j].name.value).dir == resolve(items[k].name.value).dir
  {
    LeftOpenExactly(items, resolve, k, resolve(items[k].name.value).dir);
  }

  /** The smallest such request: the second of two different names is lost or stands. */
  lemma SkippedThenComplete(a: string, b: string, chunks: seq<Bytes>, resolve: Resolver, before: Option<Bytes>)
    requires a != b && resolve(a) != resolve(b)
    ensures var items := [Item(Some(a), [], Skipped), Item(Some(b), chunks, Complete)];
            var done := FirstStop(items, resolve, 0);
            done == (if resolve(a).dir == resolve(b).dir then 1 else 2) &&
            After(before, items[..done], resolve, resolve(b)) ==
            if resolve(a).dir == resolve(b).dir then before else Some(Flatten(chunks))
  {
    var items := [Item(Some(a), [], Skipped), Item(Some(b), chunks, Complete)];
    assert items[..2] == items;
    assert LeftOpen(items, resolve, 1) == Some(resolve(a).dir);
    assert !Stops(items, resolve, 0) && !Repeats(items, 1);
    FirstStopIs(items, resolve, 0, if resolve(a).dir == resolve(b).dir then 1 else 2);
  }
}
