/** The resident-memory governor: the gated check, runs of checks, the ceiling's arithmetic and the cgroup walk. */
module Governor {
  import opened Bytes

  const STRIDE: nat := 64
  const INTERVAL_MS: nat := 4
  const U32: nat := 0x1_0000_0000

  datatype Outcome = Continue | MemoryExceeded

  /** The governor's fields. `checks` is a 32-bit counter, the others are 64-bit numbers. */
  datatype State = State(ceiling: nat, enforcing: bool, sampling: bool, last: nat, checks: nat,
                         refusalRss: nat, refusalCeiling: nat)
  {
    predicate Valid() { checks < U32 && last < U64 }
  }

  /** One check as the world answers it: the clock, the footprint, and the footprint after the release step. */
  datatype Event = Event(force: bool, now: nat, first: Option<nat>, second: Option<nat>)
  {
    predicate Valid() { now < U64 }

    /** The reading the second comparison uses. */
    function After(): nat
      requires first.Some?
    {
      if second.Some? then second.value else first.value
    }
  }

  // ----- One check -----

  predicate Armed(s: State) { s.enforcing && s.sampling }

  predicate StrideOpen(s: State) { s.checks % STRIDE == 0 }

  /** Subtraction on 64-bit numbers. */
  function WrappingSub(a: nat, b: nat): nat
    requires a < U64 && b < U64
  {
    (a + U64 - b) % U64
  }

  predicate Samples(s: State, e: Event)
    requires s.Valid() && e.Valid()
  {
    Armed(s) && (e.force || (StrideOpen(s) && WrappingSub(e.now, s.last) >= INTERVAL_MS))
  }

  predicate Exceeds(s: State, e: Event)
  {
    e.first.Some? && e.first.value > s.ceiling && e.After() > s.ceiling
  }

  function Counted(s: State, e: Event): State
    requires s.Valid() && e.Valid()
  {
    if !Armed(s) || e.force then s
    else s.(checks := (s.checks + 1) % U32, last := if Samples(s, e) then e.now else s.last)
  }

  function Check(s: State, e: Event): (r: (State, Outcome))
    requires s.Valid() && e.Valid()
    ensures r.0.Valid() && r.0.ceiling == s.ceiling && (Armed(r.0) <==> Armed(s))
  {
    var counted := Counted(s, e);
    if Samples(s, e) && Exceeds(s, e)
       then (counted.(refusalRss := e.After(), refusalCeiling := s.ceiling), MemoryExceeded)
    else (counted, Continue)
  }

  class Governor {
    var ceiling: nat
    var enforcing: bool
    var sampling: bool
    var last: nat
    var checks: nat
    var refusalRss: nat
    var refusalCeiling: nat

    function Now(): State
      reads this
    {
      State(ceiling, enforcing, sampling, last, checks, refusalRss, refusalCeiling)
    }

    constructor ()
      ensures Now() == State(0, false, false, 0, 0, 0, 0)
    {
      ceiling, enforcing, sampling, last, checks, refusalRss, refusalCeiling := 0, false, false, 0, 0, 0, 0;
    }

    method SampleAndMaybeRefuse(e: Event) returns (outcome: Outcome)
      requires Now().Valid() && e.Valid()
      modifies this
      ensures (Now(), outcome) == Check(old(Now()), e)
    {
      if !enforcing {
        return Continue;
      }
      if !sampling {
        return Continue;
      }
      if !e.force {
        var count := checks;
        checks := (checks + 1) % U32;
        if count % STRIDE != 0 {
          return Continue;
        }
        if WrappingSub(e.now, last) < INTERVAL_MS {
          return Continue;
        }
        last := e.now;
      }
      if e.first.None? {
        return Continue;
      }
      var footprint := e.first.value;
      if footprint <= ceiling {
        return Continue;
      }
      var after := if e.second.Some? then e.second.value else footprint;
      if after <= ceiling {
        return Continue;
      }
      refusalRss := after;
      refusalCeiling := ceiling;
      return MemoryExceeded;
    }

    /** Arms the governor. `detected` is what memory detection found, `available` whether this build can measure. */
    method Configure(dial: MaxRss, detected: Detection, instrument: bool, available: bool) returns (ok: bool)
      modifies this
      ensures ok <==> !(dial.Percent? && detected.Failed? && instrument)
      ensures !ok ==> Now() == old(Now())
      ensures dial.Disabled? || (ok && dial.Percent? && detected.Failed?) ==>
                Now() == old(Now()).(ceiling := 0, enforcing := false, sampling := true)
      ensures dial.Bytes? ==> Now() == old(Now()).(ceiling := dial.n, enforcing := available, sampling := true)
      ensures dial.Percent? && detected.Found? ==>
                match EffectiveBytes(detected.host, detected.cgroup)
                case None => Now() == old(Now())
                case Some(effective) =>
                  Now() == old(Now()).(ceiling := CeilingOf(effective, dial.percent), enforcing := available,
                                       sampling := true)
    {
      var limit, enforce := 0, false;
      match dial {
        case Disabled =>
        case Bytes(bytes) =>
          limit, enforce := bytes, true;
        case Percent(percent) =>
          match detected {
            case Found(host, cgroup) =>
              var effective := EffectiveBytes(host, cgroup);
              if effective.None? {
                return true;
              }
              limit, enforce := CeilingOf(effective.value, percent), true;
            case Failed =>
              if instrument {
                return false;
              }
          }
      }
      ceiling := limit;
      enforcing := enforce && available;
      sampling := true;
      return true;
    }
  }

  // ----- Runs of checks -----

  predicate AllValid(events: seq<Event>) { forall k :: 0 <= k < |events| ==> events[k].Valid() }

  function Run(s: State, events: seq<Event>): (r: State)
    requires s.Valid() && AllValid(events)
    ensures r.Valid() && r.ceiling == s.ceiling && (Armed(r) <==> Armed(s))
    decreases |events|
  {
    if events == [] then s else Run(Check(s, events[0]).0, events[1..])
  }

  lemma {:induction false} RunSplit(s: State, a: seq<Event>, b: seq<Event>)
    requires s.Valid() && AllValid(a) && AllValid(b)
    ensures AllValid(a + b) && Run(s, a + b) == Run(Run(s, a), b)
    decreases |a|
  {
    if a == [] {
      assert a + b == b;
    } else {
      assert (a + b)[1..] == a[1..] + b;
      RunSplit(Check(s, a[0]).0, a[1..], b);
    }
  }

  /** After `n` more unforced checks the counter stands at a multiple of 64. */
  predicate Due(s: State, n: nat) { (s.checks + n) % 64 == 0 }

  lemma DueStep(c: nat, n: nat)
    requires c < U32
    ensures ((c + 1) % U32 + n) % 64 == (c + 1 + n) % 64
  {
    if c == U32 - 1 {
      assert (c + 1) % U32 == 0 && U32 == 0x400_0000 * 64;
    } else {
      assert (c + 1) % U32 == c + 1;
    }
  }

  /** The gate counts unforced checks only, and the counter's wrap does not show in it. */
  lemma {:induction false} StridePhase(s: State, events: seq<Event>)
    requires s.Valid() && AllValid(events) && Armed(s)
    ensures StrideOpen(Run(s, events)) <==> Due(s, Unforced(events))
    decreases |events|
  {
    if events != [] {
      StridePhase(Check(s, events[0]).0, events[1..]);
      if !events[0].force {
        DueStep(s.checks, Unforced(events[1..]));
      }
    }
  }

  /** The clock is at least four milliseconds past `last`, on 64-bit numbers that wrap. */
  predicate Elapsed(last: nat, now: nat) { if last <= now then now - last >= 4 else now + U64 - last >= 4 }

  /** What check `k` of a run does, in the numbers of the run alone. It is looked at when it is forced, or the run's
      every 64th unforced one with the interval elapsed since the last one of those. It refuses exactly when it is
      looked at, the first reading exceeds the ceiling, and so does the second, if there is one; the last reading and
      the ceiling it exceeds are then recorded. */
  lemma RefusalExactly(s: State, events: seq<Event>, k: nat)
    requires s.Valid() && AllValid(events) && k < |events|
    ensures AllValid(events[..k])
    ensures var before, e := Run(s, events[..k]), events[k];
            var (after, outcome) := Check(before, e);
            var gated := (s.checks + Unforced(events[..k])) % 64 == 0 && Elapsed(before.last, e.now);
            var refused := s.enforcing && s.sampling && (e.force || gated) &&
                           e.first.Some? && e.first.value > s.ceiling &&
                           (e.second.Some? ==> e.second.value > s.ceiling);
            (outcome == MemoryExceeded <==> refused) &&
            after == before.(checks := after.checks,
                             last := if s.enforcing && s.sampling && !e.force && gated then e.now else before.last,
                             refusalRss := if !refused then before.refusalRss
                                           else if e.second.Some? then e.second.value else e.first.value,
                             refusalCeiling := if refused then s.ceiling else before.refusalCeiling)
  {
    hide Run, Unforced;
    var before, e := Run(s, events[..k]), events[k];
    if Armed(s) {
      StridePhase(s, events[..k]);
      assert StrideOpen(before) <==> (s.checks + Unforced(events[..k])) % 64 == 0;
    }
    WrapElapsed(before.last, e.now);
    assert before.enforcing == s.enforcing && before.sampling == s.sampling by {
      DialsStay(s, events[..k]);
    }
  }

  lemma WrapElapsed(last: nat, now: nat)
    requires last < U64 && now < U64
    ensures Elapsed(last, now) <==> WrappingSub(now, last) >= INTERVAL_MS
  {
    if last <= now {
      assert now + U64 - last == (now - last) + U64;
    }
  }

  lemma {:induction false} DialsStay(s: State, events: seq<Event>)
    requires s.Valid() && AllValid(events)
    ensures Run(s, events).enforcing == s.enforcing && Run(s, events).sampling == s.sampling
    decreases |events|
  {
    if events != [] {
      DialsStay(Check(s, events[0]).0, events[1..]);
    }
  }

  /** A refusal is reported from its record: in any run from a fresh record, the record is empty until a refusal, and
      never again. */
  lemma {:induction false} RecordFilled(s: State, events: seq<Event>)
    requires s.Valid() && AllValid(events)
    ensures Run(s, events).refusalRss == 0 <==> s.refusalRss == 0 && Refusals(s, events) == 0
    decreases |events|
  {
    if events != [] {
      RecordFilled(Check(s, events[0]).0, events[1..]);
    }
  }

  function Refusals(s: State, events: seq<Event>): nat
    requires s.Valid() && AllValid(events)
    decreases |events|
  {
    if events == [] then 0
    else
      var (after, outcome) := Check(s, events[0]);
      (if outcome == MemoryExceeded then 1 else 0) + Refusals(after, events[1..])
  }

  // ----- The stride gate -----

  function Unforced(events: seq<Event>): nat
  {
    if events == [] then 0 else (if events[0].force then 0 else 1) + Unforced(events[1..])
  }

  /** How many unforced checks pass the stride gate. */
  function Passes(s: State, events: seq<Event>): nat
    requires s.Valid() && AllValid(events)
    decreases |events|
  {
    if events == [] then 0
    else
      (if !events[0].force && StrideOpen(s) then 1 else 0) + Passes(Check(s, events[0]).0, events[1..])
  }

  /** The counter may wrap at any point of the run: the number of passes never shows it. */
  lemma {:induction false} StrideCount(s: State, events: seq<Event>)
    requires s.Valid() && AllValid(events) && Armed(s)
    ensures Passes(s, events) ==
            (s.checks % 64 + Unforced(events) + 64 - 1) / 64 - (s.checks % 64 + 64 - 1) / 64
    decreases |events|
  {
    if events != [] {
      var next := Check(s, events[0]).0;
      StrideCount(next, events[1..]);
      if !events[0].force {
        WrapKeepsStride(s.checks);
        StrideArithmetic(s.checks % 64, Unforced(events[1..]));
      }
    }
  }

  lemma WrapKeepsStride(c: nat)
    requires c < U32
    ensures (c + 1) % U32 % 64 == (c % 64 + 1) % 64
  {
    if c == U32 - 1 {
      assert (c + 1) % U32 == 0;
    } else {
      assert (c + 1) % U32 == c + 1;
    }
  }

  lemma StrideArithmetic(r: nat, n: nat)
    requires r < 64
    ensures var next := (r + 1) % 64;
            (if r == 0 then 1 else 0) + (next + n + 64 - 1) / 64 - (next + 64 - 1) / 64 ==
            (r + n + 1 + 64 - 1) / 64 - (r + 64 - 1) / 64
  {
  }

  /** Any stretch of a run with 64 unforced checks reads the clock exactly once, wrap or no wrap. */
  lemma OncePerStride(s: State, events: seq<Event>)
    requires s.Valid() && AllValid(events) && Armed(s) && Unforced(events) == 64
    ensures Passes(s, events) == 1
  {
    StrideCount(s, events);
  }

  // ----- The time gate -----

  /** The clock never runs backwards. */
  predicate Monotone(from: nat, events: seq<Event>)
  {
    (forall k :: 0 <= k < |events| ==> from <= events[k].now) &&
    forall i, k :: 0 <= i < k < |events| ==> events[i].now <= events[k].now
  }

  lemma {:induction false} LastIsPast(s: State, events: seq<Event>, now: nat)
    requires s.Valid() && AllValid(events) && s.last <= now && (forall k :: 0 <= k < |events| ==> events[k].now <= now)
    ensures Run(s, events).last <= now
    decreases |events|
  {
    if events != [] {
      LastIsPast(Check(s, events[0]).0, events[1..], now);
    }
  }

  lemma {:induction false} LastGrows(s: State, events: seq<Event>)
    requires s.Valid() && AllValid(events) && Monotone(s.last, events)
    ensures s.last <= Run(s, events).last
    decreases |events|
  {
    if events != [] {
      LastGrows(Check(s, events[0]).0, events[1..]);
    }
  }

  lemma RunCons(s: State, e: Event, events: seq<Event>)
    requires s.Valid() && e.Valid() && AllValid(events)
    ensures AllValid([e] + events) && Run(s, [e] + events) == Run(Check(s, e).0, events)
  {
    assert ([e] + events)[1..] == events;
  }

  lemma SampleMarks(s: State, e: Event)
    requires s.Valid() && e.Valid() && !e.force && Samples(s, e)
    ensures Check(s, e).0.last == e.now
  {
  }

  lemma SampleWaits(s: State, e: Event)
    requires s.Valid() && e.Valid() && !e.force && Samples(s, e) && s.last <= e.now
    ensures e.now - s.last >= 4
  {
  }

  /** Under a monotone clock two unforced samples of one run lie at least the interval apart. */
  lemma SamplesApart(s: State, events: seq<Event>, i: nat, k: nat)
    requires s.Valid() && AllValid(events) && Monotone(s.last, events) && i < k < |events|
    requires !events[i].force && Samples(Run(s, events[..i]), events[i])
    requires !events[k].force && Samples(Run(s, events[..k]), events[k])
    ensures events[k].now - events[i].now >= 4
  {
    hide Check, Samples, Run;
    var at := Run(s, events[..i]);
    var next := Check(at, events[i]).0;
    var between := events[i + 1..k];
    assert events[..k] == events[..i] + ([events[i]] + between);
    RunSplit(s, events[..i], [events[i]] + between);
    RunCons(at, events[i], between);
    SampleMarks(at, events[i]);
    LastGrows(next, between);
    LastIsPast(next, between, events[k].now);
    SampleWaits(Run(s, events[..k]), events[k]);
  }

  // ----- The ceiling -----

  datatype MaxRss = Disabled | Bytes(n: nat) | Percent(percent: nat)

  datatype Detection = Found(host: Option<nat>, cgroup: Option<nat>) | Failed

  /** The memory the process can really use. */
  function EffectiveBytes(host: Option<nat>, cgroup: Option<nat>): (r: Option<nat>)
    ensures r.None? <==> host.None? && cgroup.None?
    ensures r.Some? ==> host == r || cgroup == r
    ensures r.Some? ==> (host.Some? ==> r.value <= host.value) && (cgroup.Some? ==> r.value <= cgroup.value)
  {
    match (host, cgroup)
    case (Some(h), Some(c)) => Some(if h < c then h else c)
    case (Some(h), None) => Some(h)
    case (None, Some(c)) => Some(c)
    case (None, None) => None
  }

  /** The share of the effective memory: a saturating 64-bit product, then a division. */
  function CeilingOf(effective: nat, percent: nat): nat
  {
    (if effective * percent < U64 then effective * percent else U64 - 1) / 100
  }

  /** Up to 100 percent, saturation or not, the ceiling never exceeds the effective memory. */
  lemma CeilingBelowEffective(effective: nat, percent: nat)
    requires effective < U64 && percent <= 100
    ensures CeilingOf(effective, percent) <= effective
  {
    ShareAtMost(effective, percent);
    HundredthAtMost(effective * percent, effective);
  }

  lemma ShareAtMost(effective: nat, percent: nat)
    requires percent <= 100
    ensures effective * percent <= effective * 100
  {
    assert effective * (100 - percent) >= 0;
  }

  lemma HundredthAtMost(product: nat, effective: nat)
    requires product <= effective * 100
    ensures (if product < U64 then product else U64 - 1) / 100 <= effective
  {
  }

  /** The ceiling is the exact floor precisely until saturation reaches a full hundred, and the largest 64-bit number's
      hundredth from there on. */
  lemma CeilingExact(effective: nat, percent: nat)
    ensures CeilingOf(effective, percent) == effective * percent / 100 <==> effective * percent < U64 / 100 * 100 + 100
    ensures effective * percent >= U64 ==> CeilingOf(effective, percent) == 0xFFFF_FFFF_FFFF_FFFF / 100
  {
  }

  // ----- The cgroup walk -----

  /** What a limit file says: the word `max`, a 64-bit number, or nothing usable. */
  datatype Reading = Max | Number(n: nat) | Unreadable

  /** The two limit files of one directory. */
  datatype Level = Level(v2: Reading, v1: Reading)
  {
    /** `n` is a finite limit here: any number under version 2, a number below the huge sentinel under version 1. */
    predicate Limits(n: nat)
    {
      v2 == Number(n) || (v1 == Number(n) && n < 0x1000_0000_0000_0000)
    }
  }

  /** The non-empty parts of a path. */
  function Segments(path: Bytes): (r: seq<Bytes>)
    ensures forall segment :: segment in r ==> segment != [] && '/' !in segment
  {
    JoinSplit(TrimSlashes(path), '/');
    NonEmpty(Split(TrimSlashes(path), '/'))
  }

  function TrimSlashes(path: Bytes): Bytes
    decreases |path|
  {
    if path == [] then path
    else if path[0] == '/' then TrimSlashes(path[1..])
    else if path[|path| - 1] == '/' then TrimSlashes(path[..|path| - 1])
    else path
  }

  function NonEmpty(fields: seq<Bytes>): (r: seq<Bytes>)
    ensures forall field :: field in r <==> field in fields && field != []
  {
    if fields == [] then []
    else (if fields[0] == [] then [] else [fields[0]]) + NonEmpty(fields[1..])
  }

  /** Of a path put together from plain parts, the parts come back; and an empty part anywhere, which is a slash
      doubled, led or trailed, changes nothing. */
  lemma SegmentsAre(a: seq<Bytes>, b: seq<Bytes>)
    requires a + b != [] && Plain(a) && Plain(b)
    ensures Segments(Join(a + [[]] + b, '/')) == Segments(Join(a + b, '/'))
    ensures [] !in a + b ==> Segments(Join(a + b, '/')) == a + b
  {
    hide Segments, Join, NonEmpty;
    SegmentsOfJoin(a + [[]] + b);
    SegmentsOfJoin(a + b);
    NonEmptyOf(a + [[]], b);
    NonEmptyOf(a, [[]]);
    NonEmptyOf(a, b);
    assert NonEmpty([[]]) == [] by { EmptyPart(); }
    if [] !in a + b {
      AllNonEmpty(a + b);
    }
  }

  predicate Plain(parts: seq<Bytes>) { forall k :: 0 <= k < |parts| ==> '/' !in parts[k] }

  lemma EmptyPart()
    ensures NonEmpty([[]]) == []
  {
  }

  lemma SegmentsOfJoin(parts: seq<Bytes>)
    requires parts != [] && Plain(parts)
    ensures Segments(Join(parts, '/')) == NonEmpty(parts)
  {
    hide Join, NonEmpty, TrimSlashes;
    SplitJoin(parts, '/');
    TrimHarmless(Join(parts, '/'));
  }

  lemma {:induction false} NonEmptyOf(a: seq<Bytes>, b: seq<Bytes>)
    ensures NonEmpty(a + b) == NonEmpty(a) + NonEmpty(b)
  {
    if a == [] {
      assert a + b == b;
    } else {
      assert (a + b)[1..] == a[1..] + b;
      NonEmptyOf(a[1..], b);
    }
  }

  lemma {:induction false} AllNonEmpty(fields: seq<Bytes>)
    requires [] !in fields
    ensures NonEmpty(fields) == fields
  {
    if fields != [] {
      AllNonEmpty(fields[1..]);
    }
  }

  lemma {:induction false} SplitJoin(parts: seq<Bytes>, d: Byte)
    requires parts != [] && forall k :: 0 <= k < |parts| ==> d !in parts[k]
    ensures Split(Join(parts, d), d) == parts
  {
    var first := parts[0];
    var path := Join(parts, d);
    if |parts| == 1 {
      IndexOfUnique(path, d, |path|);
      assert path[..|path|] == path;
    } else {
      SplitJoin(parts[1..], d);
      assert path[..|first|] == first && path[|first|] == d && path[|first| + 1..] == Join(parts[1..], d);
      SplitStep(path, d, |first|);
    }
  }

  /** Trimming takes off empty parts only. */
  lemma {:induction false} TrimHarmless(path: Bytes)
    ensures NonEmpty(Split(TrimSlashes(path), '/')) == NonEmpty(Split(path, '/'))
    decreases |path|
  {
    hide Split, NonEmpty;
    if path != [] && path[0] == '/' {
      LeadingSlash(path[1..]);
      assert path == ['/'] + path[1..];
      TrimHarmless(path[1..]);
    } else if path != [] && path[|path| - 1] == '/' {
      var rest := path[..|path| - 1];
      SplitTrailing(rest);
      assert path == rest + ['/'];
      TrimHarmless(rest);
      NonEmptyOf(Split(rest, '/'), [[]]);
      EmptyPart();
    }
  }

  lemma LeadingSlash(rest: Bytes)
    ensures NonEmpty(Split(['/'] + rest, '/')) == NonEmpty(Split(rest, '/'))
  {
    hide Split;
    var path := ['/'] + rest;
    assert path[..0] == [] && path[1..] == rest;
    SplitStep(path, '/', 0);
    assert ([[]] + Split(rest, '/'))[1..] == Split(rest, '/');
  }

  lemma {:induction false} SplitTrailing(path: Bytes)
    ensures Split(path + ['/'], '/') == Split(path, '/') + [[]]
    decreases |path|
  {
    var i := IndexOf(path, '/');
    var longer := path + ['/'];
    assert longer[..i] == path[..i];
    if i == |path| {
      SplitStep(longer, '/', i);
      assert longer[i + 1..] == [] && path[..i] == path;
    } else {
      assert longer[i + 1..] == path[i + 1..] + ['/'];
      SplitStep(longer, '/', i);
      SplitTrailing(path[i + 1..]);
    }
  }

  /** `n` is a finite limit of the group at `path` or of one of its ancestors, the root included. */
  ghost predicate LimitedBy(levels: seq<Bytes> -> Level, path: seq<Bytes>, n: nat)
  {
    exists k :: 0 <= k <= |path| && levels(path[..k]).Limits(n)
  }

  /** From the deepest group up: the least finite limit of any level, and none exactly when no level has one. */
  method DetectCgroupLimit(path: Bytes, levels: seq<Bytes> -> Level) returns (least: Option<nat>)
    ensures least.None? <==> forall n :: !LimitedBy(levels, Segments(path), n)
    ensures least.Some? ==> LimitedBy(levels, Segments(path), least.value)
    ensures least.Some? ==> forall n :: LimitedBy(levels, Segments(path), n) ==> least.value <= n
  {
    ghost var all := Segments(path);
    var segments := Segments(path);
    least := None;
    ghost var from := |all| + 1;
    while true
      invariant segments == all[..|segments|] && |segments| <= |all| && from == |segments| + 1
      invariant least.Some? ==> LimitedBy(levels, all, least.value)
      invariant forall k, n :: from <= k <= |all| && levels(all[..k]).Limits(n) ==> least.Some? && least.value <= n
      decreases |segments|
    {
      var level := levels(segments);
      if level.v2.Number? {
        least := Some(Least(least, level.v2.n));
      }
      if level.v1.Number? && level.v1.n < 0x1000_0000_0000_0000 {
        least := Some(Least(least, level.v1.n));
      }
      assert least.Some? ==> LimitedBy(levels, all, least.value) by {
        if least.Some? && level.Limits(least.value) {
          assert levels(all[..|segments|]).Limits(least.value);
        }
      }
      from := from - 1;
      if segments == [] {
        break;
      }
      segments := segments[..|segments| - 1];
    }
    assert forall n :: LimitedBy(levels, all, n) ==> least.Some? && least.value <= n;
  }

  function Least(seen: Option<nat>, n: nat): nat
  {
    if seen.Some? && seen.value < n then seen.value else n
  }
}
