/** The compile-error excerpt with its caret line, and the bounded text diagnostics are written to. */
module Excerpt {
  import opened Bytes

  const WINDOW: nat := 120

  // ----- The caret excerpt -----

  /** Where the line of position `start` begins: after the last newline before it. */
  function LineStart(source: Bytes, start: nat): (r: nat)
    requires start <= |source|
    ensures r <= start && '\n' !in source[r..start]
    ensures r > 0 ==> source[r - 1] == '\n'
  {
    if start == 0 || source[start - 1] == '\n' then start
    else
      var r := LineStart(source, start - 1);
      assert source[r..start] == source[r..start - 1] + [source[start - 1]];
      r
  }

  /** Where it ends: at the first newline at or after the position, or with the source. */
  function LineEnd(source: Bytes, start: nat): (r: nat)
    requires start <= |source|
    ensures start <= r <= |source| && '\n' !in source[start..r]
    ensures r < |source| ==> source[r] == '\n'
  {
    start + IndexOf(source[start..], '\n')
  }

  /** What the excerpt shows: a stretch of the source, cut marks on either side, the caret's offset and length. */
  datatype Excerpt = Excerpt(from: nat, to: nat, cutLeft: bool, cutRight: bool, carets: nat)

  function CaretExcerpt(source: Bytes, start: nat, end: nat): Option<Excerpt>
  {
    if start > |source| then None
    else
      var lineStart := LineStart(source, start);
      var lineEnd := LineEnd(source, start);
      var column := start - lineStart;
      var bound := Max(lineEnd, start + 1);
      var caretWidth := (if end < start + 1 then start + 1 else if end > bound then bound else end) - start;
      var cutLeft := column > WINDOW / 2;
      var from := if cutLeft then start - WINDOW / 2 else lineStart;
      var cutRight := lineEnd - from > WINDOW;
      var to := if cutRight then from + WINDOW else lineEnd;
      Some(Excerpt(from, to, cutLeft, cutRight, Max(Min(caretWidth, Max(to, start) - start), 1)))
  }

  /** For every source, start and end: an excerpt exists exactly for a start inside the source or at its end. It shows
      one line only, from the line's own start or, behind a cut mark, from 60 bytes before the start; and up to the
      line's own end or, before a cut mark, 120 bytes of it. The carets cover exactly the shown part of the span, or one
      column when that is empty. */
  lemma ExcerptShows(source: Bytes, start: nat, end: nat)
    ensures CaretExcerpt(source, start, end).Some? <==> start <= |source|
    ensures start <= |source| ==>
              var e := CaretExcerpt(source, start, end).value;
              e.from <= start <= e.to <= |source| && e.to - e.from <= 120 && '\n' !in source[e.from..e.to] &&
              (e.cutLeft <==> e.from > 0 && source[e.from - 1] != '\n') &&
              (e.cutRight <==> e.to < |source| && source[e.to] != '\n') &&
              (if e.cutLeft then start - e.from == 60 else start - e.from <= 60) &&
              (e.cutRight ==> e.to - e.from == 120) &&
              e.carets == (if end <= start || start == e.to then 1
                           else if end < e.to then end - start else e.to - start)
  {
    hide CaretExcerpt, LineStart, LineEnd, Max, Min;
    ExcerptExists(source, start, end);
    if start <= |source| {
      ExcerptNumbers(source, start, end);
      OneLine(source, start);
    }
  }

  /** A line is shown whole exactly when it fits the window and the start is at most 60 bytes into it. */
  lemma ShownWhole(source: Bytes, start: nat, end: nat, a: nat, b: nat)
    requires a <= start <= b <= |source| && '\n' !in source[a..b]
    requires (a > 0 ==> source[a - 1] == '\n') && (b < |source| ==> source[b] == '\n')
    ensures var e := CaretExcerpt(source, start, end);
            e.Some? &&
            (e.value.from == a && e.value.to == b && !e.value.cutLeft && !e.value.cutRight <==>
             start - a <= 60 && b - a <= 120)
  {
    hide CaretExcerpt;
    ExcerptShows(source, start, end);
    var e := CaretExcerpt(source, start, end).value;
    assert forall k :: a <= k < b ==> source[k] in source[a..b];
    assert forall k :: e.from <= k < e.to ==> source[k] in source[e.from..e.to];
    assert e.from >= a && e.to <= b;
  }

  /** A line of 61 bytes, well inside the window, that is cut all the same. */
  lemma FittingLineCut()
    ensures var line := Repeat('a', 61); CaretExcerpt(line, 61, 61) == Some(Excerpt(1, 61, true, false, 1))
  {
    hide CaretExcerpt, Repeat;
    var line := Repeat('a', 61);
    ExcerptShows(line, 61, 61);
    var e := CaretExcerpt(line, 61, 61).value;
    assert e.to == 61;
    assert e.cutLeft ==> e.from == 1;
  }

  lemma ExcerptExists(source: Bytes, start: nat, end: nat)
    ensures CaretExcerpt(source, start, end).Some? <==> start <= |source|
  {
  }

  /** The arithmetic: the shown stretch lies inside the line around the start, and is cut exactly when it is shorter. */
  lemma ExcerptNumbers(source: Bytes, start: nat, end: nat)
    requires start <= |source|
    ensures var e := CaretExcerpt(source, start, end).value;
            var a, b := LineStart(source, start), LineEnd(source, start);
            a <= e.from <= start <= e.to <= b && e.to - e.from <= 120 &&
            (e.cutLeft <==> e.from > a) && (e.cutRight <==> e.to < b) &&
            (if e.cutLeft then start - e.from == 60 else start - e.from <= 60) &&
            (e.cutRight ==> e.to - e.from == 120) &&
            e.carets == (if end <= start || start == e.to then 1
                         else if end < e.to then end - start else e.to - start)
  {
    hide LineStart, LineEnd;
  }

  /** The line around a position has no newline in it, and one, or the source's edge, on either side. */
  lemma OneLine(source: Bytes, start: nat)
    requires start <= |source|
    ensures var a, b := LineStart(source, start), LineEnd(source, start);
            a <= start <= b <= |source| && (forall k :: a <= k < b ==> source[k] != '\n') &&
            (a > 0 ==> source[a - 1] == '\n') && (b < |source| ==> source[b] == '\n')
  {
    hide LineStart, LineEnd;
    var a, b := LineStart(source, start), LineEnd(source, start);
    forall k | a <= k < b
      ensures source[k] != '\n'
    {
      if k < start {
        assert source[k] in source[a..start];
      } else {
        assert source[k] in source[start..b];
      }
    }
  }

  // ----- The two lines as text -----

  function Repeat(c: char, n: nat): (r: string)
    ensures |r| == n && forall k :: 0 <= k < n ==> r[k] == c
  {
    if n == 0 then [] else [c] + Repeat(c, n - 1)
  }

  function Mark(cut: bool): string { if cut then ['\U{2026}'] else [] }

  function TopLine(source: Bytes, e: Excerpt, lossy: Bytes -> string): string
    requires e.from <= e.to <= |source|
  {
    "  " + Mark(e.cutLeft) + lossy(source[e.from..e.to]) + Mark(e.cutRight)
  }

  function CaretLine(start: nat, e: Excerpt): string
    requires e.from <= start
  {
    "  " + Repeat(' ', |Mark(e.cutLeft)| + (start - e.from)) + Repeat('^', e.carets)
  }

  predicate Ascii(s: Bytes) { forall k :: 0 <= k < |s| ==> s[k] < '\U{80}' }

  /** On an ASCII line every caret stands under the byte it points at: the first under byte `start`, and there is one
      exactly under each shown byte of the span. */
  lemma CaretsStandUnder(source: Bytes, start: nat, end: nat, lossy: Bytes -> string, k: nat)
    requires start <= |source|
    requires var e := CaretExcerpt(source, start, end).value;
             e.from <= e.to <= |source| && e.from <= k < e.to && Ascii(source[e.from..e.to]) &&
             lossy(source[e.from..e.to]) == source[e.from..e.to]
    ensures var e := CaretExcerpt(source, start, end).value;
            e.from <= start &&
            var at := 2 + |Mark(e.cutLeft)| + (k - e.from);
            var top, carets := TopLine(source, e, lossy), CaretLine(start, e);
            at < |top| && top[at] == source[k] &&
            (at < |carets| && carets[at] == '^' <==> k == start || start < k < end) &&
            (top[2] == '\U{2026}' <==> e.cutLeft) && (top[|top| - 1] == '\U{2026}' <==> e.cutRight) &&
            forall j :: 0 <= j < |carets| ==> carets[j] == ' ' || carets[j] == '^'
  {
    ExcerptShows(source, start, end);
    var e := CaretExcerpt(source, start, end).value;
    hide CaretExcerpt, TopLine, CaretLine, Mark;
    TopLineAt(source, e, lossy, k);
    TopLineMarks(source, e, lossy);
    CaretLineAt(start, e, k);
  }

  lemma TopLineAt(source: Bytes, e: Excerpt, lossy: Bytes -> string, k: nat)
    requires e.from <= e.to <= |source| && e.from <= k < e.to && lossy(source[e.from..e.to]) == source[e.from..e.to]
    ensures var at, top := 2 + |Mark(e.cutLeft)| + (k - e.from), TopLine(source, e, lossy);
            at < |top| && top[at] == source[k]
  {
    hide Mark;
    var shown := source[e.from..e.to];
    assert TopLine(source, e, lossy) == ("  " + Mark(e.cutLeft)) + shown + Mark(e.cutRight);
  }

  /** The two marks stand around the shown text, which has none itself. */
  lemma TopLineMarks(source: Bytes, e: Excerpt, lossy: Bytes -> string)
    requires e.from < e.to <= |source| && Ascii(source[e.from..e.to]) &&
             lossy(source[e.from..e.to]) == source[e.from..e.to]
    ensures var top := TopLine(source, e, lossy);
            |top| > 2 && (top[2] == '\U{2026}' <==> e.cutLeft) && (top[|top| - 1] == '\U{2026}' <==> e.cutRight)
  {
  }

  lemma CaretLineAt(start: nat, e: Excerpt, k: nat)
    requires e.from <= start && e.from <= k
    ensures var at, carets := 2 + |Mark(e.cutLeft)| + (k - e.from), CaretLine(start, e);
            (at < |carets| && carets[at] == '^' <==> start <= k < start + e.carets) &&
            forall j :: 0 <= j < |carets| ==> carets[j] == ' ' || carets[j] == '^'
  {
    hide Mark, Repeat;
    var pad := "  " + Repeat(' ', |Mark(e.cutLeft)| + (start - e.from));
    assert CaretLine(start, e) == pad + Repeat('^', e.carets);
  }

  // ----- Bounded text -----

  class BoundedText {
    var value: Bytes
    const maxLen: nat

    predicate Valid()
      reads this
    {
      |value| <= maxLen
    }

    constructor (maxLen: nat)
      ensures Valid() && value == [] && this.maxLen == maxLen
    {
      value := [];
      this.maxLen := maxLen;
    }

    /** All of a piece, or, when it does not fit, none of it. */
    method WriteStr(piece: Bytes) returns (ok: bool)
      requires Valid()
      modifies this
      ensures Valid() && (ok <==> |old(value)| + |piece| <= maxLen)
      ensures value == if ok then old(value) + piece else old(value)
    {
      var finalLen := |value| + |piece|;
      if finalLen > maxLen {
        return false;
      }
      value := value + piece;
      return true;
    }
  }

  const MAX_DIAGNOSTIC_BYTES: nat := 4096

  /** A diagnostic is rendered whole or not at all: exactly when all its pieces together fit. */
  method RenderDiagnostic(pieces: seq<Bytes>) returns (text: Option<Bytes>)
    ensures text == if |Flatten(pieces)| <= 4096 then Some(Flatten(pieces)) else None
  {
    var output := new BoundedText(MAX_DIAGNOSTIC_BYTES);
    for k := 0 to |pieces|
      invariant output.Valid() && output.value == Flatten(pieces[..k])
    {
      assert pieces[..k + 1] == pieces[..k] + [pieces[k]];
      FlattenAppend(pieces[..k], pieces[k]);
      var ok := output.WriteStr(pieces[k]);
      if !ok {
        FlattenGrows(pieces, k + 1);
        return None;
      }
    }
    assert pieces[..|pieces|] == pieces;
    return Some(output.value);
  }
}
