/** The colour pass over tree-shape frames: one node per line, a path, ` = `, an optional anchor and a term. */
module Terminal {
  import opened Bytes
  import opened Colour
  import opened Strip

  // ----- The pass as a function of the remaining bytes -----

  function SpaceRun(s: Bytes): (n: nat)
    ensures n <= |s| && forall k :: 0 <= k < n ==> s[k] == ' '
    ensures n < |s| ==> s[n] != ' '
  {
    if s == [] || s[0] != ' ' then 0 else 1 + SpaceRun(s[1..])
  }

  function DigitRun(s: Bytes): (n: nat)
    ensures n <= |s| && forall k :: 0 <= k < n ==> IsDigit(s[k])
    ensures n < |s| ==> !IsDigit(s[n])
  {
    if s == [] || !IsDigit(s[0]) then 0 else 1 + DigitRun(s[1..])
  }

  /** The length of the `[...]#N` segment at the head of `s`. */
  function SegmentRun(s: Bytes): (n: nat)
    requires s != [] && s[0] == '['
    ensures 0 < n <= |s|
  {
    var b := 1 + if |s| > 1 && s[1] == '"' then StringEnd(s[1..], 1) else DigitRun(s[1..]);
    var c := if b < |s| && s[b] == ']' then b + 1 else b;
    if c < |s| && s[c] == '#' then c + 1 + DigitRun(s[c + 1..]) else c
  }

  /** The length of the run of path segments at the head of `s`. */
  function PathRun(s: Bytes): (n: nat)
    ensures n <= |s|
    decreases |s|
  {
    if s == [] || s[0] != '[' then 0 else SegmentRun(s) + PathRun(s[SegmentRun(s)..])
  }

  /** One separator byte, or an anchor `&N`. */
  function SeparatorStep(s: Bytes): (n: nat)
    ensures n <= |s|
  {
    if s == [] then 0
    else if s[0] == ' ' || s[0] == '=' then 1
    else if s[0] == '&' then 1 + DigitRun(s[1..])
    else 0
  }

  /** The length of the separator and anchor at the head of `s`. */
  function SeparatorRun(s: Bytes): (n: nat)
    ensures n <= |s|
    decreases |s|
  {
    var n := SeparatorStep(s);
    if n == 0 then 0 else n + SeparatorRun(s[n..])
  }

  /** The end of an `array(N)` or `object(N)` term: past its `)`, or at the end of the line. */
  function ContainerTermEnd(s: Bytes): (n: nat)
    ensures n <= |s| && forall k :: 0 <= k < n - 1 ==> s[k] !in [')', '\n']
    ensures n < |s| ==> (n > 0 && s[n - 1] == ')') || s[n] == '\n'
    ensures n > 0 ==> s[n - 1] != '\n'
  {
    if s == [] || s[0] == '\n' then 0 else if s[0] == ')' then 1 else 1 + ContainerTermEnd(s[1..])
  }

  /** The coloured head of one term; `pieces` covers exactly the first `width` bytes. */
  datatype Head = Head(pieces: seq<Piece>, width: nat)

  function TermHead(s: Bytes): (h: Head)
    ensures h.width <= |s|
  {
    if s == [] then Head([], 0)
    else if s[0] == '"' then Head([Span(SlotString, s[..StringEnd(s, 1)])], StringEnd(s, 1))
    else if s[0] == 't' && StartsWith(s, "true") then Head([Span(SlotTrue, s[..4])], 4)
    else if s[0] == 'f' && StartsWith(s, "false") then Head([Span(SlotFalse, s[..5])], 5)
    else if s[0] == 'n' && StartsWith(s, "null") then Head([Span(SlotNull, s[..4])], 4)
    else if s[0] == 'a' && StartsWith(s, "array(")
         then Head([Span(SlotArray, s[..ContainerTermEnd(s)])], ContainerTermEnd(s))
    else if s[0] == 'o' && StartsWith(s, "object(")
         then Head([Span(SlotObject, s[..ContainerTermEnd(s)])], ContainerTermEnd(s))
    else if s[0] == 't' && StartsWith(s, "tag(") then TagHead(s)
    else if IsDigit(s[0]) || s[0] == '-' then Head([Span(SlotNumber, s[..NumberRun(s)])], NumberRun(s))
    else Head([], 0)
  }

  function TagHead(s: Bytes): (h: Head)
    requires StartsWith(s, "tag(")
    ensures h.width <= |s|
  {
    if |s| > 4 && s[4] == '"' then
      var n := StringEnd(s[4..], 1);
      Head(Uncoloured(s[..4]) + [Span(SlotString, s[4..4 + n])], 4 + n)
    else Head(Uncoloured(s[..4]), 4)
  }

  /** Everything up to and including the first LF, or all of `s`. */
  function ThroughLf(s: Bytes): (n: nat)
    ensures n <= |s| && (s != [] ==> n > 0)
  {
    var e := IndexOf(s, '\n');
    if e < |s| then e + 1 else e
  }

  /** A node line's pieces: the path in the key colour, separator and rest of the line uncoloured. */
  function LinePieces(path: Bytes, separator: Bytes, term: seq<Piece>, tail: Bytes): seq<Piece>
  {
    [Span(SlotKey, path)] + Uncoloured(separator) + term + Uncoloured(tail)
  }

  /** A node line from its `$` up to its LF: path, separator and anchor, term, rest of the line. */
  function NodeHead(r: Bytes): (h: Head)
    requires r != []
    ensures 0 < h.width <= |r|
  {
    var p := 1 + PathRun(r[1..]);
    var afterPath := r[p..];
    var q := SeparatorRun(afterPath);
    var afterSeparator := afterPath[q..];
    var term := TermHead(afterSeparator);
    var afterTerm := afterSeparator[term.width..];
    var e := IndexOf(afterTerm, '\n');
    Head(LinePieces(r[..p], afterPath[..q], term.pieces, afterTerm[..e]), p + q + term.width + e)
  }

  /** A line without its indent. */
  function BodyHead(r: Bytes): (h: Head)
    ensures h.width <= |r| && (r != [] ==> 0 < h.width)
  {
    if r == [] then Head([], 0)
    else if r[0] != '$' then Head(Uncoloured(r[..ThroughLf(r)]), ThroughLf(r))
    else NodeHead(r)
  }

  /** One step of the outer loop on non-empty input: the pieces written and the bytes consumed. */
  function LineHead(s: Bytes): (h: Head)
    requires s != []
    ensures 0 < h.width <= |s|
  {
    var k := SpaceRun(s);
    var body := BodyHead(s[k..]);
    Head(Uncoloured(s[..k]) + body.pieces, k + body.width)
  }

  function TerminalScan(s: Bytes): seq<Piece>
    decreases |s|
  {
    if s == [] then [] else LineHead(s).pieces + TerminalScan(s[LineHead(s).width..])
  }

  function TerminalColoured(p: Palette, item: Bytes): Bytes { Emit(p, TerminalScan(item)) }

  /** A line that is no node line, indented or not, is copied without any colour, and the scan goes on behind it. */
  lemma OtherLineCopied(indent: Bytes, line: Bytes, rest: Bytes)
    requires (forall k :: 0 <= k < |indent| ==> indent[k] == ' ') && '\n' !in line
    requires line == [] || line[0] !in [' ', '$']
    ensures TerminalScan(indent + line + ['\n'] + rest) == Uncoloured(indent + line + ['\n']) + TerminalScan(rest)
  {
    hide TerminalScan, Uncoloured;
    var body := line + ['\n'];
    var s := indent + (body + rest);
    assert s == indent + line + ['\n'] + rest && indent + body == indent + line + ['\n'];
    IndentOnly(indent, body + rest);
    assert s[|indent|..] == body + rest && s[..|indent|] == indent;
    assert (body + rest)[..|line|] == line && (body + rest)[|line|] == '\n';
    IndexOfUnique(body + rest, '\n', |line|);
    assert (body + rest)[..|body|] == body;
    UncolouredJoin(indent, body);
    assert LineHead(s) == Head(Uncoloured(indent) + Uncoloured(body), |indent| + |body|);
    ScanLines(s);
    assert s[|indent| + |body|..] == rest;
  }

  lemma {:induction false} IndentOnly(indent: Bytes, rest: Bytes)
    requires (forall k :: 0 <= k < |indent| ==> indent[k] == ' ') && (rest != [] ==> rest[0] != ' ')
    ensures SpaceRun(indent + rest) == |indent|
  {
    if indent == [] {
      assert indent + rest == rest;
    } else {
      assert (indent + rest)[1..] == indent[1..] + rest;
      IndentOnly(indent[1..], rest);
    }
  }

  lemma {:induction false} UncolouredJoin(a: Bytes, b: Bytes)
    ensures Uncoloured(a + b) == Uncoloured(a) + Uncoloured(b)
  {
    if a == [] {
      assert a + b == b;
    } else {
      assert (a + b)[1..] == a[1..] + b && (a + b)[..1] == a[..1];
      UncolouredJoin(a[1..], b);
    }
  }

  lemma ScanLines(s: Bytes)
    requires s != []
    ensures TerminalScan(s) == LineHead(s).pieces + TerminalScan(s[LineHead(s).width..])
  {
  }

  // ----- Strip identity -----

  lemma {:induction false} TextOfAppend(a: seq<Piece>, b: seq<Piece>)
    ensures TextOf(a + b) == TextOf(a) + TextOf(b)
  {
    if a == [] {
      assert a + b == b;
    } else {
      assert (a + b)[1..] == a[1..] + b;
      TextOfAppend(a[1..], b);
    }
  }

  /** The pieces carry exactly `text`, and copied bytes go one by one. */
  ghost predicate Covers(pieces: seq<Piece>, text: Bytes)
  {
    TextOf(pieces) == text && forall k :: 0 <= k < |pieces| && pieces[k].Plain? ==> |pieces[k].text| == 1
  }

  lemma CoversAppend(a: seq<Piece>, x: Bytes, b: seq<Piece>, y: Bytes)
    requires Covers(a, x) && Covers(b, y)
    ensures Covers(a + b, x + y)
  {
    TextOfAppend(a, b);
  }

  lemma CoversSpan(slot: Slot, text: Bytes)
    ensures Covers([Span(slot, text)], text)
  {
    assert [Span(slot, text)][1..] == [];
  }

  lemma {:induction false} CoversUncoloured(bytes: Bytes)
    ensures Covers(Uncoloured(bytes), bytes)
  {
    if bytes != [] {
      CoversUncoloured(bytes[1..]);
      assert Uncoloured(bytes)[1..] == Uncoloured(bytes[1..]);
    }
  }

  lemma TermCovers(s: Bytes)
    ensures Covers(TermHead(s).pieces, s[..TermHead(s).width])
  {
    if s != [] && s[0] == 't' && StartsWith(s, "tag(") {
      CoversUncoloured(s[..4]);
      if |s| > 4 && s[4] == '"' {
        var n := StringEnd(s[4..], 1);
        CoversSpan(SlotString, s[4..4 + n]);
        CoversAppend(Uncoloured(s[..4]), s[..4], [Span(SlotString, s[4..4 + n])], s[4..4 + n]);
        assert s[..4 + n] == s[..4] + s[4..4 + n];
      }
    }
  }

  lemma LinePiecesCover(path: Bytes, separator: Bytes, pieces: seq<Piece>, term: Bytes, tail: Bytes)
    requires Covers(pieces, term)
    ensures Covers(LinePieces(path, separator, pieces, tail), path + separator + term + tail)
  {
    hide Covers, Uncoloured;
    CoversSpan(SlotKey, path);
    CoversUncoloured(separator);
    CoversUncoloured(tail);
    CoversAppend([Span(SlotKey, path)], path, Uncoloured(separator), separator);
    CoversAppend([Span(SlotKey, path)] + Uncoloured(separator), path + separator, pieces, term);
    CoversAppend([Span(SlotKey, path)] + Uncoloured(separator) + pieces, path + separator + term, Uncoloured(tail),
                 tail);
  }

  /** Four successive cuts put together again. */
  lemma Recut(r: Bytes, p: nat, q: nat, t: nat, e: nat)
    requires p + q + t + e <= |r|
    ensures r[..p] + r[p..][..q] + r[p..][q..][..t] + r[p..][q..][t..][..e] == r[..p + q + t + e]
  {
    assert r[p..][q..] == r[p + q..] && r[p + q..][t..] == r[p + q + t..];
  }

  lemma NodeCovers(r: Bytes)
    requires r != []
    ensures Covers(NodeHead(r).pieces, r[..NodeHead(r).width])
  {
    hide Covers, LinePieces, TermHead, PathRun, SeparatorRun, IndexOf;
    var p := 1 + PathRun(r[1..]);
    var q := SeparatorRun(r[p..]);
    var rest := r[p..][q..];
    var term := TermHead(rest);
    var tail := rest[term.width..];
    var e := IndexOf(tail, '\n');
    TermCovers(rest);
    LinePiecesCover(r[..p], r[p..][..q], term.pieces, rest[..term.width], tail[..e]);
    Recut(r, p, q, term.width, e);
  }

  lemma LineCovers(s: Bytes)
    requires s != []
    ensures Covers(LineHead(s).pieces, s[..LineHead(s).width])
  {
    hide Covers, Uncoloured, NodeHead, SpaceRun, ThroughLf;
    var k := SpaceRun(s);
    var r := s[k..];
    var body := BodyHead(r);
    CoversUncoloured(s[..k]);
    assert Covers(body.pieces, r[..body.width]) by {
      if r == [] {
        NothingCovers();
      } else if r[0] == '$' {
        NodeCovers(r);
      } else {
        CoversUncoloured(r[..ThroughLf(r)]);
      }
    }
    CoversAppend(Uncoloured(s[..k]), s[..k], body.pieces, r[..body.width]);
    assert s[..k + body.width] == s[..k] + r[..body.width];
  }

  lemma NothingCovers()
    ensures Covers([], [])
  {
  }

  lemma {:induction false} TerminalScanCovers(s: Bytes)
    ensures Covers(TerminalScan(s), s)
    decreases |s|
  {
    hide LineHead, Covers;
    if s == [] {
      NothingCovers();
    } else {
      var h := LineHead(s);
      LineCovers(s);
      TerminalScanCovers(s[h.width..]);
      CoversAppend(h.pieces, s[..h.width], TerminalScan(s[h.width..]), s[h.width..]);
      assert s == s[..h.width] + s[h.width..];
    }
  }

  /** Strip identity of the pass, on every byte string and palette: it holds exactly when no token holds ESC `[` and no
      two copied bytes are ESC `[`. */
  lemma TerminalStripExact(p: Palette, item: Bytes)
    ensures Stripped(TerminalColoured(p, item)) == item <==>
            AllClean(TerminalScan(item)) && Separate(TerminalScan(item))
  {
    hide TerminalScan, TextOf;
    TerminalScanCovers(item);
    StripEmit(p, TerminalScan(item));
  }

  /** On every frame without ESC, well formed or not, removing the spans gives the frame back. */
  lemma TerminalStripIdentity(p: Palette, item: Bytes)
    requires ESC !in item
    ensures Stripped(TerminalColoured(p, item)) == item
  {
    hide TerminalScan, TextOf;
    TerminalScanCovers(item);
    EscFreeIsClean(TerminalScan(item));
    EscFreeIsSeparate(TerminalScan(item));
    TerminalStripExact(p, item);
  }

  lemma EscFreeIsSeparate(pieces: seq<Piece>)
    requires forall k :: 0 <= k < |pieces| ==> ESC !in pieces[k].text
    requires forall k :: 0 <= k < |pieces| && pieces[k].Plain? ==> |pieces[k].text| == 1
    ensures Separate(pieces)
  {
    assert forall k :: 0 <= k < |pieces| ==> pieces[k] != Plain([ESC]) by {
      forall k | 0 <= k < |pieces|
        ensures pieces[k] != Plain([ESC])
      {
        assert ESC in Plain([ESC]).text;
      }
    }
  }

  // ----- The loops -----

  method CopyBytes(item: Bytes, from: nat, to: nat, out: Buffer)
    requires from <= to <= |item|
    modifies out
    ensures out.data == old(out.data) + item[from..to]
  {
    out.Extend(item[from..to]);
  }

  method SkipSpaces(item: Bytes, start: nat, out: Buffer) returns (i: nat)
    requires start <= |item|
    modifies out
    ensures i == start + SpaceRun(item[start..]) && i <= |item|
    ensures out.data == old(out.data) + item[start..i]
  {
    i := start;
    while i < |item| && item[i] == ' '
      invariant start <= i <= |item|
      invariant i + SpaceRun(item[i..]) == start + SpaceRun(item[start..])
      invariant out.data == old(out.data) + item[start..i]
    {
      assert item[i..][1..] == item[i + 1..] && item[start..i + 1] == item[start..i] + [' '];
      out.Push(' ');
      i := i + 1;
    }
  }

  method SkipDigits(item: Bytes, start: nat) returns (i: nat)
    requires start <= |item|
    ensures i == start + DigitRun(item[start..]) && i <= |item|
  {
    i := start;
    while i < |item| && IsDigit(item[i])
      invariant start <= i <= |item|
      invariant i + DigitRun(item[i..]) == start + DigitRun(item[start..])
    {
      assert item[i..][1..] == item[i + 1..];
      i := i + 1;
    }
  }

  /** The copy loop of a line that is no node line: through its LF. */
  method CopyThroughLf(item: Bytes, start: nat, out: Buffer) returns (i: nat)
    requires start < |item|
    modifies out
    ensures i == start + ThroughLf(item[start..]) && start < i <= |item|
    ensures out.data == old(out.data) + item[start..i]
  {
    i := start;
    while i < |item|
      invariant start <= i <= |item|
      invariant forall k :: start <= k < i ==> item[k] != '\n'
      invariant out.data == old(out.data) + item[start..i]
    {
      var byte := item[i];
      assert item[start..i + 1] == item[start..i] + [byte];
      out.Push(byte);
      i := i + 1;
      if byte == '\n' {
        IndexOfUnique(item[start..], '\n', i - 1 - start);
        return;
      }
    }
    IndexOfUnique(item[start..], '\n', i - start);
  }

  /** The copy loop of a node line's tail: up to its LF. */
  method CopyToLf(item: Bytes, start: nat, out: Buffer) returns (i: nat)
    requires start <= |item|
    modifies out
    ensures i == start + IndexOf(item[start..], '\n') && i <= |item|
    ensures out.data == old(out.data) + item[start..i]
  {
    i := start;
    while i < |item| && item[i] != '\n'
      invariant start <= i <= |item|
      invariant forall k :: start <= k < i ==> item[k] != '\n'
      invariant out.data == old(out.data) + item[start..i]
    {
      assert item[start..i + 1] == item[start..i] + [item[i]];
      out.Push(item[i]);
      i := i + 1;
    }
    IndexOfUnique(item[start..], '\n', i - start);
  }

  method ScanSegment(item: Bytes, start: nat) returns (i: nat)
    requires start < |item| && item[start] == '['
    ensures i == start + SegmentRun(item[start..]) && start < i <= |item|
  {
    hide StringEnd, DigitRun;
    ghost var s := item[start..];
    assert forall k :: 0 < k <= |s| ==> s[k..] == item[start + k..];
    i := start + 1;
    if i < |item| && item[i] == '"' {
      i := ScanString(item, i);
    } else {
      i := SkipDigits(item, i);
    }
    if i < |item| && item[i] == ']' {
      i := i + 1;
    }
    if i < |item| && item[i] == '#' {
      i := SkipDigits(item, i + 1);
    }
  }

  lemma PathUnfold(s: Bytes)
    ensures PathRun(s) == if s == [] || s[0] != '[' then 0 else SegmentRun(s) + PathRun(s[SegmentRun(s)..])
  {
  }

  method ScanPath(item: Bytes, start: nat) returns (i: nat)
    requires start < |item|
    ensures i == start + 1 + PathRun(item[start..][1..]) && start < i <= |item|
  {
    hide PathRun, SegmentRun;
    i := start + 1;
    assert item[start..][1..] == item[i..];
    while i < |item| && item[i] == '['
      invariant start < i <= |item|
      invariant i + PathRun(item[i..]) == start + 1 + PathRun(item[start..][1..])
    {
      ghost var at := i;
      PathUnfold(item[at..]);
      i := ScanSegment(item, i);
      assert item[at..][i - at..] == item[i..];
    }
    PathUnfold(item[i..]);
  }

  method WriteSeparatorAndAlias(item: Bytes, start: nat, out: Buffer) returns (i: nat)
    requires start <= |item|
    modifies out
    ensures i == start + SeparatorRun(item[start..]) && i <= |item|
    ensures out.data == old(out.data) + item[start..i]
  {
    hide SeparatorRun, SeparatorStep;
    i := start;
    while true
      invariant start <= i <= |item|
      invariant i + SeparatorRun(item[i..]) == start + SeparatorRun(item[start..])
      invariant out.data == old(out.data) + item[start..i]
      decreases |item| - i
    {
      var n := SeparatorWidth(item, i);
      SeparatorUnfold(item[i..]);
      if n == 0 {
        return;
      }
      CopyBytes(item, i, i + n, out);
      assert item[start..i + n] == item[start..i] + item[i..i + n];
      assert item[i..][n..] == item[i + n..];
      i := i + n;
    }
  }

  lemma SeparatorUnfold(s: Bytes)
    ensures var n := SeparatorStep(s); SeparatorRun(s) == if n == 0 then 0 else n + SeparatorRun(s[n..])
  {
  }

  method SeparatorWidth(item: Bytes, i: nat) returns (n: nat)
    requires i <= |item|
    ensures n == SeparatorStep(item[i..])
  {
    if i == |item| {
      return 0;
    }
    assert item[i..][0] == item[i];
    if item[i] == ' ' || item[i] == '=' {
      return 1;
    }
    if item[i] == '&' {
      assert item[i..][1..] == item[i + 1..];
      var end := SkipDigits(item, i + 1);
      return end - i;
    }
    return 0;
  }

  method ScanContainerTerm(item: Bytes, start: nat) returns (end: nat)
    requires start <= |item|
    ensures end == start + ContainerTermEnd(item[start..]) && end <= |item|
  {
    var i := start;
    while i < |item| && item[i] != ')' && item[i] != '\n'
      invariant start <= i <= |item|
      invariant i + ContainerTermEnd(item[i..]) == start + ContainerTermEnd(item[start..])
    {
      assert item[i..][1..] == item[i + 1..];
      i := i + 1;
    }
    if i < |item| && item[i] == ')' {
      assert item[i..][0] == ')';
      return i + 1;
    }
    return i;
  }

  method WriteToken(palette: Palette, slot: Slot, item: Bytes, from: nat, to: nat, out: Buffer)
    requires from <= to <= |item|
    modifies out
    ensures out.data == old(out.data) + Emit(palette, [Span(slot, item[from..][..to - from])])
  {
    assert item[from..][..to - from] == item[from..to];
    PushSpan(out, ColourOf(palette, slot), item[from..to]);
    EmitOne(palette, Span(slot, item[from..to]));
  }

  /** The coloured head of a term. */
  method WriteTermHead(palette: Palette, item: Bytes, start: nat, out: Buffer) returns (i: nat)
    requires start <= |item|
    modifies out
    ensures i == start + TermHead(item[start..]).width && i <= |item|
    ensures out.data == old(out.data) + Emit(palette, TermHead(item[start..]).pieces)
  {
    hide Emit, StringEnd, NumberRun, ContainerTermEnd, TagHead, DigitRun;
    NothingEmitted(palette);
    ghost var s := item[start..];
    i := start;
    if i == |item| {
      return;
    }
    assert s[0] == item[start];
    if item[i] == '"' {
      i := ScanString(item, start);
      WriteToken(palette, SlotString, item, start, i, out);
    } else if item[i] == 't' && StartsWith(item[start..], "true") {
      i := start + 4;
      WriteToken(palette, SlotTrue, item, start, i, out);
    } else if item[i] == 'f' && StartsWith(item[start..], "false") {
      i := start + 5;
      WriteToken(palette, SlotFalse, item, start, i, out);
    } else if item[i] == 'n' && StartsWith(item[start..], "null") {
      i := start + 4;
      WriteToken(palette, SlotNull, item, start, i, out);
    } else if item[i] == 'a' && StartsWith(item[start..], "array(") {
      i := ScanContainerTerm(item, start);
      WriteToken(palette, SlotArray, item, start, i, out);
    } else if item[i] == 'o' && StartsWith(item[start..], "object(") {
      i := ScanContainerTerm(item, start);
      WriteToken(palette, SlotObject, item, start, i, out);
    } else if item[i] == 't' && StartsWith(item[start..], "tag(") {
      i := WriteTag(palette, item, start, out);
    } else if IsDigit(item[i]) || item[i] == '-' {
      i := ScanNumber(item, start);
      WriteToken(palette, SlotNumber, item, start, i, out);
    } else if item[i] == '*' {
      // The star is no digit, so nothing is consumed here and the tail loop copies the whole reference.
      NoDigits(s);
      i := SkipDigits(item, start);
      CopyBytes(item, start, i, out);
    }
  }

  lemma NoDigits(s: Bytes)
    requires s != [] && !IsDigit(s[0])
    ensures DigitRun(s) == 0
  {
  }

  lemma NothingEmitted(p: Palette)
    ensures Emit(p, []) == []
  {
  }

  method WriteTag(palette: Palette, item: Bytes, start: nat, out: Buffer) returns (i: nat)
    requires start <= |item| && StartsWith(item[start..], "tag(")
    modifies out
    ensures i == start + TagHead(item[start..]).width && i <= |item|
    ensures out.data == old(out.data) + Emit(palette, TagHead(item[start..]).pieces)
  {
    ghost var s := item[start..];
    i := start + 4;
    assert s[..4] == item[start..i];
    CopyBytes(item, start, i, out);
    EmitUncoloured(palette, s[..4]);
    if i < |item| && item[i] == '"' {
      var end := ScanString(item, i);
      assert s[4..] == item[i..] && s[4..4 + (end - i)] == item[i..end];
      PushSpan(out, ColourOf(palette, SlotString), item[i..end]);
      EmitAppend(palette, Uncoloured(s[..4]), [Span(SlotString, item[i..end])]);
      EmitOne(palette, Span(SlotString, item[i..end]));
      i := end;
    }
  }

  lemma EmitOne(p: Palette, piece: Piece)
    ensures Emit(p, [piece]) == EmitPiece(p, piece)
  {
    EmitCons(p, piece, []);
  }

  method WriteTerm(palette: Palette, item: Bytes, start: nat, out: Buffer) returns (i: nat, ghost t: nat)
    requires start <= |item|
    modifies out
    ensures t == start + TermHead(item[start..]).width && t <= i <= |item|
    ensures i == t + IndexOf(item[t..], '\n')
    ensures out.data == old(out.data) + Emit(palette, TermHead(item[start..]).pieces) + item[t..i]
  {
    hide TermHead, IndexOf, Emit;
    i := WriteTermHead(palette, item, start, out);
    t := i;
    i := CopyToLf(item, i, out);
  }

  /** A node line, from its `$` to its LF. */
  method RenderNode(palette: Palette, item: Bytes, start: nat, out: Buffer) returns (i: nat)
    requires start < |item|
    modifies out
    ensures i == start + NodeHead(item[start..]).width && i <= |item|
    ensures out.data == old(out.data) + Emit(palette, NodeHead(item[start..]).pieces)
  {
    hide TermHead, IndexOf, Emit, PathRun, SeparatorRun, Uncoloured, SpanBytes, NodeHead, LinePieces;
    ghost var p, q, t: nat;
    i := ScanPath(item, start);
    PushSpan(out, ColourOf(palette, SlotKey), item[start..i]);
    p := i;
    i := WriteSeparatorAndAlias(item, i, out);
    q := i;
    i, t := WriteTerm(palette, item, i, out);
    NodeSplit(palette, item, start, p, q, t, i);
    Regroup(old(out.data), SpanBytes(ColourOf(palette, SlotKey), item[start..p]), item[p..q],
            Emit(palette, TermHead(item[q..]).pieces), item[t..i]);
  }

  lemma Regroup(before: Bytes, a: Bytes, b: Bytes, c: Bytes, d: Bytes)
    ensures before + a + b + c + d == before + (a + b + c + d)
  {
  }

  /** The positions where a node line's parts end are the ones `NodeHead` computes. */
  lemma NodeSplit(pal: Palette, item: Bytes, start: nat, p: nat, q: nat, t: nat, i: nat)
    requires start < p <= q <= t <= i <= |item|
    requires p == start + 1 + PathRun(item[start..][1..]) && q == p + SeparatorRun(item[p..])
    requires t == q + TermHead(item[q..]).width && i == t + IndexOf(item[t..], '\n')
    ensures i == start + NodeHead(item[start..]).width
    ensures Emit(pal, NodeHead(item[start..]).pieces) ==
            SpanBytes(ColourOf(pal, SlotKey), item[start..p]) + item[p..q] + Emit(pal, TermHead(item[q..]).pieces) +
              item[t..i]
  {
    hide TermHead, IndexOf, Emit, PathRun, SeparatorRun, Uncoloured, SpanBytes, LinePieces, NodeHead;
    NodeHeadAt(item, start, p, q, t, i, item[start..], item[p..], item[q..], item[t..]);
    EmitLine(pal, item[start..p], item[p..q], TermHead(item[q..]).pieces, item[t..i]);
  }

  lemma NodeHeadAt(item: Bytes, start: nat, p: nat, q: nat, t: nat, i: nat, r: Bytes, rp: Bytes, rq: Bytes, rt: Bytes)
    requires start < p <= q <= t <= i <= |item|
    requires r == item[start..] && rp == item[p..] && rq == item[q..] && rt == item[t..]
    requires p == start + 1 + PathRun(r[1..]) && q == p + SeparatorRun(rp)
    requires t == q + TermHead(rq).width && i == t + IndexOf(rt, '\n')
    ensures NodeHead(r) == Head(LinePieces(item[start..p], item[p..q], TermHead(rq).pieces, item[t..i]), i - start)
  {
    hide TermHead, IndexOf, PathRun, SeparatorRun, LinePieces, NodeHead;
    Resume(item, start, p);
    Resume(item, p, q);
    Resume(item, q, t);
    Resume(item, t, i);
    NodeHeadParts(r, p - start, rp, q - p, rq, t - q, rt, i - t);
  }

  lemma NodeHeadParts(r: Bytes, p: nat, afterPath: Bytes, q: nat, afterSeparator: Bytes, w: nat, afterTerm: Bytes,
                      e: nat)
    requires 1 <= p <= |r| && p == 1 + PathRun(r[1..]) && afterPath == r[p..]
    requires q == SeparatorRun(afterPath) && afterSeparator == afterPath[q..]
    requires w == TermHead(afterSeparator).width && afterTerm == afterSeparator[w..] && e == IndexOf(afterTerm, '\n')
    ensures NodeHead(r) ==
            Head(LinePieces(r[..p], afterPath[..q], TermHead(afterSeparator).pieces, afterTerm[..e]), p + q + w + e)
  {
    hide TermHead, IndexOf, PathRun, SeparatorRun, LinePieces;
  }

  /** Slicing from an earlier position on. */
  lemma Resume(item: Bytes, a: nat, b: nat)
    requires a <= b <= |item|
    ensures item[a..][..b - a] == item[a..b] && item[a..][b - a..] == item[b..]
  {
  }

  lemma EmitLine(p: Palette, path: Bytes, separator: Bytes, term: seq<Piece>, tail: Bytes)
    ensures Emit(p, LinePieces(path, separator, term, tail)) ==
            SpanBytes(ColourOf(p, SlotKey), path) + separator + Emit(p, term) + tail
  {
    hide Emit, Uncoloured;
    EmitOne(p, Span(SlotKey, path));
    EmitUncoloured(p, separator);
    EmitUncoloured(p, tail);
    EmitAppend(p, [Span(SlotKey, path)], Uncoloured(separator));
    EmitAppend(p, [Span(SlotKey, path)] + Uncoloured(separator), term);
    EmitAppend(p, [Span(SlotKey, path)] + Uncoloured(separator) + term, Uncoloured(tail));
  }

  method RenderTerminal(palette: Palette, item: Bytes, out: Buffer)
    modifies out
    ensures out.data == old(out.data) + TerminalColoured(palette, item)
  {
    hide BodyHead, Emit, ThroughLf, SpaceRun, Uncoloured, LineHead, TerminalScan;
    var i := 0;
    ghost var goal := out.data + TerminalColoured(palette, item);
    assert item[0..] == item;
    EmptyEmit(palette);
    while i < |item|
      invariant 0 <= i <= |item|
      invariant out.data + Emit(palette, TerminalScan(item[i..])) == goal
    {
      ghost var start, was := i, out.data;
      i := SkipSpaces(item, i, out);
      if i < |item| {
        i := RenderBody(palette, item, i, out);
      } else {
        EmptyBody(palette);
      }
      LineWritten(palette, item, start, was, out.data, i);
    }
    assert item[i..] == [];
  }

  lemma EmptyBody(p: Palette)
    ensures BodyHead([]) == Head([], 0) && Emit(p, []) == []
  {
  }

  /** A line behind its indent. */
  method RenderBody(palette: Palette, item: Bytes, start: nat, out: Buffer) returns (i: nat)
    requires start < |item|
    modifies out
    ensures i == start + BodyHead(item[start..]).width && start < i <= |item|
    ensures out.data == old(out.data) + Emit(palette, BodyHead(item[start..]).pieces)
  {
    hide NodeHead, Emit, ThroughLf, Uncoloured;
    assert item[start..][0] == item[start];
    if item[start] != '$' {
      i := CopyThroughLf(item, start, out);
      assert item[start..][..i - start] == item[start..i];
      EmitUncoloured(palette, item[start..i]);
    } else {
      i := RenderNode(palette, item, start, out);
    }
  }

  lemma EmptyEmit(p: Palette)
    ensures Emit(p, []) == [] && TerminalScan([]) == []
  {
  }

  /** One line written: the pass owes the scan of the rest. */
  lemma LineWritten(p: Palette, item: Bytes, start: nat, was: Bytes, now: Bytes, next: nat)
    requires start < |item|
    requires var at := start + SpaceRun(item[start..]);
             at <= |item| && next == at + BodyHead(item[at..]).width &&
             now == was + item[start..at] + Emit(p, BodyHead(item[at..]).pieces)
    ensures start < next <= |item|
    ensures now + Emit(p, TerminalScan(item[next..])) == was + Emit(p, TerminalScan(item[start..]))
  {
    hide Emit, BodyHead, SpaceRun, Uncoloured;
    var s, k := item[start..], SpaceRun(item[start..]);
    assert s[..k] == item[start..start + k] && s[k..] == item[start + k..];
    var h := LineHead(s);
    assert s[h.width..] == item[next..];
    EmitUncoloured(p, s[..k]);
    EmitAppend(p, Uncoloured(s[..k]), BodyHead(s[k..]).pieces);
    EmitAppend(p, h.pieces, TerminalScan(item[next..]));
  }
}
