/**
 The tree-shape frames the renderer writes, and when the terminal pass colours them by kind: exactly on the frames
 without a tag payload whose terms are all of the kinds the pass knows.
 */
module TreeFrame {
  import opened Bytes
  import opened Colour
  import opened JsonText
  import opened Terminal

  // ----- The frame grammar -----

  datatype Segment = Index(index: Digits) | Key(chars: seq<Char>, ordinal: Digits) | Payload

  /** Date, time and offset as the renderer spells them; the widths and ranges of the fields do not matter here. */
  datatype Date = Date(year: Digits, month: Digits, day: Digits)

  datatype Time = Time(hour: Digits, minute: Digits, second: Digits, fraction: Option<Digits>)

  datatype Offset = Zulu | Signed(negative: bool, hours: Digits, minutes: Digits)

  type Hex = s: Bytes | forall k :: 0 <= k < |s| ==> IsHexDigit(s[k])

  /** A finite number: a run of number bytes that starts like one. It need not be a JSON number: decimals keep zeros. */
  predicate IsFinite(s: Bytes)
  {
    s != [] && (s[0] == '-' || IsDigit(s[0])) && forall k :: 0 <= k < |s| ==> IsNumberByte(s[k])
  }

  type Finite = s: Bytes | IsFinite(s) witness ['0']

  datatype Term =
    | StringTerm(chars: seq<Char>)
    | TrueTerm
    | FalseTerm
    | NullTerm
    | NumberTerm(number: Finite)
    | InfiniteTerm(negative: bool)
    | NanTerm(bits: Hex)
    | BytesTerm(hex: Hex)
    | DateTerm(date: Date)
    | TimeTerm(time: Time)
    | DateTimeTerm(date: Date, time: Time)
    | OffsetDateTimeTerm(date: Date, time: Time, offset: Offset)
    | ArrayTerm(count: Digits)
    | ObjectTerm(count: Digits)
    | TagTerm(chars: seq<Char>)
    | RepeatTerm(anchor: Digits)

  datatype Line = Line(indent: nat, path: seq<Segment>, anchor: Option<Digits>, term: Term)

  function PrintSegment(g: Segment): Bytes
  {
    match g
    case Index(index) => ['['] + index + [']']
    case Key(chars, ordinal) => ['['] + PrintString(chars) + [']', '#'] + ordinal
    case Payload => ".payload"
  }

  function PrintSegments(path: seq<Segment>): Bytes
  {
    if path == [] then [] else PrintSegment(path[0]) + PrintSegments(path[1..])
  }

  function PrintSeparator(anchor: Option<Digits>): Bytes
  {
    [' ', '=', ' '] + match anchor case None => [] case Some(d) => ['&'] + d + [' ']
  }

  function PrintDate(d: Date): Bytes { d.year + ['-'] + d.month + ['-'] + d.day }

  /** A time behind its hour. */
  function PrintTimeTail(t: Time): Bytes
  {
    [':'] + t.minute + [':'] + t.second + match t.fraction case None => [] case Some(d) => ['.'] + d
  }

  function PrintOffset(o: Offset): Bytes
  {
    match o
    case Zulu => ['Z']
    case Signed(negative, hours, minutes) => [if negative then '-' else '+'] + hours + [':'] + minutes
  }

  function PrintTerm(t: Term): Bytes
  {
    match t
    case StringTerm(chars) => PrintString(chars)
    case TrueTerm => "true"
    case FalseTerm => "false"
    case NullTerm => "null"
    case NumberTerm(n) => n
    case InfiniteTerm(negative) => if negative then "-inf" else "inf"
    case NanTerm(bits) => "nan(0x" + bits + [')']
    case BytesTerm(hex) => "0x" + hex
    case DateTerm(date) => PrintDate(date)
    case TimeTerm(time) => time.hour + PrintTimeTail(time)
    case DateTimeTerm(date, time) => PrintDate(date) + (['T'] + time.hour + PrintTimeTail(time))
    case OffsetDateTimeTerm(date, time, offset) =>
      PrintDate(date) + (['T'] + time.hour + PrintTimeTail(time) + PrintOffset(offset))
    case ArrayTerm(count) => "array(" + count + [')']
    case ObjectTerm(count) => "object(" + count + [')']
    case TagTerm(chars) => "tag(" + PrintString(chars) + [')']
    case RepeatTerm(anchor) => ['*'] + anchor
  }

  function PrintNode(line: Line): Bytes
  {
    ['$'] + PrintSegments(line.path) + PrintSeparator(line.anchor) + PrintTerm(line.term)
  }

  function Spaces(n: nat): Bytes { if n == 0 then [] else [' '] + Spaces(n - 1) }

  function PrintFrame(lines: seq<Line>): Bytes
  {
    if lines == [] then []
    else Spaces(lines[0].indent) + PrintNode(lines[0]) + ['\n'] + PrintFrame(lines[1..])
  }

  // ----- The colouring by kind -----

  /** Numbers, not-a-number and the infinities included, have the number colour; bytes and times are of
      no listed kind. */
  function TermPieces(t: Term): seq<Piece>
  {
    match t
    case StringTerm(_) => [Span(SlotString, PrintTerm(t))]
    case TrueTerm => [Span(SlotTrue, PrintTerm(t))]
    case FalseTerm => [Span(SlotFalse, PrintTerm(t))]
    case NullTerm => [Span(SlotNull, PrintTerm(t))]
    case NumberTerm(_) => [Span(SlotNumber, PrintTerm(t))]
    case InfiniteTerm(_) => [Span(SlotNumber, PrintTerm(t))]
    case NanTerm(_) => [Span(SlotNumber, PrintTerm(t))]
    case ArrayTerm(_) => [Span(SlotArray, PrintTerm(t))]
    case ObjectTerm(_) => [Span(SlotObject, PrintTerm(t))]
    case TagTerm(chars) => Uncoloured("tag(") + [Span(SlotString, PrintString(chars))] + Uncoloured([')'])
    case _ => Uncoloured(PrintTerm(t))
  }

  function NodePieces(line: Line): seq<Piece>
  {
    [Span(SlotKey, ['$'] + PrintSegments(line.path))] + Uncoloured(PrintSeparator(line.anchor)) + TermPieces(line.term)
  }

  function FramePieces(lines: seq<Line>): seq<Piece>
  {
    if lines == [] then []
    else Uncoloured(Spaces(lines[0].indent)) + NodePieces(lines[0]) + Uncoloured(['\n']) + FramePieces(lines[1..])
  }

  // ----- What the pass does -----

  /** The segments before the first tag payload. */
  function Known(path: seq<Segment>): seq<Segment>
  {
    if path == [] || path[0] == Payload then [] else [path[0]] + Known(path[1..])
  }

  function Beyond(path: seq<Segment>): seq<Segment>
  {
    if path == [] || path[0] == Payload then path else Beyond(path[1..])
  }

  /** A term of a kind the pass does not know. */
  predicate Unknown(t: Term)
  {
    t.InfiniteTerm? || t.NanTerm? || t.BytesTerm? || t.DateTerm? || t.TimeTerm? || t.DateTimeTerm? ||
    t.OffsetDateTimeTerm?
  }

  /** The bytes of a printed term behind its coloured head. */
  function TailOf(t: Term): Bytes
  {
    match t
    case TagTerm(_) => [')']
    case RepeatTerm(anchor) => ['*'] + anchor
    case InfiniteTerm(_) => "inf"
    case NanTerm(_) => PrintTerm(t)
    case BytesTerm(hex) => ['x'] + hex
    case TimeTerm(time) => PrintTimeTail(time)
    case DateTimeTerm(_, time) => ['T'] + time.hour + PrintTimeTail(time)
    case OffsetDateTimeTerm(_, time, offset) => ['T'] + time.hour + PrintTimeTail(time) + PrintOffset(offset)
    case _ => []
  }

  /** The run of number bytes a term of an unknown kind starts with. */
  function NumberPrefix(t: Term): Bytes
    requires Unknown(t)
  {
    match t
    case InfiniteTerm(negative) => if negative then ['-'] else []
    case NanTerm(_) => []
    case BytesTerm(_) => ['0']
    case TimeTerm(time) => time.hour
    case _ => PrintDate(t.date)
  }

  /** The coloured head of a printed term: for an unknown kind, whatever number its text starts with. */
  function HeadOf(t: Term): seq<Piece>
  {
    if Unknown(t) then if NumberPrefix(t) == [] then [] else [Span(SlotNumber, NumberPrefix(t))]
    else
      match t
      case TagTerm(chars) => Uncoloured("tag(") + [Span(SlotString, PrintString(chars))]
      case RepeatTerm(_) => []
      case _ => TermPieces(t)
  }

  /** Behind a payload segment nothing is coloured any more. */
  function ActualNode(line: Line): seq<Piece>
  {
    if Payload !in line.path then
      [Span(SlotKey, ['$'] + PrintSegments(line.path))] + Uncoloured(PrintSeparator(line.anchor)) +
      HeadOf(line.term) + Uncoloured(TailOf(line.term))
    else [Span(SlotKey, ['$'] + PrintSegments(Known(line.path)))] +
         Uncoloured(PrintSegments(Beyond(line.path)) + PrintSeparator(line.anchor) + PrintTerm(line.term))
  }

  function ActualFrame(lines: seq<Line>): seq<Piece>
  {
    if lines == [] then []
    else Uncoloured(Spaces(lines[0].indent)) + ActualNode(lines[0]) + Uncoloured(['\n']) + ActualFrame(lines[1..])
  }

  // ----- Runs inside a longer line -----

  lemma {:induction false} DigitRunExact(d: Bytes, rest: Bytes)
    requires forall k :: 0 <= k < |d| ==> IsDigit(d[k])
    requires rest != [] ==> !IsDigit(rest[0])
    ensures DigitRun(d + rest) == |d|
  {
    if d == [] {
      assert d + rest == rest;
    } else {
      assert (d + rest)[1..] == d[1..] + rest;
      DigitRunExact(d[1..], rest);
    }
  }

  lemma QuotedEnd(chars: seq<Char>, rest: Bytes)
    ensures StringEnd(PrintString(chars) + rest, 1) == |PrintString(chars)|
  {
    StringEndsAtQuote(['"'], chars, rest);
    assert PrintString(chars) + rest == ['"'] + PrintChars(chars) + ['"'] + rest;
  }

  /** A byte that can follow a path segment. */
  predicate AfterSegment(rest: Bytes)
  {
    rest != [] && (rest[0] == '[' || rest[0] == '.' || rest[0] == ' ')
  }

  lemma IndexExact(index: Digits, rest: Bytes)
    requires AfterSegment(rest)
    ensures SegmentRun(['['] + index + [']'] + rest) == |index| + 2
  {
    hide StringEnd, DigitRun;
    var s := ['['] + index + [']'] + rest;
    assert s[1..] == index + ([']'] + rest);
    assert s[1] == index[0] && IsDigit(index[0]);
    DigitRunExact(index, [']'] + rest);
    assert s[1 + |index|] == ']' && s[2 + |index|] == rest[0];
  }

  lemma KeySegmentRun(s: Bytes, b: nat, d: nat)
    requires |s| > b + 1 && b > 0 && s[0] == '[' && s[1] == '"' && StringEnd(s[1..], 1) == b - 1
    requires s[b] == ']' && s[b + 1] == '#' && DigitRun(s[b + 2..]) == d
    ensures SegmentRun(s) == b + 2 + d
  {
    hide StringEnd, DigitRun;
  }

  lemma KeyExact(quoted: Bytes, ordinal: Digits, rest: Bytes)
    requires quoted != [] && quoted[0] == '"' && AfterSegment(rest)
    requires StringEnd(quoted + ([']', '#'] + (ordinal + rest)), 1) == |quoted|
    ensures SegmentRun(['['] + quoted + [']', '#'] + ordinal + rest) == |quoted| + |ordinal| + 3
  {
    hide StringEnd, DigitRun, SegmentRun;
    var mark: Bytes := [']', '#'];
    var tail := mark + (ordinal + rest);
    var open := ['['] + quoted;
    Assoc(open + mark, ordinal, rest);
    Assoc(open, mark, ordinal + rest);
    Assoc(['['], quoted, tail);
    var s := open + tail;
    Seam(['['], quoted + tail);
    Seam(open + mark, ordinal + rest);
    assert s[1] == quoted[0] && s[|open|] == tail[0] && s[|open| + 1] == tail[1];
    DigitRunExact(ordinal, rest);
    KeySegmentRun(s, |open|, |ordinal|);
  }

  lemma SegmentExact(g: Segment, rest: Bytes)
    requires g != Payload && AfterSegment(rest)
    ensures SegmentRun(PrintSegment(g) + rest) == |PrintSegment(g)|
  {
    hide SegmentRun, PrintString, StringEnd;
    match g
    case Index(index) =>
      IndexExact(index, rest);
    case Key(chars, ordinal) =>
      QuotedStart(chars);
      QuotedEnd(chars, [']', '#'] + (ordinal + rest));
      KeyExact(PrintString(chars), ordinal, rest);
  }

  lemma QuotedStart(chars: seq<Char>)
    ensures PrintString(chars) != [] && PrintString(chars)[0] == '"'
  {
  }

  lemma SegmentsStart(path: seq<Segment>, rest: Bytes)
    requires AfterSegment(rest)
    ensures AfterSegment(PrintSegments(path) + rest)
  {
    if path == [] {
      assert PrintSegments(path) + rest == rest;
    }
  }

  lemma {:induction false} PathExact(path: seq<Segment>, rest: Bytes)
    requires Payload !in path && AfterSegment(rest) && rest[0] != '['
    ensures PathRun(PrintSegments(path) + rest) == |PrintSegments(path)|
  {
    if path == [] {
      assert PrintSegments(path) + rest == rest;
    } else {
      hide PathRun, SegmentRun, PrintSegment, AfterSegment;
      var head, tail := PrintSegment(path[0]), PrintSegments(path[1..]) + rest;
      assert path[0] in path && path[0] != Payload;
      SegmentsStart(path[1..], rest);
      SegmentExact(path[0], tail);
      SegmentOpens(path[0]);
      PathExact(path[1..], rest);
      Assoc(head, PrintSegments(path[1..]), rest);
      PathStep(head, tail);
    }
  }

  lemma PathStep(head: Bytes, tail: Bytes)
    requires head != [] && head[0] == '[' && SegmentRun(head + tail) == |head|
    ensures PathRun(head + tail) == |head| + PathRun(tail)
  {
    hide SegmentRun, PathRun;
    PathUnfold(head + tail);
    assert (head + tail)[|head|..] == tail;
  }

  lemma SegmentOpens(g: Segment)
    requires g != Payload
    ensures PrintSegment(g) != [] && PrintSegment(g)[0] == '['
  {
  }

  /** A byte that can start a term. */
  predicate StartsTerm(rest: Bytes)
  {
    rest != [] && rest[0] != ' ' && rest[0] != '=' && rest[0] != '&'
  }

  lemma SeparatorExact(anchor: Option<Digits>, rest: Bytes)
    requires StartsTerm(rest)
    ensures SeparatorRun(PrintSeparator(anchor) + rest) == |PrintSeparator(anchor)|
  {
    hide SeparatorRun, DigitRun;
    var s := PrintSeparator(anchor) + rest;
    var tail := s[3..];
    assert s[0] == ' ' && s[1..][0] == '=' && s[2..][0] == ' ' && s[1..][1..] == s[2..] && s[2..][1..] == tail;
    SeparatorUnfold(s);
    SeparatorUnfold(s[1..]);
    SeparatorUnfold(s[2..]);
    SeparatorUnfold(rest);
    match anchor
    case None => assert tail == rest;
    case Some(d) =>
      assert tail[1..] == d + ([' '] + rest);
      DigitRunExact(d, [' '] + rest);
      SeparatorUnfold(tail);
      var last := tail[1 + |d|..];
      assert last[0] == ' ' && last[1..] == rest;
      SeparatorUnfold(last);
  }

  lemma TermStarts(t: Term, rest: Bytes)
    ensures StartsTerm(PrintTerm(t) + rest)
  {
    if Unknown(t) {
      UnknownParts(t);
      hide PrintTerm, NumberPrefix, TailOf;
      UnknownNonempty(t);
      assert (PrintTerm(t) + rest)[0] == PrintTerm(t)[0];
    }
  }

  lemma UnknownNonempty(t: Term)
    requires Unknown(t)
    ensures PrintTerm(t) != [] && StartsTerm(PrintTerm(t))
  {
    UnknownParts(t);
    assert NumberPrefix(t) == [] ==> PrintTerm(t)[0] == TailOf(t)[0];
    assert NumberPrefix(t) != [] ==> PrintTerm(t)[0] == NumberPrefix(t)[0];
  }

  lemma {:induction false} ContainerTermExact(body: Bytes, rest: Bytes)
    requires ')' !in body && '\n' !in body
    ensures ContainerTermEnd(body + [')'] + rest) == |body| + 1
  {
    var s := body + [')'] + rest;
    if body != [] {
      assert s[0] == body[0] && s[1..] == body[1..] + [')'] + rest;
      ContainerTermExact(body[1..], rest);
    } else {
      assert s[0] == ')';
    }
  }

  lemma DigitsPlain(d: Digits)
    ensures ')' !in d && '\n' !in d
  {
    assert forall k :: 0 <= k < |d| ==> IsDigit(d[k]);
  }

  // ----- Terms -----

  lemma TermParts(t: Term)
    ensures !Unknown(t) ==> TermPieces(t) == HeadOf(t) + Uncoloured(TailOf(t))
    ensures |TailOf(t)| <= |PrintTerm(t)| && PrintTerm(t)[|PrintTerm(t)| - |TailOf(t)|..] == TailOf(t)
    ensures Unknown(t) ==> PrintTerm(t)[..|PrintTerm(t)| - |TailOf(t)|] == NumberPrefix(t)
  {
    if Unknown(t) {
      UnknownParts(t);
      Cut(PrintTerm(t), NumberPrefix(t), TailOf(t));
    }
  }

  lemma UnknownParts(t: Term)
    requires Unknown(t)
    ensures PrintTerm(t) == NumberPrefix(t) + TailOf(t)
    ensures NumberPrefix(t) != [] ==> IsFinite(NumberPrefix(t))
    ensures TailOf(t) != [] ==> !IsNumberByte(TailOf(t)[0])
  {
    if t.DateTerm? || t.DateTimeTerm? || t.OffsetDateTimeTerm? {
      DateIsFinite(t.date);
    }
  }

  lemma DateIsFinite(d: Date)
    ensures IsFinite(PrintDate(d))
  {
    assert forall k :: 0 <= k < |d.year| ==> IsDigit(d.year[k]);
    assert forall k :: 0 <= k < |d.month| ==> IsDigit(d.month[k]);
    assert forall k :: 0 <= k < |d.day| ==> IsDigit(d.day[k]);
    assert PrintDate(d)[0] == d.year[0];
  }

  lemma CountedTerm(name: Bytes, count: Digits, rest: Bytes)
    requires ')' !in name && '\n' !in name
    ensures ContainerTermEnd(name + count + [')'] + rest) == |name + count| + 1
  {
    DigitsPlain(count);
    ContainerTermExact(name + count, rest);
  }

  lemma TermExact(t: Term, rest: Bytes)
    requires rest != [] && rest[0] == '\n'
    ensures TermHead(PrintTerm(t) + rest) == Head(HeadOf(t), |PrintTerm(t)| - |TailOf(t)|)
  {
    match t
    case NumberTerm(n) => NumberTermExact(n, rest);
    case TagTerm(chars) => TagExact(chars, rest);
    case ArrayTerm(count) => ArrayExact(count, rest);
    case ObjectTerm(count) => ObjectExact(count, rest);
    case _ =>
      if Unknown(t) {
        UnknownTermExact(t, rest);
      } else {
        PlainTermExact(t, rest);
      }
  }

  /** A term of an unknown kind: the number it starts with is coloured, or nothing is. */
  lemma UnknownTermExact(t: Term, rest: Bytes)
    requires Unknown(t) && rest != [] && rest[0] == '\n'
    ensures TermHead(PrintTerm(t) + rest) == Head(HeadOf(t), |PrintTerm(t)| - |TailOf(t)|)
  {
    hide PrintTerm, TailOf, NumberPrefix, TermHead;
    UnknownParts(t);
    var prefix, tail := NumberPrefix(t), TailOf(t);
    Assoc(prefix, tail, rest);
    var s := prefix + (tail + rest);
    Seam(prefix, tail + rest);
    if prefix == [] {
      assert s == tail + rest;
      NoNumber(t, rest);
    } else {
      assert s[0] == prefix[0] && s[|prefix|] == (tail + rest)[0];
      RunEnds(tail, rest);
      NumberRunAt(s, |prefix|);
      NumberHead(s);
    }
  }

  lemma RunEnds(tail: Bytes, rest: Bytes)
    requires rest != [] && rest[0] == '\n' && (tail != [] ==> !IsNumberByte(tail[0]))
    ensures tail + rest != [] && !IsNumberByte((tail + rest)[0])
  {
    assert (tail + rest)[0] == if tail == [] then rest[0] else tail[0];
  }

  lemma NoNumber(t: Term, rest: Bytes)
    requires Unknown(t) && NumberPrefix(t) == [] && rest != []
    ensures TermHead(PrintTerm(t) + rest) == Head([], 0)
  {
    hide StringEnd, NumberRun, ContainerTermEnd, TagHead;
    assert t.InfiniteTerm? || t.NanTerm?;
    var s := PrintTerm(t) + rest;
    assert s[..2] == "in" || s[..2] == "na";
    assert s[1] != 'u';
  }

  lemma PlainTermExact(t: Term, rest: Bytes)
    requires t.StringTerm? || t.TrueTerm? || t.FalseTerm? || t.NullTerm? || t.RepeatTerm?
    ensures TermHead(PrintTerm(t) + rest) == Head(HeadOf(t), |PrintTerm(t)| - |TailOf(t)|)
  {
    hide StringEnd, NumberRun, ContainerTermEnd, PrintString, Uncoloured, TagHead;
    Seam(PrintTerm(t), rest);
    if t.StringTerm? {
      QuotedStart(t.chars);
      QuotedEnd(t.chars, rest);
    }
  }

  lemma NumberTermExact(n: Finite, rest: Bytes)
    requires rest != [] && rest[0] == '\n'
    ensures TermHead(n + rest) == Head(HeadOf(NumberTerm(n)), |n|)
  {
    hide NumberRun, TermHead;
    var s := n + rest;
    Seam(n, rest);
    NumberRunAt(s, |n|);
    NumberHead(s);
  }

  lemma NumberHead(s: Bytes)
    requires s != [] && (s[0] == '-' || IsDigit(s[0]))
    ensures TermHead(s) == Head([Span(SlotNumber, s[..NumberRun(s)])], NumberRun(s))
  {
    hide StringEnd, NumberRun, ContainerTermEnd, TagHead;
  }

  lemma ArrayExact(count: Digits, rest: Bytes)
    ensures TermHead(PrintTerm(ArrayTerm(count)) + rest) ==
            Head(HeadOf(ArrayTerm(count)), |PrintTerm(ArrayTerm(count))|)
  {
    hide StringEnd, NumberRun, ContainerTermEnd, Uncoloured, TagHead;
    var t := ArrayTerm(count);
    CountedTerm("array(", count, rest);
    Seam(PrintTerm(t), rest);
    assert StartsWith(PrintTerm(t) + rest, "array(");
  }

  lemma ObjectExact(count: Digits, rest: Bytes)
    ensures TermHead(PrintTerm(ObjectTerm(count)) + rest) ==
            Head(HeadOf(ObjectTerm(count)), |PrintTerm(ObjectTerm(count))|)
  {
    hide StringEnd, NumberRun, ContainerTermEnd, Uncoloured, TagHead;
    var t := ObjectTerm(count);
    CountedTerm("object(", count, rest);
    Seam(PrintTerm(t), rest);
    assert StartsWith(PrintTerm(t) + rest, "object(");
  }

  lemma TagExact(chars: seq<Char>, rest: Bytes)
    ensures TermHead(PrintTerm(TagTerm(chars)) + rest) == Head(HeadOf(TagTerm(chars)), |PrintTerm(TagTerm(chars))| - 1)
  {
    hide StringEnd, PrintString, Uncoloured, TagHead, NumberRun, ContainerTermEnd;
    var quoted := PrintString(chars);
    var name: Bytes := "tag(";
    Assoc(name + quoted, [')'], rest);
    Assoc(name, quoted, [')'] + rest);
    var s := name + (quoted + ([')'] + rest));
    QuotedStart(chars);
    QuotedEnd(chars, [')'] + rest);
    Seam(name, quoted + ([')'] + rest));
    Seam(quoted, [')'] + rest);
    TagHeadExact(s, quoted);
  }

  lemma TagHeadExact(s: Bytes, quoted: Bytes)
    requires StartsWith(s, "tag(") && |s| > 4 + |quoted| && quoted != [] && quoted[0] == '"'
    requires s[4..][..|quoted|] == quoted && StringEnd(s[4..], 1) == |quoted|
    ensures TermHead(s) == Head(Uncoloured("tag(") + [Span(SlotString, quoted)], 4 + |quoted|)
  {
    hide StringEnd, Uncoloured, NumberRun, ContainerTermEnd;
    assert s[4] == quoted[0] && s[4..4 + |quoted|] == quoted;
  }

  // ----- Whole lines -----

  lemma LineEnd(tail: Bytes, rest: Bytes)
    requires NoControl(tail) && rest != [] && rest[0] == '\n'
    ensures IndexOf(tail + rest, '\n') == |tail|
  {
    assert '\n' !in tail;
    Seam(tail, rest);
    IndexOfUnique(tail + rest, '\n', |tail|);
  }

  lemma Cut(s: Bytes, a: Bytes, b: Bytes)
    requires s == a + b
    ensures |a| <= |s| && s[..|a|] == a && s[|a|..] == b
  {
  }

  /** A node line cut at the places the pass cuts it. */
  lemma NodeAssembled(r: Bytes, start: Bytes, afterPath: Bytes, separator: Bytes, afterSeparator: Bytes,
                      term: Bytes, head: seq<Piece>, afterTerm: Bytes, tail: Bytes, rest: Bytes)
    requires r == start + afterPath && afterPath == separator + afterSeparator
    requires afterSeparator == term + afterTerm && afterTerm == tail + rest
    requires start != [] && 1 + PathRun(start[1..] + afterPath) == |start| && SeparatorRun(afterPath) == |separator|
    requires TermHead(afterSeparator) == Head(head, |term|) && IndexOf(afterTerm, '\n') == |tail|
    ensures NodeHead(r) == Head(LinePieces(start, separator, head, tail), |start| + |separator| + |term| + |tail|)
  {
    hide PathRun, SeparatorRun, TermHead, IndexOf, LinePieces;
    assert r[1..] == start[1..] + afterPath;
    Cut(r, start, afterPath);
    Cut(afterPath, separator, afterSeparator);
    Cut(afterSeparator, term, afterTerm);
    Cut(afterTerm, tail, rest);
  }

  lemma DollarPath(path: Bytes)
    ensures (['$'] + path)[1..] == path && ['$'] + path != []
  {
  }

  lemma {:induction false} SegmentsNoControl(path: seq<Segment>)
    ensures NoControl(PrintSegments(path))
  {
    if path != [] {
      SegmentsNoControl(path[1..]);
      SegmentNoControl(path[0]);
    }
  }

  lemma SegmentNoControl(g: Segment)
    ensures NoControl(PrintSegment(g))
  {
    match g
    case Index(index) => assert forall k :: 0 <= k < |index| ==> IsDigit(index[k]);
    case Key(chars, ordinal) =>
      CharsNoControl(chars);
      assert forall k :: 0 <= k < |ordinal| ==> IsDigit(ordinal[k]);
    case Payload =>
  }

  lemma SeparatorNoControl(anchor: Option<Digits>)
    ensures NoControl(PrintSeparator(anchor))
  {
    if anchor.Some? {
      assert forall k :: 0 <= k < |anchor.value| ==> IsDigit(anchor.value[k]);
    }
  }

  lemma TermNoControl(t: Term)
    ensures NoControl(PrintTerm(t)) && NoControl(TailOf(t))
  {
    hide NumberPrefix, PrintDate, PrintTimeTail, PrintOffset, IsFinite;
    match t
    case StringTerm(chars) => CharsNoControl(chars);
    case TagTerm(chars) => CharsNoControl(chars);
    case NumberTerm(n) => FiniteNoControl(n);
    case ArrayTerm(count) => assert forall k :: 0 <= k < |count| ==> IsDigit(count[k]);
    case ObjectTerm(count) => assert forall k :: 0 <= k < |count| ==> IsDigit(count[k]);
    case RepeatTerm(anchor) => assert forall k :: 0 <= k < |anchor| ==> IsDigit(anchor[k]);
    case _ =>
      if Unknown(t) {
        UnknownNoControl(t);
      }
  }

  lemma UnknownNoControl(t: Term)
    requires Unknown(t)
    ensures NoControl(PrintTerm(t)) && NoControl(TailOf(t))
  {
    hide PrintTerm, PrintDate, PrintTimeTail, PrintOffset, IsFinite;
    UnknownParts(t);
    UnknownTail(t);
    if NumberPrefix(t) != [] {
      FiniteNoControl(NumberPrefix(t));
    }
  }

  lemma FiniteNoControl(s: Bytes)
    requires IsFinite(s)
    ensures NoControl(s)
  {
    assert forall k :: 0 <= k < |s| ==> IsNumberByte(s[k]);
  }

  lemma UnknownTail(t: Term)
    requires Unknown(t)
    ensures NoControl(TailOf(t))
  {
    hide PrintDate, PrintTimeTail, PrintOffset;
    match t
    case NanTerm(bits) => assert forall k :: 0 <= k < |bits| ==> IsHexDigit(bits[k]);
    case BytesTerm(hex) => assert forall k :: 0 <= k < |hex| ==> IsHexDigit(hex[k]);
    case TimeTerm(time) => TimeNoControl(time);
    case DateTimeTerm(_, time) => TimeNoControl(time);
    case OffsetDateTimeTerm(_, time, offset) =>
      TimeNoControl(time);
      OffsetNoControl(offset);
    case _ =>
  }

  lemma TimeNoControl(t: Time)
    ensures NoControl(t.hour) && NoControl(PrintTimeTail(t))
  {
    assert forall k :: 0 <= k < |t.hour| ==> IsDigit(t.hour[k]);
    assert forall k :: 0 <= k < |t.minute| ==> IsDigit(t.minute[k]);
    assert forall k :: 0 <= k < |t.second| ==> IsDigit(t.second[k]);
    if t.fraction.Some? {
      assert forall k :: 0 <= k < |t.fraction.value| ==> IsDigit(t.fraction.value[k]);
    }
  }

  lemma OffsetNoControl(o: Offset)
    ensures NoControl(PrintOffset(o))
  {
    if o.Signed? {
      assert forall k :: 0 <= k < |o.hours| ==> IsDigit(o.hours[k]);
      assert forall k :: 0 <= k < |o.minutes| ==> IsDigit(o.minutes[k]);
    }
  }

  /** The line body the pass sees, `rest` starting at the LF. */
  lemma NodeExact(line: Line, rest: Bytes)
    requires rest != [] && rest[0] == '\n'
    ensures NodeHead(PrintNode(line) + rest) == Head(ActualNode(line), |PrintNode(line)|)
  {
    if Payload !in line.path {
      PlainNodeExact(line, rest);
    } else {
      PayloadNodeExact(line, rest);
    }
  }

  lemma PlainNodeExact(line: Line, rest: Bytes)
    requires rest != [] && rest[0] == '\n' && Payload !in line.path
    ensures NodeHead(PrintNode(line) + rest) == Head(ActualNode(line), |PrintNode(line)|)
  {
    hide PathRun, SeparatorRun, TermHead, NodeHead, Uncoloured, PrintSegments, PrintSeparator, PrintTerm, TailOf,
         HeadOf, TermPieces, Unknown, NumberPrefix;
    var path, separator := PrintSegments(line.path), PrintSeparator(line.anchor);
    var printed, tail := PrintTerm(line.term), TailOf(line.term);
    TermParts(line.term);
    var term := printed[..|printed| - |tail|];
    assert printed == term + tail;
    Assoc(term, tail, rest);
    TermStarts(line.term, rest);
    SeparatorExact(line.anchor, printed + rest);
    SeparatorStart(line.anchor, printed + rest);
    PathExact(line.path, separator + (printed + rest));
    TermExact(line.term, rest);
    TermNoControl(line.term);
    DollarPath(path);
    LineEnd(tail, rest);
    NodeAssembled(['$'] + path + (separator + (printed + rest)), ['$'] + path, separator + (printed + rest), separator,
                  printed + rest, term, HeadOf(line.term), tail + rest, tail, rest);
    LineAssoc(['$'], path, separator, printed, rest);
    Assoc(['$'], path, separator + (printed + rest));
    assert ActualNode(line) == LinePieces(['$'] + path, separator, HeadOf(line.term), tail);
  }

  lemma LineAssoc(a: Bytes, b: Bytes, c: Bytes, d: Bytes, e: Bytes)
    ensures a + b + c + d + e == a + (b + (c + (d + e)))
  {
  }

  lemma SeparatorStart(anchor: Option<Digits>, rest: Bytes)
    ensures var s := PrintSeparator(anchor) + rest; AfterSegment(s) && s[0] != '['
  {
  }

  lemma SegmentsCons(g: Segment, rest: seq<Segment>)
    ensures PrintSegments([g] + rest) == PrintSegment(g) + PrintSegments(rest)
  {
    assert ([g] + rest)[1..] == rest;
  }

  lemma {:induction false} KnownSplit(path: seq<Segment>)
    requires Payload in path
    ensures PrintSegments(path) == PrintSegments(Known(path)) + PrintSegments(Beyond(path))
    ensures Payload !in Known(path) && Beyond(path) != [] && Beyond(path)[0] == Payload
  {
    hide PrintSegment;
    if path[0] == Payload {
      assert Known(path) == [] && PrintSegments([]) == [];
    } else {
      var rest := path[1..];
      KnownSplit(rest);
      SegmentsCons(path[0], rest);
      SegmentsCons(path[0], Known(rest));
      Assoc(PrintSegment(path[0]), PrintSegments(Known(rest)), PrintSegments(Beyond(rest)));
      assert path == [path[0]] + rest;
    }
  }

  lemma PayloadStart(path: seq<Segment>, rest: Bytes)
    requires path != [] && path[0] == Payload
    ensures var s := PrintSegments(path) + rest;
            AfterSegment(s) && s[0] == '.' && SeparatorRun(s) == 0 && TermHead(s) == Head([], 0)
  {
    hide StringEnd, NumberRun, ContainerTermEnd, TagHead, DigitRun, PrintSegments;
    assert PrintSegments(path)[..1] == ['.'] by { PayloadDot(path); }
    var s := PrintSegments(path) + rest;
    assert s[0] == PrintSegments(path)[..1][0];
  }

  lemma PayloadDot(path: seq<Segment>)
    requires path != [] && path[0] == Payload
    ensures PrintSegments(path) != [] && PrintSegments(path)[..1] == ['.']
  {
    assert PrintSegments(path)[0] == PrintSegment(Payload)[0];
  }

  lemma PayloadNodeExact(line: Line, rest: Bytes)
    requires rest != [] && rest[0] == '\n' && Payload in line.path
    ensures NodeHead(PrintNode(line) + rest) == Head(ActualNode(line), |PrintNode(line)|)
  {
    hide PathRun, SeparatorRun, TermHead, NodeHead, Uncoloured, PrintSegments, PrintSeparator, PrintTerm, LinePieces,
         NoControl, IndexOf;
    var start, beyond := ['$'] + PrintSegments(Known(line.path)), PrintSegments(Beyond(line.path));
    var separator, printed := PrintSeparator(line.anchor), PrintTerm(line.term);
    KnownSplit(line.path);
    Assoc(['$'], PrintSegments(Known(line.path)), beyond);
    var tail := beyond + separator + printed;
    assert PrintNode(line) == start + beyond + separator + printed;
    PayloadTail(line, rest);
    PathExact(Known(line.path), tail + rest);
    DollarPath(PrintSegments(Known(line.path)));
    NothingBefore(tail + rest);
    NodeAssembled(start + (tail + rest), start, tail + rest, [], tail + rest, [], [], tail + rest, tail, rest);
    LineAssoc(start, beyond, separator, printed, rest);
    Assoc(beyond + separator, printed, rest);
    Assoc(beyond, separator, printed + rest);
    BareLine(start, tail);
  }

  lemma NothingBefore(s: Bytes)
    ensures [] + s == s
  {
  }

  lemma BareLine(start: Bytes, tail: Bytes)
    ensures LinePieces(start, [], [], tail) == [Span(SlotKey, start)] + Uncoloured(tail)
  {
  }

  /** What is left of a line from its first payload segment on holds no separator, term or line end the
      pass could see. */
  lemma PayloadTail(line: Line, rest: Bytes)
    requires rest != [] && rest[0] == '\n' && Payload in line.path
    ensures var s := PrintSegments(Beyond(line.path)) + PrintSeparator(line.anchor) + PrintTerm(line.term) + rest;
            AfterSegment(s) && s[0] == '.' && SeparatorRun(s) == 0 && TermHead(s) == Head([], 0) &&
              IndexOf(s, '\n') == |s| - |rest|
  {
    hide PathRun, SeparatorRun, TermHead, PrintSegments, PrintSeparator, PrintTerm, IndexOf;
    var beyond, separator, printed :=
      PrintSegments(Beyond(line.path)), PrintSeparator(line.anchor), PrintTerm(line.term);
    KnownSplit(line.path);
    SegmentsNoControl(Beyond(line.path));
    SeparatorNoControl(line.anchor);
    TermNoControl(line.term);
    PayloadStart(Beyond(line.path), separator + (printed + rest));
    Assoc(beyond + separator, printed, rest);
    Assoc(beyond, separator, printed + rest);
    LineEnd(beyond + separator + printed, rest);
  }

  lemma {:induction false} SpaceRunExact(n: nat, rest: Bytes)
    requires rest != [] && rest[0] != ' '
    ensures SpaceRun(Spaces(n) + rest) == |Spaces(n)|
  {
    if n == 0 {
      assert Spaces(n) + rest == rest;
    } else {
      assert (Spaces(n) + rest)[1..] == Spaces(n - 1) + rest;
      SpaceRunExact(n - 1, rest);
    }
  }

  lemma LineHeadExact(line: Line, rest: Bytes)
    ensures var s := Spaces(line.indent) + (PrintNode(line) + (['\n'] + rest));
            s != [] && LineHead(s) ==
              Head(Uncoloured(Spaces(line.indent)) + ActualNode(line), |Spaces(line.indent)| + |PrintNode(line)|)
  {
    hide NodeHead, ActualNode, SpaceRun, Uncoloured, PrintNode, Spaces, ThroughLf;
    var node, lf := PrintNode(line), ['\n'] + rest;
    NodeExact(line, lf);
    NodeStart(line);
    assert (node + lf)[0] == '$';
    SpaceRunExact(line.indent, node + lf);
    Seam(Spaces(line.indent), node + lf);
  }

  lemma NodeStart(line: Line)
    ensures PrintNode(line) != [] && PrintNode(line)[0] == '$'
  {
  }

  lemma ScanStep(s: Bytes, pieces: seq<Piece>, head: Bytes, rest: Bytes)
    requires s == head + rest && s != [] && LineHead(s) == Head(pieces, |head|)
    ensures TerminalScan(s) == pieces + TerminalScan(rest)
  {
    hide LineHead;
    Seam(head, rest);
  }

  /** One printed line, scanned. */
  lemma ScanLine(line: Line, rest: Bytes)
    ensures TerminalScan(Spaces(line.indent) + PrintNode(line) + ['\n'] + rest) ==
            Uncoloured(Spaces(line.indent)) + ActualNode(line) + Uncoloured(['\n']) + TerminalScan(rest)
  {
    hide TerminalScan, LineHead, ActualNode, Uncoloured, PrintNode, Spaces;
    var indent, node, lf := Spaces(line.indent), PrintNode(line), ['\n'] + rest;
    Assoc(indent + node, ['\n'], rest);
    Assoc(indent, node, lf);
    LineHeadExact(line, rest);
    ScanStep(indent + (node + lf), Uncoloured(indent) + ActualNode(line), indent + node, lf);
    ScanLf(rest);
    PieceAssoc(Uncoloured(indent) + ActualNode(line), Uncoloured(['\n']), TerminalScan(rest));
  }

  lemma ScanLf(rest: Bytes)
    ensures TerminalScan(['\n'] + rest) == Uncoloured(['\n']) + TerminalScan(rest)
  {
    var s := ['\n'] + rest;
    Seam(['\n'], rest);
    SpaceRunNone(s);
    assert s[0..] == s && s[..0] == [];
    assert LineHead(s) == Head([] + Uncoloured(s[..1]), 1);
    assert [] + Uncoloured(s[..1]) == Uncoloured(['\n']);
  }

  lemma SpaceRunNone(s: Bytes)
    requires s != [] && s[0] == '\n'
    ensures SpaceRun(s) == 0 && ThroughLf(s) == 1
  {
    IndexOfUnique(s, '\n', 0);
  }

  lemma {:induction false} ScanFrame(lines: seq<Line>)
    ensures TerminalScan(PrintFrame(lines)) == ActualFrame(lines)
  {
    if lines != [] {
      hide TerminalScan, ActualNode, PrintNode, Uncoloured, Spaces;
      ScanFrame(lines[1..]);
      ScanLine(lines[0], PrintFrame(lines[1..]));
    }
  }

  // ----- The law and its exact condition -----

  /** The colour of every byte a piece list writes. */
  function Paint(pieces: seq<Piece>): seq<Option<Slot>>
  {
    if pieces == [] then []
    else Coat(if pieces[0].Span? then Some(pieces[0].slot) else None, |pieces[0].text|) + Paint(pieces[1..])
  }

  function Coat(colour: Option<Slot>, n: nat): (r: seq<Option<Slot>>)
    ensures |r| == n && forall k :: 0 <= k < n ==> r[k] == colour
  {
    if n == 0 then [] else [colour] + Coat(colour, n - 1)
  }

  lemma {:induction false} PaintAppend(a: seq<Piece>, b: seq<Piece>)
    ensures Paint(a + b) == Paint(a) + Paint(b)
  {
    if a == [] {
      assert a + b == b;
    } else {
      assert (a + b)[1..] == a[1..] + b;
      PaintAppend(a[1..], b);
    }
  }

  lemma {:induction false} PaintNone(bytes: Bytes)
    ensures Paint(Uncoloured(bytes)) == Coat(None, |bytes|)
  {
    if bytes != [] {
      PaintNone(bytes[1..]);
      assert Uncoloured(bytes)[1..] == Uncoloured(bytes[1..]);
      assert Coat(None, |bytes[..1]|) == [None];
    }
  }

  lemma PaintSpan(slot: Slot, text: Bytes)
    ensures Paint([Span(slot, text)]) == Coat(Some(slot), |text|)
  {
    assert [Span(slot, text)][1..] == [];
  }

  /** A line the pass colours as it should: no payload segment in its path, and a term of a known kind. */
  predicate Lawful(line: Line) { Payload !in line.path && !Unknown(line.term) }

  predicate AllLawful(lines: seq<Line>) { forall k :: 0 <= k < |lines| ==> Lawful(lines[k]) }

  lemma LawfulNode(line: Line)
    requires Lawful(line)
    ensures ActualNode(line) == NodePieces(line)
  {
    hide TermPieces, HeadOf, TailOf, Unknown, Uncoloured;
    TermParts(line.term);
  }

  /** Behind a payload segment bytes of the path that should have the key colour have none. */
  lemma PayloadUncolours(line: Line)
    requires Payload in line.path
    ensures |Paint(ActualNode(line))| == |Paint(NodePieces(line))| && Paint(ActualNode(line)) != Paint(NodePieces(line))
  {
    hide Paint, Uncoloured, PrintSegments, TermPieces, PrintTerm, PrintSeparator;
    KnownSplit(line.path);
    PayloadStart(Beyond(line.path), []);
    var known, beyond := PrintSegments(Known(line.path)), PrintSegments(Beyond(line.path));
    assert |beyond| > 0 by { assert beyond + [] == beyond; }
    var separator, printed := PrintSeparator(line.anchor), PrintTerm(line.term);
    var path := [Span(SlotKey, ['$'] + PrintSegments(line.path))];
    PaintSpan(SlotKey, ['$'] + PrintSegments(line.path));
    PaintAppend(path, Uncoloured(separator));
    PaintAppend(path + Uncoloured(separator), TermPieces(line.term));
    PaintNone(separator);
    TermWidth(line.term);
    PaintSpan(SlotKey, ['$'] + known);
    var tail := beyond + separator + printed;
    PaintAppend([Span(SlotKey, ['$'] + known)], Uncoloured(tail));
    PaintNone(tail);
    var k := 1 + |known|;
    assert Paint(ActualNode(line))[k] == None;
    assert Paint(NodePieces(line))[k] == Some(SlotKey);
  }

  lemma TermWidth(t: Term)
    ensures |Paint(TermPieces(t))| == |PrintTerm(t)|
  {
    hide Paint, Uncoloured, PrintString;
    match t
    case TagTerm(chars) =>
      var name, quoted := Uncoloured("tag("), [Span(SlotString, PrintString(chars))];
      PaintNone("tag(");
      PaintSpan(SlotString, PrintString(chars));
      PaintNone([')']);
      PaintAppend(name, quoted);
      PaintAppend(name + quoted, Uncoloured([')']));
    case _ =>
      PaintNone(PrintTerm(t));
      PaintSpan(SlotNumber, PrintTerm(t));
      PaintSpan(SlotString, PrintTerm(t));
      PaintSpan(SlotTrue, PrintTerm(t));
      PaintSpan(SlotFalse, PrintTerm(t));
      PaintSpan(SlotNull, PrintTerm(t));
      PaintSpan(SlotArray, PrintTerm(t));
      PaintSpan(SlotObject, PrintTerm(t));
  }

  /** A term of an unknown kind always has a byte in the wrong colour: the infinities and not-a-number lack the number
      colour at their end, bytes and times have it at their start. */
  lemma UnknownMiscoloured(t: Term)
    requires Unknown(t)
    ensures var actual := HeadOf(t) + Uncoloured(TailOf(t));
            |Paint(actual)| == |PrintTerm(t)| && Paint(actual) != Paint(TermPieces(t))
  {
    UnknownParts(t);
    hide Paint, Uncoloured, PrintTerm, NumberPrefix, HeadOf, TailOf, TermPieces, Coat;
    PaintActual(t);
    PaintLaw(t);
    UnknownStarts(t);
    var actual, law := Paint(HeadOf(t) + Uncoloured(TailOf(t))), Paint(TermPieces(t));
    if t.InfiniteTerm? || t.NanTerm? {
      var last := |PrintTerm(t)| - 1;
      assert actual[last] == None && law[last] == Some(SlotNumber);
    } else {
      assert actual[0] == Some(SlotNumber) && law[0] == None;
    }
  }

  lemma PaintActual(t: Term)
    requires Unknown(t)
    ensures Paint(HeadOf(t) + Uncoloured(TailOf(t))) ==
            Coat(Some(SlotNumber), |NumberPrefix(t)|) + Coat(None, |TailOf(t)|)
  {
    hide Paint, Uncoloured, NumberPrefix, TailOf;
    PaintAppend(HeadOf(t), Uncoloured(TailOf(t)));
    PaintNone(TailOf(t));
    if NumberPrefix(t) == [] {
      NothingPainted();
    } else {
      PaintSpan(SlotNumber, NumberPrefix(t));
    }
  }

  lemma PaintLaw(t: Term)
    requires Unknown(t)
    ensures Paint(TermPieces(t)) ==
            Coat(if t.InfiniteTerm? || t.NanTerm? then Some(SlotNumber) else None, |PrintTerm(t)|)
  {
    hide Paint, Uncoloured, PrintTerm;
    if t.InfiniteTerm? || t.NanTerm? {
      PaintSpan(SlotNumber, PrintTerm(t));
    } else {
      PaintNone(PrintTerm(t));
    }
  }

  lemma NothingPainted()
    ensures Paint([]) == []
  {
  }

  lemma UnknownStarts(t: Term)
    requires Unknown(t)
    ensures if t.InfiniteTerm? || t.NanTerm? then TailOf(t) != [] else NumberPrefix(t) != []
  {
  }

  lemma UnlawfulNode(line: Line)
    requires !Lawful(line)
    ensures |Paint(ActualNode(line))| == |Paint(NodePieces(line))| && Paint(ActualNode(line)) != Paint(NodePieces(line))
  {
    if Payload in line.path {
      PayloadUncolours(line);
    } else {
      hide Paint, Uncoloured, HeadOf, TailOf, TermPieces, Unknown, PrintTerm, PrintSegments, PrintSeparator;
      UnknownMiscoloured(line.term);
      TermWidth(line.term);
      var start := [Span(SlotKey, ['$'] + PrintSegments(line.path))] + Uncoloured(PrintSeparator(line.anchor));
      var actual, law := HeadOf(line.term) + Uncoloured(TailOf(line.term)), TermPieces(line.term);
      PaintAppend(start, actual);
      PaintAppend(start, law);
      assert ActualNode(line) == start + actual && NodePieces(line) == start + law;
      Differ(Paint(start), Paint(actual), Paint(law), [], []);
      assert Paint(start) + Paint(actual) + [] == Paint(start) + Paint(actual);
      assert Paint(start) + Paint(law) + [] == Paint(start) + Paint(law);
    }
  }

  /** Lists with parts of one length in the middle are equal exactly when all their parts are. */
  lemma Differ<T>(before: seq<T>, a: seq<T>, b: seq<T>, restA: seq<T>, restB: seq<T>)
    requires |a| == |b|
    ensures before + a + restA == before + b + restB <==> a == b && restA == restB
  {
    var x, y := before + a + restA, before + b + restB;
    assert x[|before|..|before| + |a|] == a && y[|before|..|before| + |b|] == b;
    assert x[|before| + |a|..] == restA && y[|before| + |b|..] == restB;
  }

  lemma FramePaint(line: Line, node: seq<Piece>, rest: seq<Piece>)
    ensures Paint(Uncoloured(Spaces(line.indent)) + node + Uncoloured(['\n']) + rest) ==
            Paint(Uncoloured(Spaces(line.indent))) + Paint(node) + (Coat(None, 1) + Paint(rest))
  {
    hide Paint, Uncoloured, Coat;
    var indent, lf := Uncoloured(Spaces(line.indent)), Uncoloured(['\n']);
    PaintNone(['\n']);
    PaintAppend(indent, node);
    PaintAppend(indent + node, lf);
    PaintAppend(indent + node + lf, rest);
  }

  /** Frames of two lines that begin alike are painted alike exactly when the nodes and the rests are. */
  lemma FramesDiffer(line: Line, a: seq<Piece>, b: seq<Piece>, restA: seq<Piece>, restB: seq<Piece>)
    requires |Paint(a)| == |Paint(b)|
    ensures Paint(Uncoloured(Spaces(line.indent)) + a + Uncoloured(['\n']) + restA) ==
            Paint(Uncoloured(Spaces(line.indent)) + b + Uncoloured(['\n']) + restB) <==>
            Paint(a) == Paint(b) && Paint(restA) == Paint(restB)
  {
    hide Paint, Uncoloured, Spaces, Coat;
    FramePaint(line, a, restA);
    FramePaint(line, b, restB);
    var indent, lf := Paint(Uncoloured(Spaces(line.indent))), Coat(None, 1);
    Differ(indent, Paint(a), Paint(b), lf + Paint(restA), lf + Paint(restB));
    Differ(lf, [], [], Paint(restA), Paint(restB));
    assert lf + [] + Paint(restA) == lf + Paint(restA);
    assert lf + [] + Paint(restB) == lf + Paint(restB);
  }

  lemma {:induction false} ActualVersusLaw(lines: seq<Line>)
    ensures AllLawful(lines) ==> ActualFrame(lines) == FramePieces(lines)
    ensures Paint(ActualFrame(lines)) == Paint(FramePieces(lines)) ==> AllLawful(lines)
  {
    if lines == [] {
      assert AllLawful(lines);
    }
    if lines != [] {
      hide Paint, Uncoloured, Spaces, NodePieces, ActualNode, Lawful, AllLawful;
      var line, rest := lines[0], lines[1..];
      ActualVersusLaw(rest);
      if Lawful(line) {
        LawfulNode(line);
      } else {
        UnlawfulNode(line);
      }
      FramesDiffer(line, ActualNode(line), NodePieces(line), ActualFrame(rest), FramePieces(rest));
      AllLawfulCons(lines);
    }
  }

  lemma AllLawfulCons(lines: seq<Line>)
    requires lines != []
    ensures AllLawful(lines) <==> Lawful(lines[0]) && AllLawful(lines[1..])
  {
    assert forall k :: 0 <= k < |lines[1..]| ==> lines[1..][k] == lines[k + 1];
  }

  /** The pass colours a frame by kind, byte for byte, exactly when no path in it runs through a tag payload and no term
      is an infinity, not-a-number, bytes, a date or a time. */
  lemma TreeLawExact(lines: seq<Line>)
    ensures Paint(TerminalScan(PrintFrame(lines))) == Paint(FramePieces(lines)) <==> AllLawful(lines)
    ensures TerminalScan(PrintFrame(lines)) == FramePieces(lines) <==> AllLawful(lines)
  {
    ScanFrame(lines);
    ActualVersusLaw(lines);
  }

  /** Two inputs the law fails on: one byte string, of which the leading zero is coloured, and an infinity. */
  lemma TreeLawCounterexample()
    ensures var line := Line(0, [], None, BytesTerm("61"));
            PrintFrame([line]) == "$ = 0x61\n" &&
            TerminalScan("$ = 0x61\n") ==
            [Span(SlotKey, "$")] + Uncoloured(" = ") + [Span(SlotNumber, "0")] + Uncoloured("x61") + Uncoloured("\n") &&
            TerminalScan("$ = 0x61\n") != FramePieces([line])
    ensures var line := Line(0, [], None, InfiniteTerm(false));
            PrintFrame([line]) == "$ = inf\n" && TerminalScan("$ = inf\n") != FramePieces([line])
  {
    hide TerminalScan, Uncoloured, ActualFrame, FramePieces, Paint, PrintFrame;
    var bytes, infinity := Line(0, [], None, BytesTerm("61")), Line(0, [], None, InfiniteTerm(false));
    TreeLawExact([bytes]);
    TreeLawExact([infinity]);
    ScanFrame([bytes]);
    assert !Lawful([bytes][0]) && !Lawful([infinity][0]);
    assert PrintNode(bytes) == "$ = 0x61" && PrintNode(infinity) == "$ = inf";
    assert PrintFrame([bytes]) == "$ = 0x61\n" by { OneLine(bytes); }
    assert PrintFrame([infinity]) == "$ = inf\n" by { OneLine(infinity); }
    OneLine(bytes);
    assert PrintSegments(bytes.path) == [] && PrintSeparator(bytes.anchor) == " = ";
    assert HeadOf(bytes.term) == [Span(SlotNumber, "0")] && TailOf(bytes.term) == "x61" && ['$'] + [] == "$";
    assert ActualNode(bytes) ==
           [Span(SlotKey, "$")] + Uncoloured(" = ") + [Span(SlotNumber, "0")] + Uncoloured("x61");
  }

  /** And one with a payload segment: nothing behind it is coloured, the path's own end and the number included. */
  lemma PayloadCounterexample()
    ensures var line := Line(0, [Payload], None, NumberTerm("1"));
            PrintFrame([line]) == "$.payload = 1\n" &&
            TerminalScan("$.payload = 1\n") == [Span(SlotKey, "$")] + Uncoloured(".payload = 1") + Uncoloured("\n") &&
            TerminalScan("$.payload = 1\n") != FramePieces([line])
  {
    hide TerminalScan, Uncoloured, ActualFrame, FramePieces, Paint, PrintFrame;
    var line := Line(0, [Payload], None, NumberTerm("1"));
    TreeLawExact([line]);
    ScanFrame([line]);
    OneLine(line);
    assert Payload in line.path && !Lawful([line][0]);
    assert PrintSegments([Payload]) == ".payload" && PrintSeparator(None) == " = ";
    assert Known(line.path) == [] && Beyond(line.path) == [Payload] && PrintSegments([]) == [];
    assert ['$'] + [] == "$" && PrintNode(line) == "$.payload = 1";
    assert ".payload" + " = " + PrintTerm(line.term) == ".payload = 1";
    assert PrintSegments(Beyond(line.path)) == ".payload" && PrintSegments(Known(line.path)) == [];
    assert ActualNode(line) == [Span(SlotKey, "$")] + Uncoloured(".payload = 1");
  }

  lemma OneLine(line: Line)
    requires line.indent == 0
    ensures PrintFrame([line]) == PrintNode(line) + ['\n']
    ensures ActualFrame([line]) == ActualNode(line) + Uncoloured(['\n'])
  {
    hide PrintNode, ActualNode;
    assert [line][1..] == [] && Spaces(0) == [] && Uncoloured([]) == [];
    assert PrintFrame([]) == [] && ActualFrame([]) == [];
  }
}
