/**
 JSON texts after RFC 8259, sections 2, 6 and 7, with every piece of insignificant white space kept, and the law that
 the flat colour pass chooses the colours a recursive walk of the value would choose.
 */
module JsonText {
  import opened Bytes
  import opened Colour
  import opened Strip

  // ----- The grammar -----

  predicate IsGapByte(b: Byte) { b == ' ' || b == '\t' || b == '\n' || b == '\r' }

  /** Insignificant white space. */
  type Gap = s: Bytes | forall k :: 0 <= k < |s| ==> IsGapByte(s[k])

  type Digits = s: Bytes | |s| > 0 && forall k :: 0 <= k < |s| ==> IsDigit(s[k])
    witness ['0']

  /** The integer part: no leading zero. */
  type IntPart = s: Digits | s[0] == '0' ==> |s| == 1
    witness ['0']

  datatype Sign = NoSign | Plus | Minus

  datatype Exponent = Exponent(upper: bool, sign: Sign, digits: Digits)

  datatype Number = Number(negative: bool, whole: IntPart, fraction: Option<Digits>, exponent: Option<Exponent>)

  predicate IsUnescaped(b: Byte) { b >= ' ' && b != '"' && b != '\\' }

  predicate IsEscapeLetter(b: Byte)
  {
    b == '"' || b == '\\' || b == '/' || b == 'b' || b == 'f' || b == 'n' || b == 'r' || b == 't'
  }

  predicate IsHexDigit(b: Byte) { IsDigit(b) || 'a' <= b <= 'f' || 'A' <= b <= 'F' }

  type Unescaped = b: Byte | IsUnescaped(b) witness ' '
  type EscapeLetter = b: Byte | IsEscapeLetter(b) witness '"'
  type HexDigit = b: Byte | IsHexDigit(b) witness '0'

  datatype Char =
    | Raw(b: Unescaped)
    | Escape(letter: EscapeLetter)
    | Unicode(h0: HexDigit, h1: HexDigit, h2: HexDigit, h3: HexDigit)

  datatype Text =
    | Null
    | False
    | True
    | Num(number: Number)
    | Str(chars: seq<Char>)
    | EmptyArr(inside: Gap)
    | Arr(elements: Elements)
    | EmptyObj(inside: Gap)
    | Obj(members: Members)

  /** One or more array elements, each with the white space around it. */
  datatype Elements =
    | LastElement(before: Gap, value: Text, after: Gap)
    | MoreElements(before: Gap, value: Text, after: Gap, rest: Elements)

  /** One or more object members, each with the white space around key, colon and value. */
  datatype Members =
    | LastMember(m: Member)
    | MoreMembers(m: Member, rest: Members)

  datatype Member = Member(beforeKey: Gap, key: seq<Char>, afterKey: Gap, beforeValue: Gap, value: Text, after: Gap)

  // ----- The printed bytes -----

  function PrintExponent(e: Exponent): Bytes
  {
    [if e.upper then 'E' else 'e'] +
    (match e.sign case NoSign => [] case Plus => ['+'] case Minus => ['-']) +
    e.digits
  }

  function PrintNumber(n: Number): Bytes
  {
    (if n.negative then ['-'] else []) + n.whole +
    (match n.fraction case None => [] case Some(d) => ['.'] + d) +
    (match n.exponent case None => [] case Some(e) => PrintExponent(e))
  }

  function PrintChar(c: Char): Bytes
  {
    match c
    case Raw(b) => [b]
    case Escape(letter) => ['\\', letter]
    case Unicode(h0, h1, h2, h3) => ['\\', 'u', h0, h1, h2, h3]
  }

  function PrintChars(chars: seq<Char>): Bytes
  {
    if chars == [] then [] else PrintChar(chars[0]) + PrintChars(chars[1..])
  }

  function PrintString(chars: seq<Char>): Bytes { ['"'] + PrintChars(chars) + ['"'] }

  function Print(t: Text): Bytes
  {
    match t
    case Null => "null"
    case False => "false"
    case True => "true"
    case Num(n) => PrintNumber(n)
    case Str(chars) => PrintString(chars)
    case EmptyArr(inside) => ['['] + inside + [']']
    case Arr(elements) => ['['] + PrintElements(elements) + [']']
    case EmptyObj(inside) => ['{'] + inside + ['}']
    case Obj(members) => ['{'] + PrintMembers(members) + ['}']
  }

  function PrintElements(es: Elements): Bytes
  {
    match es
    case LastElement(before, value, after) => before + Print(value) + after
    case MoreElements(before, value, after, rest) => before + Print(value) + after + [','] + PrintElements(rest)
  }

  function PrintMember(m: Member): Bytes
  {
    m.beforeKey + PrintString(m.key) + m.afterKey + [':'] + m.beforeValue + Print(m.value) + m.after
  }

  function PrintMembers(ms: Members): Bytes
  {
    match ms
    case LastMember(m) => PrintMember(m)
    case MoreMembers(m, rest) => PrintMember(m) + [','] + PrintMembers(rest)
  }

  // ----- The structural colouring: recursion on the value -----

  function Structural(t: Text): seq<Piece>
  {
    match t
    case Null => [Span(SlotNull, "null")]
    case False => [Span(SlotFalse, "false")]
    case True => [Span(SlotTrue, "true")]
    case Num(n) => [Span(SlotNumber, PrintNumber(n))]
    case Str(chars) => [Span(SlotString, PrintString(chars))]
    case EmptyArr(inside) =>
      if inside == [] then [Span(SlotArray, ['[', ']'])]
      else [Span(SlotArray, ['['])] + Uncoloured(inside) + [Span(SlotArray, [']'])]
    case Arr(elements) => [Span(SlotArray, ['['])] + StructuralElements(elements) + [Span(SlotArray, [']'])]
    case EmptyObj(inside) =>
      if inside == [] then [Span(SlotObject, ['{', '}'])]
      else [Span(SlotObject, ['{'])] + Uncoloured(inside) + [Span(SlotObject, ['}'])]
    case Obj(members) => [Span(SlotObject, ['{'])] + StructuralMembers(members) + [Span(SlotObject, ['}'])]
  }

  /** Commas between elements are array-coloured. */
  function StructuralElements(es: Elements): seq<Piece>
  {
    match es
    case LastElement(before, value, after) => Uncoloured(before) + Structural(value) + Uncoloured(after)
    case MoreElements(before, value, after, rest) =>
      Uncoloured(before) + Structural(value) + Uncoloured(after) + [Span(SlotArray, [','])] + StructuralElements(rest)
  }

  /** The key in the key colour, the colon in the object colour. */
  function StructuralMember(m: Member): seq<Piece>
  {
    Uncoloured(m.beforeKey) + [Span(SlotKey, PrintString(m.key))] + Uncoloured(m.afterKey) +
    [Span(SlotObject, [':'])] + Uncoloured(m.beforeValue) + Structural(m.value) + Uncoloured(m.after)
  }

  /** Commas between members are object-coloured. */
  function StructuralMembers(ms: Members): seq<Piece>
  {
    match ms
    case LastMember(m) => StructuralMember(m)
    case MoreMembers(m, rest) => StructuralMember(m) + [Span(SlotObject, [','])] + StructuralMembers(rest)
  }

  // ----- Tokens inside a longer input -----

  /** A byte the pass copies without looking further. */
  predicate IsInert(b: Byte)
  {
    !IsBracket(b) && !IsSeparator(b) && b != '"' && b != 't' && b != 'f' && b != 'n' && b != '-' && !IsDigit(b)
  }

  /** What follows a value cannot continue it. */
  predicate Ends(rest: Bytes)
  {
    rest == [] || !IsNumberByte(rest[0])
  }

  /** A position where a string would be a value and not a key. */
  predicate AtValue(stack: seq<Container>, prev: Prev)
  {
    !IsKey(stack, prev)
  }

  /** One scan step, spelled for a known head token. */
  lemma ScanHead(head: Bytes, rest: Bytes, stack: seq<Container>, prev: Prev, t: Token)
    requires head != [] && NextToken(head + rest, stack, prev) == t && t.piece.text == head
    ensures Scan(head + rest, stack, prev) == [t.piece] + Scan(rest, t.stack, t.prev)
  {
    assert (head + rest)[|head|..] == rest;
  }

  lemma InertToken(b: Byte, rest: Bytes, stack: seq<Container>, prev: Prev)
    requires IsInert(b)
    ensures NextToken([b] + rest, stack, prev) == Token(Plain([b]), stack, prev)
  {
    assert ([b] + rest)[..1] == [b];
  }

  lemma UncolouredHead(bytes: Bytes)
    requires bytes != []
    ensures Uncoloured(bytes) == [Plain([bytes[0]])] + Uncoloured(bytes[1..])
  {
    assert bytes[..1] == [bytes[0]];
  }

  lemma UncolouredNothing()
    ensures Uncoloured([]) == []
  {
  }

  lemma {:induction false} ScanInert(bytes: Bytes, rest: Bytes, stack: seq<Container>, prev: Prev)
    requires forall k :: 0 <= k < |bytes| ==> IsInert(bytes[k])
    ensures Scan(bytes + rest, stack, prev) == Uncoloured(bytes) + Scan(rest, stack, prev)
  {
    hide Scan, NextToken, IsInert, Uncoloured;
    if bytes == [] {
      assert bytes + rest == rest;
      UncolouredNothing();
    } else {
      var tail := bytes[1..] + rest;
      assert bytes[..1] == [bytes[0]] && bytes + rest == [bytes[0]] + tail;
      InertToken(bytes[0], tail, stack, prev);
      ScanHead([bytes[0]], tail, stack, prev, Token(Plain([bytes[0]]), stack, prev));
      ScanInert(bytes[1..], rest, stack, prev);
      UncolouredHead(bytes);
    }
  }

  lemma ScanGap(gap: Gap, rest: Bytes, stack: seq<Container>, prev: Prev)
    ensures Scan(gap + rest, stack, prev) == Uncoloured(gap) + Scan(rest, stack, prev)
  {
    ScanInert(gap, rest, stack, prev);
  }

  // ----- Strings and numbers are exactly one token -----

  lemma CharSkipped(s: Bytes, i: nat, c: Char)
    requires i + |PrintChar(c)| < |s| && s[i..i + |PrintChar(c)|] == PrintChar(c)
    ensures StringEnd(s, i) == StringEnd(s, i + |PrintChar(c)|)
  {
    var w := PrintChar(c);
    assert forall k :: 0 <= k < |w| ==> s[i + k] == s[i..i + |w|][k] == w[k];
    assert s[i + 0] == w[0];
    if c.Unicode? {
      assert w[2] == c.h0 && w[3] == c.h1 && w[4] == c.h2 && w[5] == c.h3;
      assert StringEnd(s, i) == StringEnd(s, i + 2) == StringEnd(s, i + 3) == StringEnd(s, i + 4);
      assert StringEnd(s, i + 4) == StringEnd(s, i + 5) == StringEnd(s, i + 6);
    }
  }

  lemma {:induction false} StringEndsAtQuote(before: Bytes, chars: seq<Char>, rest: Bytes)
    ensures StringEnd(before + PrintChars(chars) + ['"'] + rest, |before|) == |before + PrintChars(chars)| + 1
    decreases |chars|
  {
    var s := before + PrintChars(chars) + ['"'] + rest;
    if chars == [] {
      assert s[|before|] == '"';
    } else {
      var w := PrintChar(chars[0]);
      var next := before + w;
      assert s == next + PrintChars(chars[1..]) + ['"'] + rest;
      StringEndsAtQuote(next, chars[1..], rest);
      assert s[|before|..|next|] == w;
      CharSkipped(s, |before|, chars[0]);
    }
  }

  lemma ScanString(chars: seq<Char>, rest: Bytes, stack: seq<Container>, prev: Prev)
    ensures Scan(PrintString(chars) + rest, stack, prev) ==
            [Span(if IsKey(stack, prev) then SlotKey else SlotString, PrintString(chars))] + Scan(rest, stack, Other)
  {
    var token := PrintString(chars);
    var s := token + rest;
    assert s == ['"'] + PrintChars(chars) + ['"'] + rest;
    StringEndsAtQuote(['"'], chars, rest);
    assert s[..|token|] == token;
    ScanHead(token, rest, stack, prev,
             Token(Span(if IsKey(stack, prev) then SlotKey else SlotString, token), stack, Other));
  }

  lemma NumberBytes(n: Number)
    ensures var s := PrintNumber(n);
            s != [] && (s[0] == '-' || IsDigit(s[0])) && forall k :: 0 <= k < |s| ==> IsNumberByte(s[k])
  {
    var sign := if n.negative then ['-'] else [];
    var fraction := match n.fraction case None => [] case Some(d) => ['.'] + d;
    var exponent := match n.exponent case None => [] case Some(e) => PrintExponent(e);
    assert forall k :: 0 <= k < |exponent| ==> IsNumberByte(exponent[k]) by {
      if n.exponent.Some? {
        var e := n.exponent.value;
        assert forall k :: 0 <= k < |e.digits| ==> IsDigit(e.digits[k]);
      }
    }
    assert forall k :: 0 <= k < |fraction| ==> IsNumberByte(fraction[k]) by {
      if n.fraction.Some? {
        assert forall k :: 0 <= k < |n.fraction.value| ==> IsDigit(n.fraction.value[k]);
      }
    }
    assert PrintNumber(n) == sign + n.whole + fraction + exponent;
  }

  lemma ScanNumber(n: Number, rest: Bytes, stack: seq<Container>, prev: Prev)
    requires Ends(rest)
    ensures Scan(PrintNumber(n) + rest, stack, prev) == [Span(SlotNumber, PrintNumber(n))] + Scan(rest, stack, Other)
  {
    var token := PrintNumber(n);
    var s := token + rest;
    NumberBytes(n);
    NumberRunAt(s, |token|);
    assert s[0] == token[0] && s[..|token|] == token;
    ScanHead(token, rest, stack, prev, Token(Span(SlotNumber, token), stack, Other));
  }

  lemma ScanWord(word: Bytes, slot: Slot, rest: Bytes, stack: seq<Container>, prev: Prev)
    requires (word, slot) in {("null", SlotNull), ("false", SlotFalse), ("true", SlotTrue)}
    ensures Scan(word + rest, stack, prev) == [Span(slot, word)] + Scan(rest, stack, Other)
  {
    assert (word + rest)[..|word|] == word;
    ScanHead(word, rest, stack, prev, Token(Span(slot, word), stack, Other));
  }

  function KindOf(bracket: Byte): Container { if bracket == '[' || bracket == ']' then Array else Object }

  function SlotOf(kind: Container): Slot { if kind == Array then SlotArray else SlotObject }

  /** An opening bracket that is not half of an empty container pushes its kind. */
  lemma ScanOpen(open: Byte, close: Byte, rest: Bytes, stack: seq<Container>, prev: Prev)
    requires (open, close) in {('[', ']'), ('{', '}')} && rest != [] && rest[0] != close
    ensures Scan([open] + rest, stack, prev) == [Span(SlotOf(KindOf(open)), [open])] +
            Scan(rest, stack + [KindOf(open)], if open == '{' then OpenObject else Other)
  {
    var s := [open] + rest;
    assert s[..1] == [open] && s[1] == rest[0];
    ScanHead([open], rest, stack, prev, BracketToken(s, stack));
  }

  /** A closing bracket pops back to the enclosing container. */
  lemma ScanClose(close: Byte, rest: Bytes, stack: seq<Container>, prev: Prev)
    requires close == ']' || close == '}'
    ensures Scan([close] + rest, stack + [KindOf(close)], prev) ==
            [Span(SlotOf(KindOf(close)), [close])] + Scan(rest, stack, Other)
  {
    var s := [close] + rest;
    assert s[..1] == [close] && Pop(stack + [KindOf(close)]) == stack;
    ScanHead([close], rest, stack + [KindOf(close)], prev, BracketToken(s, stack + [KindOf(close)]));
  }

  lemma ScanComma(kind: Container, rest: Bytes, stack: seq<Container>, prev: Prev)
    requires Last(stack) == Some(kind)
    ensures Scan([','] + rest, stack, prev) == [Span(SlotOf(kind), [','])] + Scan(rest, stack, Comma)
  {
    var s := [','] + rest;
    assert s[..1] == [','];
    ScanHead([','], rest, stack, prev, SeparatorToken(s, stack));
  }

  lemma ScanColon(rest: Bytes, stack: seq<Container>, prev: Prev)
    ensures Scan([':'] + rest, stack, prev) == [Span(SlotObject, [':'])] + Scan(rest, stack, Other)
  {
    var s := [':'] + rest;
    assert s[..1] == [':'];
    ScanHead([':'], rest, stack, prev, SeparatorToken(s, stack));
  }

  // ----- The law -----

  lemma PrintStart(t: Text)
    ensures var s := Print(t); s != [] && !IsGapByte(s[0]) && s[0] != ']' && s[0] != '}'
  {
    if t.Num? {
      NumberBytes(t.number);
    }
  }

  /** The first byte of a gap followed by a value neither closes a bracket nor is missing. */
  lemma GapThenValue(gap: Gap, t: Text, rest: Bytes)
    ensures var s := gap + Print(t) + rest; s != [] && s[0] != ']' && s[0] != '}'
  {
    PrintStart(t);
    var s := gap + Print(t) + rest;
    if gap != [] {
      assert s[0] == gap[0] && IsGapByte(gap[0]);
    } else {
      assert s[0] == Print(t)[0];
    }
  }

  lemma GapEnds(gap: Gap, rest: Bytes)
    requires Ends(rest)
    ensures Ends(gap + rest)
  {
    if gap != [] {
      assert (gap + rest)[0] == gap[0] && IsGapByte(gap[0]);
    } else {
      assert gap + rest == rest;
    }
  }

  /** A value between two gaps, where the container stack is unchanged and no key is expected afterwards. */
  lemma ScanPadded(before: Gap, t: Text, after: Gap, rest: Bytes, stack: seq<Container>, prev: Prev)
    requires AtValue(stack, prev) && Ends(rest)
    ensures Scan(before + Print(t) + after + rest, stack, prev) ==
            Uncoloured(before) + Structural(t) + Uncoloured(after) + Scan(rest, stack, Other)
    decreases t, 1
  {
    hide Scan, Structural, Uncoloured, Print;
    GapEnds(after, rest);
    ScanText(t, after + rest, stack, prev);
    ScanGap(before, Print(t) + (after + rest), stack, prev);
    ScanGap(after, rest, stack, Other);
    Assoc(before + Print(t), after, rest);
    Assoc(before, Print(t), after + rest);
    PieceAssoc(Uncoloured(before) + Structural(t), Uncoloured(after), Scan(rest, stack, Other));
    PieceAssoc(Uncoloured(before), Structural(t), Uncoloured(after) + Scan(rest, stack, Other));
  }

  /** Scanning a value yields its structural colouring and restores the stack of open ancestors. */
  lemma {:induction false} ScanText(t: Text, rest: Bytes, stack: seq<Container>, prev: Prev)
    requires AtValue(stack, prev) && Ends(rest)
    ensures Scan(Print(t) + rest, stack, prev) == Structural(t) + Scan(rest, stack, Other)
    decreases t, 0
  {
    match t
    case Null => ScanWord("null", SlotNull, rest, stack, prev);
    case False => ScanWord("false", SlotFalse, rest, stack, prev);
    case True => ScanWord("true", SlotTrue, rest, stack, prev);
    case Num(n) => ScanNumber(n, rest, stack, prev);
    case Str(chars) => ScanString(chars, rest, stack, prev);
    case EmptyArr(inside) => ScanEmpty('[', ']', inside, rest, stack, prev);
    case EmptyObj(inside) => ScanEmpty('{', '}', inside, rest, stack, prev);
    case Arr(elements) => ScanArray(elements, rest, stack, prev);
    case Obj(members) => ScanObject(members, rest, stack, prev);
  }

  lemma ScanTight(open: Byte, close: Byte, rest: Bytes, stack: seq<Container>, prev: Prev)
    requires (open, close) in {('[', ']'), ('{', '}')}
    ensures Scan([open, close] + rest, stack, prev) ==
            [Span(SlotOf(KindOf(open)), [open, close])] + Scan(rest, stack, Other)
  {
    var token := [open, close];
    assert (token + rest)[..2] == token;
    ScanHead(token, rest, stack, prev, BracketToken(token + rest, stack));
  }

  lemma ScanSpaced(open: Byte, close: Byte, inside: Gap, rest: Bytes, stack: seq<Container>, prev: Prev)
    requires (open, close) in {('[', ']'), ('{', '}')} && inside != []
    ensures var slot := SlotOf(KindOf(open));
            Scan([open] + inside + [close] + rest, stack, prev) ==
            [Span(slot, [open])] + Uncoloured(inside) + [Span(slot, [close])] + Scan(rest, stack, Other)
  {
    hide Scan, Uncoloured;
    var tail := inside + ([close] + rest);
    assert tail[0] == inside[0] && IsGapByte(inside[0]);
    assert [open] + inside + [close] + rest == [open] + tail;
    var p := if open == '[' then Other else OpenObject;
    ScanOpen(open, close, tail, stack, prev);
    ScanGap(inside, [close] + rest, stack + [KindOf(open)], p);
    ScanClose(close, rest, stack, p);
  }

  lemma ScanEmpty(open: Byte, close: Byte, inside: Gap, rest: Bytes, stack: seq<Container>, prev: Prev)
    requires (open, close) in {('[', ']'), ('{', '}')}
    ensures var slot := SlotOf(KindOf(open));
            Scan([open] + inside + [close] + rest, stack, prev) ==
            (if inside == [] then [Span(slot, [open, close])]
             else [Span(slot, [open])] + Uncoloured(inside) + [Span(slot, [close])]) + Scan(rest, stack, Other)
  {
    hide Scan, Uncoloured;
    if inside == [] {
      assert [open] + inside + [close] + rest == [open, close] + rest;
      ScanTight(open, close, rest, stack, prev);
    } else {
      ScanSpaced(open, close, inside, rest, stack, prev);
    }
  }

  lemma ScanArray(es: Elements, rest: Bytes, stack: seq<Container>, prev: Prev)
    ensures Scan(['['] + PrintElements(es) + [']'] + rest, stack, prev) ==
            [Span(SlotArray, ['['])] + StructuralElements(es) + [Span(SlotArray, [']'])] + Scan(rest, stack, Other)
    decreases es, 3
  {
    hide Scan, StructuralElements, PrintElements;
    var within := stack + [Array];
    var close := [']'] + rest;
    var body := PrintElements(es) + close;
    assert ['['] + PrintElements(es) + [']'] + rest == ['['] + body;
    ElementsStart(es, close);
    ScanOpen('[', ']', body, stack, prev);
    ScanElements(es, close, within, Other);
    ScanClose(']', rest, stack, Other);
  }

  lemma ElementsStart(es: Elements, rest: Bytes)
    ensures var s := PrintElements(es) + rest; s != [] && s[0] != ']'
  {
    var suffix := if es.LastElement? then es.after else es.after + [','] + PrintElements(es.rest);
    GapThenValue(es.before, es.value, suffix + rest);
    assert PrintElements(es) + rest == es.before + Print(es.value) + (suffix + rest);
  }

  lemma {:induction false} ScanElements(es: Elements, rest: Bytes, stack: seq<Container>, prev: Prev)
    requires Last(stack) == Some(Array) && rest != [] && rest[0] == ']'
    ensures Scan(PrintElements(es) + rest, stack, prev) == StructuralElements(es) + Scan(rest, stack, Other)
    decreases es, 2
  {
    hide Scan, Structural, Uncoloured, Print;
    match es
    case LastElement(before, value, after) =>
      ScanPadded(before, value, after, rest, stack, prev);
    case MoreElements(before, value, after, more) =>
      var tail := PrintElements(more) + rest;
      ScanPadded(before, value, after, [','] + tail, stack, prev);
      ScanComma(Array, tail, stack, Other);
      ScanElements(more, rest, stack, Comma);
      assert PrintElements(es) + rest == before + Print(value) + after + ([','] + tail);
  }

  lemma ScanObject(ms: Members, rest: Bytes, stack: seq<Container>, prev: Prev)
    ensures Scan(['{'] + PrintMembers(ms) + ['}'] + rest, stack, prev) ==
            [Span(SlotObject, ['{'])] + StructuralMembers(ms) + [Span(SlotObject, ['}'])] + Scan(rest, stack, Other)
    decreases ms, 3
  {
    hide Scan, StructuralMembers, PrintMembers;
    var within := stack + [Object];
    var close := ['}'] + rest;
    var body := PrintMembers(ms) + close;
    assert ['{'] + PrintMembers(ms) + ['}'] + rest == ['{'] + body;
    MembersStart(ms, close);
    ScanOpen('{', '}', body, stack, prev);
    ScanMembers(ms, close, within, OpenObject);
    ScanClose('}', rest, stack, Other);
  }

  lemma MembersStart(ms: Members, rest: Bytes)
    ensures var s := PrintMembers(ms) + rest; s != [] && s[0] != '}'
  {
    var m := ms.m;
    GapThenValue(m.beforeKey, Str(m.key), []);
    assert PrintMembers(ms)[0] == (m.beforeKey + PrintString(m.key) + [])[0];
  }

  lemma {:induction false} ScanMembers(ms: Members, rest: Bytes, stack: seq<Container>, prev: Prev)
    requires Last(stack) == Some(Object) && (prev == OpenObject || prev == Comma) && rest != [] && rest[0] == '}'
    ensures Scan(PrintMembers(ms) + rest, stack, prev) == StructuralMembers(ms) + Scan(rest, stack, Other)
    decreases ms, 2
  {
    hide Scan, StructuralMember, PrintMember;
    match ms
    case LastMember(m) =>
      ScanMember(m, rest, stack, prev);
    case MoreMembers(m, more) =>
      var tail := PrintMembers(more) + rest;
      ScanMember(m, [','] + tail, stack, prev);
      ScanComma(Object, tail, stack, Other);
      ScanMembers(more, rest, stack, Comma);
      assert PrintMembers(ms) + rest == PrintMember(m) + ([','] + tail);
  }

  lemma ScanMember(m: Member, rest: Bytes, stack: seq<Container>, prev: Prev)
    requires Last(stack) == Some(Object) && (prev == OpenObject || prev == Comma) && Ends(rest)
    ensures Scan(PrintMember(m) + rest, stack, prev) == StructuralMember(m) + Scan(rest, stack, Other)
    decreases m, 2
  {
    hide Scan, Structural, Uncoloured, Print, PrintString;
    var afterColon := m.beforeValue + Print(m.value) + m.after + rest;
    var afterString := m.afterKey + ([':'] + afterColon);
    assert PrintMember(m) + rest == m.beforeKey + (PrintString(m.key) + afterString);
    ScanGap(m.beforeKey, PrintString(m.key) + afterString, stack, prev);
    ScanString(m.key, afterString, stack, prev);
    ScanGap(m.afterKey, [':'] + afterColon, stack, Other);
    ScanColon(afterColon, stack, Other);
    ScanPadded(m.beforeValue, m.value, m.after, rest, stack, Other);
  }

  /**
   The span law for every RFC 8259 text, between any framing bytes that start no token: the pass writes the framing
   untouched and the text in the colours of the recursion on the value.
   */
  lemma ColouredIsStructural(p: Palette, lead: Bytes, t: Text, trail: Bytes)
    requires forall k :: 0 <= k < |lead| ==> IsInert(lead[k])
    requires forall k :: 0 <= k < |trail| ==> IsInert(trail[k]) && !IsNumberByte(trail[k])
    ensures Coloured(p, lead + Print(t) + trail) == lead + Emit(p, Structural(t)) + trail
  {
    hide Scan, Structural, Print, Emit, Uncoloured;
    assert lead + Print(t) + trail == lead + (Print(t) + trail);
    assert trail == trail + [];
    ScanInert(lead, Print(t) + trail, [], Other);
    ScanText(t, trail, [], Other);
    ScanInert(trail, [], [], Other);
    assert Scan([], [], Other) == [] by { EmptyScan(); }
    var rest := Uncoloured(trail) + [];
    assert rest == Uncoloured(trail);
    EmitAppend(p, Uncoloured(lead), Structural(t) + rest);
    EmitAppend(p, Structural(t), rest);
    EmitUncoloured(p, lead);
    EmitUncoloured(p, trail);
  }

  lemma EmptyScan()
    ensures Scan([], [], Other) == []
  {
  }

  // ----- RFC 8259 texts hold no raw control byte, so their colouring can always be removed -----

  predicate NoControl(s: Bytes) { forall k :: 0 <= k < |s| ==> s[k] >= ' ' }

  lemma {:induction false} CharsNoControl(chars: seq<Char>)
    ensures NoControl(PrintChars(chars))
  {
    if chars != [] {
      CharsNoControl(chars[1..]);
      assert NoControl(PrintChar(chars[0]));
    }
  }

  lemma NumberNoControl(n: Number)
    ensures NoControl(PrintNumber(n))
  {
    NumberBytes(n);
    assert forall k :: 0 <= k < |PrintNumber(n)| ==> IsNumberByte(PrintNumber(n)[k]);
  }

  lemma {:induction false} PrintEscFree(t: Text)
    ensures ESC !in Print(t)
    decreases t, 0
  {
    match t
    case Num(n) => NumberNoControl(n);
    case Str(chars) => CharsNoControl(chars);
    case Arr(elements) => ElementsEscFree(elements);
    case Obj(members) => MembersEscFree(members);
    case _ =>
  }

  lemma {:induction false} ElementsEscFree(es: Elements)
    ensures ESC !in PrintElements(es)
    decreases es, 1
  {
    PrintEscFree(es.value);
    if es.MoreElements? {
      ElementsEscFree(es.rest);
    }
  }

  lemma {:induction false} MembersEscFree(ms: Members)
    ensures ESC !in PrintMembers(ms)
    decreases ms, 1
  {
    CharsNoControl(ms.m.key);
    PrintEscFree(ms.m.value);
    if ms.MoreMembers? {
      MembersEscFree(ms.rest);
    }
  }

  lemma TextStripIdentity(p: Palette, lead: Bytes, t: Text, trail: Bytes)
    requires ESC !in lead && ESC !in trail
    ensures Stripped(Coloured(p, lead + Print(t) + trail)) == lead + Print(t) + trail
  {
    PrintEscFree(t);
    RenderStripEscFree(p, lead + Print(t) + trail);
  }
}
