/** The colour pass over one item's encoded JSON bytes, and the removal of its spans. */
module Colour {
  import opened Bytes

  const ESC: Byte := '\U{1B}'

  /** The reset after every coloured span; never palette-derived. */
  const RESET: Bytes := [ESC, '[', '0', 'm']

  /** The palette slots, in `JQ_COLORS` field order. */
  datatype Slot = SlotNull | SlotFalse | SlotTrue | SlotNumber | SlotString | SlotArray | SlotObject | SlotKey
  {
    function Index(): (i: nat)
      ensures i < 8
    {
      match this
      case SlotNull => 0
      case SlotFalse => 1
      case SlotTrue => 2
      case SlotNumber => 3
      case SlotString => 4
      case SlotArray => 5
      case SlotObject => 6
      case SlotKey => 7
    }
  }

  predicate IsCodeByte(b: Byte) { IsDigit(b) || b == ';' }

  /** The escape prefix of one palette field. */
  function Wrap(field: Bytes): Bytes { [ESC, '['] + field + ['m'] }

  /** A full escape prefix: ESC `[`, a run of digits and semicolons, `m`. */
  predicate IsCode(code: Bytes)
  {
    |code| >= 3 && code[0] == ESC && code[1] == '[' && code[|code| - 1] == 'm' &&
    forall k :: 2 <= k < |code| - 1 ==> IsCodeByte(code[k])
  }

  datatype PaletteData = PaletteData(codes: seq<Bytes>)
  {
    ghost predicate Valid()
    {
      |codes| == 8 && forall k :: 0 <= k < 8 ==> IsCode(codes[k])
    }
  }

  type Palette = p: PaletteData | p.Valid()
    witness PaletteData(seq(8, _ => RESET))

  function ColourOf(p: Palette, slot: Slot): (code: Bytes)
    ensures IsCode(code)
  {
    p.codes[slot.Index()]
  }

  datatype Container = Array | Object

  datatype Prev = Other | OpenObject | Comma

  /** One output decision: a coloured token, or bytes copied untouched. */
  datatype Piece = Span(slot: Slot, text: Bytes) | Plain(text: Bytes)

  /** The bytes one coloured token becomes: prefix, token, reset. */
  function SpanBytes(code: Bytes, token: Bytes): Bytes { code + token + RESET }

  function EmitPiece(p: Palette, piece: Piece): Bytes
  {
    match piece
    case Span(slot, text) => SpanBytes(ColourOf(p, slot), text)
    case Plain(text) => text
  }

  /** The output bytes of a piece list. */
  function Emit(p: Palette, pieces: seq<Piece>): Bytes
  {
    if pieces == [] then [] else EmitPiece(p, pieces[0]) + Emit(p, pieces[1..])
  }

  /** The input bytes of a piece list. */
  function TextOf(pieces: seq<Piece>): Bytes
  {
    if pieces == [] then [] else pieces[0].text + TextOf(pieces[1..])
  }

  // ----- Token shapes -----

  predicate IsNumberByte(b: Byte)
  {
    IsDigit(b) || b == '-' || b == '+' || b == '.' || b == 'e' || b == 'E'
  }

  /** The length of the quoted string at the head of `s`, counting from `from`; an unterminated string
      takes the rest. */
  function StringEnd(s: Bytes, from: nat): (n: nat)
    requires from <= |s| + 1
    ensures from <= |s| ==> from <= n <= |s|
    ensures from == |s| + 1 ==> n == |s|
    ensures from < |s| ==> from < n
    decreases |s| + 1 - from
  {
    if from >= |s| then |s|
    else if s[from] == '\\' then StringEnd(s, from + 2)
    else if s[from] == '"' then from + 1
    else StringEnd(s, from + 1)
  }

  /** The length of the run of number bytes at the head of `s`. */
  function NumberRun(s: Bytes): (n: nat)
    ensures n <= |s|
    ensures forall k :: 0 <= k < n ==> IsNumberByte(s[k])
    ensures n < |s| ==> !IsNumberByte(s[n])
  {
    if s == [] || !IsNumberByte(s[0]) then 0 else 1 + NumberRun(s[1..])
  }

  // ----- The scan as a function of the remaining bytes, the container stack and the previous token -----

  function Last<T>(s: seq<T>): Option<T>
  {
    if s == [] then None else Some(s[|s| - 1])
  }

  function Pop<T>(s: seq<T>): seq<T>
  {
    if s == [] then [] else s[..|s| - 1]
  }

  /** The token at the head of the input and the state after it. */
  datatype Token = Token(piece: Piece, stack: seq<Container>, prev: Prev)

  predicate IsKey(stack: seq<Container>, prev: Prev)
  {
    (prev == OpenObject || prev == Comma) && Last(stack) == Some(Object)
  }

  predicate IsBracket(b: Byte) { b == '{' || b == '}' || b == '[' || b == ']' }

  function BracketToken(s: Bytes, stack: seq<Container>): (t: Token)
    requires s != [] && IsBracket(s[0])
    ensures t.piece.text != [] && StartsWith(s, t.piece.text)
  {
    if s[0] == '{' then
      if |s| > 1 && s[1] == '}' then Token(Span(SlotObject, s[..2]), stack, Other)
      else Token(Span(SlotObject, s[..1]), stack + [Object], OpenObject)
    else if s[0] == '}' then Token(Span(SlotObject, s[..1]), Pop(stack), Other)
    else if s[0] == '[' then
      if |s| > 1 && s[1] == ']' then Token(Span(SlotArray, s[..2]), stack, Other)
      else Token(Span(SlotArray, s[..1]), stack + [Array], Other)
    else Token(Span(SlotArray, s[..1]), Pop(stack), Other)
  }

  predicate IsSeparator(b: Byte) { b == ',' || b == ':' }

  /** A comma takes its enclosing container's colour; a colon the object colour. */
  function SeparatorToken(s: Bytes, stack: seq<Container>): (t: Token)
    requires s != [] && IsSeparator(s[0])
    ensures t.piece.text != [] && StartsWith(s, t.piece.text) && t.stack == stack
  {
    if s[0] == ',' then
      Token(Span(if Last(stack) == Some(Array) then SlotArray else SlotObject, s[..1]), stack, Comma)
    else Token(Span(SlotObject, s[..1]), stack, Other)
  }

  /** Strings, literals and numbers, and every byte that starts no token. */
  function ScalarToken(s: Bytes, stack: seq<Container>, prev: Prev): (t: Token)
    requires s != []
    ensures t.piece.text != [] && StartsWith(s, t.piece.text) && t.stack == stack
  {
    if s[0] == '"' then
      Token(Span(if IsKey(stack, prev) then SlotKey else SlotString, s[..StringEnd(s, 1)]), stack, Other)
    else if s[0] == 't' && StartsWith(s, "true") then Token(Span(SlotTrue, s[..4]), stack, Other)
    else if s[0] == 'f' && StartsWith(s, "false") then Token(Span(SlotFalse, s[..5]), stack, Other)
    else if s[0] == 'n' && StartsWith(s, "null") then Token(Span(SlotNull, s[..4]), stack, Other)
    else if s[0] == '-' || IsDigit(s[0]) then Token(Span(SlotNumber, s[..NumberRun(s)]), stack, Other)
    else Token(Plain(s[..1]), stack, prev)
  }

  function NextToken(s: Bytes, stack: seq<Container>, prev: Prev): (t: Token)
    requires s != []
    ensures t.piece.text != [] && StartsWith(s, t.piece.text)
  {
    if IsBracket(s[0]) then BracketToken(s, stack)
    else if IsSeparator(s[0]) then SeparatorToken(s, stack)
    else ScalarToken(s, stack, prev)
  }

  function Scan(s: Bytes, stack: seq<Container>, prev: Prev): seq<Piece>
    decreases |s|
  {
    if s == [] then []
    else
      var t := NextToken(s, stack, prev);
      [t.piece] + Scan(s[|t.piece.text|..], t.stack, t.prev)
  }

  /** What `Render` appends for one item. */
  function Coloured(p: Palette, item: Bytes): Bytes
  {
    Emit(p, Scan(item, [], Other))
  }

  // ----- The loops -----

  method ScanString(item: Bytes, start: nat) returns (end: nat)
    requires start < |item|
    ensures start < end <= |item|
    ensures end == start + StringEnd(item[start..], 1)
  {
    var i := start + 1;
    ghost var s := item[start..];
    while i < |item|
      invariant start + 1 <= i <= |item| + 1
      invariant StringEnd(s, 1) == StringEnd(s, i - start)
    {
      assert s[i - start] == item[i];
      if item[i] == '\\' {
        i := i + 2;
      } else if item[i] == '"' {
        return i + 1;
      } else {
        i := i + 1;
      }
    }
    return |item|;
  }

  method PushSpan(out: Buffer, colour: Bytes, token: Bytes)
    modifies out
    ensures out.data == old(out.data) + SpanBytes(colour, token)
  {
    out.Extend(colour);
    out.Extend(token);
    out.Extend(RESET);
  }

  lemma NumberRunAt(s: Bytes, n: nat)
    requires n <= |s|
    requires forall k :: 0 <= k < n ==> IsNumberByte(s[k])
    requires n < |s| ==> !IsNumberByte(s[n])
    ensures NumberRun(s) == n
  {
  }

  /** The bytes written so far and the colouring of the input from `i` on make up the goal. */
  ghost predicate Owes(p: Palette, item: Bytes, i: int, stack: seq<Container>, prev: Prev, written: Bytes, goal: Bytes)
  {
    0 <= i <= |item| && written + Emit(p, Scan(item[i..], stack, prev)) == goal
  }

  lemma OwesNothing(p: Palette, item: Bytes, stack: seq<Container>, prev: Prev, written: Bytes, goal: Bytes)
    requires Owes(p, item, |item|, stack, prev, written, goal)
    ensures written == goal
  {
    assert item[|item|..] == [];
  }

  /** One token consumed: the scan of the rest continues from the token's state. */
  lemma Advance(p: Palette, item: Bytes, i: nat, stack: seq<Container>, prev: Prev, t: Token, before: Bytes,
                goal: Bytes)
    requires i < |item| && t == NextToken(item[i..], stack, prev)
    requires Owes(p, item, i, stack, prev, before, goal)
    ensures Owes(p, item, i + |t.piece.text|, t.stack, t.prev, before + EmitPiece(p, t.piece), goal)
  {
    var rest := Scan(item[i + |t.piece.text|..], t.stack, t.prev);
    assert item[i..][|t.piece.text|..] == item[i + |t.piece.text|..];
    EmitCons(p, t.piece, rest);
  }

  /** The bracket arms of the pass: an empty container is one span over both characters. */
  method RenderBracket(palette: Palette, item: Bytes, i: nat, stack: seq<Container>, out: Buffer)
    returns (next: nat, containers: seq<Container>, prev: Prev)
    requires i < |item| && IsBracket(item[i])
    modifies out
    ensures out.data == old(out.data) + EmitPiece(palette, BracketToken(item[i..], stack).piece)
    ensures next == i + |BracketToken(item[i..], stack).piece.text|
    ensures containers == BracketToken(item[i..], stack).stack && prev == BracketToken(item[i..], stack).prev
  {
    ghost var rest := item[i..];
    assert rest[0] == item[i] && rest[..1] == item[i..i + 1];
    containers, prev, next := stack, Other, i + 1;
    if item[i] == '{' {
      if i + 1 < |item| && item[i + 1] == '}' {
        assert rest[..2] == item[i..i + 2];
        PushSpan(out, ColourOf(palette, SlotObject), item[i..i + 2]);
        next := i + 2;
      } else {
        PushSpan(out, ColourOf(palette, SlotObject), item[i..i + 1]);
        containers := containers + [Object];
        prev := OpenObject;
      }
    } else if item[i] == '}' {
      PushSpan(out, ColourOf(palette, SlotObject), item[i..i + 1]);
      containers := Pop(containers);
    } else if item[i] == '[' {
      if i + 1 < |item| && item[i + 1] == ']' {
        assert rest[..2] == item[i..i + 2];
        PushSpan(out, ColourOf(palette, SlotArray), item[i..i + 2]);
        next := i + 2;
      } else {
        PushSpan(out, ColourOf(palette, SlotArray), item[i..i + 1]);
        containers := containers + [Array];
      }
    } else {
      PushSpan(out, ColourOf(palette, SlotArray), item[i..i + 1]);
      containers := Pop(containers);
    }
  }

  /** The comma and colon arms. */
  method RenderSeparator(palette: Palette, item: Bytes, i: nat, stack: seq<Container>, out: Buffer)
    returns (next: nat, prev: Prev)
    requires i < |item| && IsSeparator(item[i])
    modifies out
    ensures out.data == old(out.data) + EmitPiece(palette, SeparatorToken(item[i..], stack).piece)
    ensures next == i + |SeparatorToken(item[i..], stack).piece.text|
    ensures prev == SeparatorToken(item[i..], stack).prev
  {
    assert item[i..][..1] == item[i..i + 1];
    next := i + 1;
    if item[i] == ',' {
      var colour := if Last(stack) == Some(Array) then ColourOf(palette, SlotArray) else ColourOf(palette, SlotObject);
      PushSpan(out, colour, item[i..i + 1]);
      prev := Comma;
    } else {
      PushSpan(out, ColourOf(palette, SlotObject), item[i..i + 1]);
      prev := Other;
    }
  }

  /** The string, literal, number and pass-through arms. */
  method RenderScalar(palette: Palette, item: Bytes, i: nat, stack: seq<Container>, before: Prev, out: Buffer)
    returns (next: nat, prev: Prev)
    requires i < |item|
    modifies out
    ensures out.data == old(out.data) + EmitPiece(palette, ScalarToken(item[i..], stack, before).piece)
    ensures next == i + |ScalarToken(item[i..], stack, before).piece.text|
    ensures prev == ScalarToken(item[i..], stack, before).prev
  {
    ghost var rest := item[i..];
    assert rest[0] == item[i];
    prev := Other;
    if item[i] == '"' {
      var isKey := (before == OpenObject || before == Comma) && Last(stack) == Some(Object);
      var colour := if isKey then ColourOf(palette, SlotKey) else ColourOf(palette, SlotString);
      next := ScanString(item, i);
      assert rest[..next - i] == item[i..next];
      PushSpan(out, colour, item[i..next]);
    } else if item[i] == 't' && StartsWith(item[i..], "true") {
      PushSpan(out, ColourOf(palette, SlotTrue), "true");
      next := i + 4;
    } else if item[i] == 'f' && StartsWith(item[i..], "false") {
      PushSpan(out, ColourOf(palette, SlotFalse), "false");
      next := i + 5;
    } else if item[i] == 'n' && StartsWith(item[i..], "null") {
      PushSpan(out, ColourOf(palette, SlotNull), "null");
      next := i + 4;
    } else if item[i] == '-' || IsDigit(item[i]) {
      next := ScanNumber(item, i);
      assert rest[..next - i] == item[i..next];
      PushSpan(out, ColourOf(palette, SlotNumber), item[i..next]);
    } else {
      assert rest[..1] == [item[i]];
      out.Push(item[i]);
      next := i + 1;
      prev := before;
    }
  }

  method ScanNumber(item: Bytes, start: nat) returns (end: nat)
    requires start < |item|
    ensures start <= end <= |item| && end == start + NumberRun(item[start..])
  {
    end := start;
    while end < |item| && IsNumberByte(item[end])
      invariant start <= end <= |item|
      invariant forall k :: start <= k < end ==> IsNumberByte(item[k])
    {
      end := end + 1;
    }
    NumberRunAt(item[start..], end - start);
  }

  method Render(palette: Palette, item: Bytes, out: Buffer)
    modifies out
    ensures out.data == old(out.data) + Coloured(palette, item)
  {
    hide ScalarToken, SeparatorToken, BracketToken, EmitPiece, Emit, Scan;
    var containers: seq<Container> := [];
    var prev := Other;
    var i := 0;
    ghost var goal := out.data + Coloured(palette, item);
    assert item[0..] == item;
    while i < |item|
      invariant 0 <= i <= |item|
      invariant Owes(palette, item, i, containers, prev, out.data, goal)
    {
      Advance(palette, item, i, containers, prev, NextToken(item[i..], containers, prev), out.data, goal);
      var byte := item[i];
      if IsBracket(byte) {
        i, containers, prev := RenderBracket(palette, item, i, containers, out);
      } else if IsSeparator(byte) {
        i, prev := RenderSeparator(palette, item, i, containers, out);
      } else {
        i, prev := RenderScalar(palette, item, i, containers, prev, out);
      }
    }
    OwesNothing(palette, item, containers, prev, out.data, goal);
  }

  lemma EmitCons(p: Palette, piece: Piece, rest: seq<Piece>)
    ensures Emit(p, [piece] + rest) == EmitPiece(p, piece) + Emit(p, rest)
  {
    assert ([piece] + rest)[1..] == rest;
  }

  /** Bytes copied one by one, uncoloured. */
  function Uncoloured(bytes: Bytes): seq<Piece>
  {
    if bytes == [] then [] else [Plain(bytes[..1])] + Uncoloured(bytes[1..])
  }

  lemma {:induction false} EmitAppend(p: Palette, a: seq<Piece>, b: seq<Piece>)
    ensures Emit(p, a + b) == Emit(p, a) + Emit(p, b)
  {
    if a == [] {
      assert a + b == b;
    } else {
      assert (a + b)[1..] == a[1..] + b;
      EmitAppend(p, a[1..], b);
    }
  }

  lemma {:induction false} EmitUncoloured(p: Palette, bytes: Bytes)
    ensures Emit(p, Uncoloured(bytes)) == bytes
  {
    if bytes != [] {
      EmitUncoloured(p, bytes[1..]);
      assert Uncoloured(bytes)[1..] == Uncoloured(bytes[1..]);
    }
  }

  lemma PieceAssoc(a: seq<Piece>, b: seq<Piece>, c: seq<Piece>)
    ensures (a + b) + c == a + (b + c)
  {
  }
}
