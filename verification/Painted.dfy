/** The colour law from end to end: from the fields of `JQ_COLORS` to the bytes of a coloured text. */
module Painted {
  import opened Bytes
  import opened Colour
  import opened PaletteParse
  import opened JsonText

  /** Eight codes, for null, false, true, numbers, strings, arrays, objects and object keys. */
  type Codes = c: seq<Bytes> | |c| == 8 witness ["", "", "", "", "", "", "", ""]

  /** A token between its code and the reset. */
  function Paint(code: Bytes, token: Bytes): Bytes { code + token + ['\U{1B}', '[', '0', 'm'] }

  /** What a text looks like in these codes. */
  function PaintText(c: Codes, t: Text): Bytes
  {
    match t
    case Null => Paint(c[0], "null")
    case False => Paint(c[1], "false")
    case True => Paint(c[2], "true")
    case Num(n) => Paint(c[3], PrintNumber(n))
    case Str(chars) => Paint(c[4], PrintString(chars))
    case EmptyArr(inside) =>
      if inside == [] then Paint(c[5], "[]") else Paint(c[5], "[") + inside + Paint(c[5], "]")
    case Arr(elements) => Paint(c[5], "[") + PaintElements(c, elements) + Paint(c[5], "]")
    case EmptyObj(inside) =>
      if inside == [] then Paint(c[6], "{}") else Paint(c[6], "{") + inside + Paint(c[6], "}")
    case Obj(members) => Paint(c[6], "{") + PaintMembers(c, members) + Paint(c[6], "}")
  }

  function PaintElements(c: Codes, es: Elements): Bytes
  {
    match es
    case LastElement(before, value, after) => before + PaintText(c, value) + after
    case MoreElements(before, value, after, rest) =>
      before + PaintText(c, value) + after + Paint(c[5], ",") + PaintElements(c, rest)
  }

  function PaintMember(c: Codes, m: Member): Bytes
  {
    m.beforeKey + Paint(c[7], PrintString(m.key)) + m.afterKey + Paint(c[6], ":") + m.beforeValue +
    PaintText(c, m.value) + m.after
  }

  function PaintMembers(c: Codes, ms: Members): Bytes
  {
    match ms
    case LastMember(m) => PaintMember(c, m)
    case MoreMembers(m, rest) => PaintMember(c, m) + Paint(c[6], ",") + PaintMembers(c, rest)
  }

  // ----- The pieces of the recursion are those bytes -----

  lemma EmitSpan(p: Palette, slot: Slot, token: Bytes)
    ensures Emit(p, [Span(slot, token)]) == Paint(ColourOf(p, slot), token)
  {
    EmitCons(p, Span(slot, token), []);
    assert [Span(slot, token)] + [] == [Span(slot, token)];
    assert Emit(p, []) == [];
  }

  lemma EmitAround(p: Palette, slot: Slot, open: Bytes, inside: seq<Piece>, close: Bytes)
    ensures Emit(p, [Span(slot, open)] + inside + [Span(slot, close)]) ==
            Paint(ColourOf(p, slot), open) + Emit(p, inside) + Paint(ColourOf(p, slot), close)
  {
    hide Emit;
    EmitAppend(p, [Span(slot, open)] + inside, [Span(slot, close)]);
    EmitAppend(p, [Span(slot, open)], inside);
    EmitSpan(p, slot, open);
    EmitSpan(p, slot, close);
  }

  /** Which field each slot takes. */
  lemma SlotFields(p: Palette)
    ensures ColourOf(p, SlotNull) == p.codes[0] && ColourOf(p, SlotFalse) == p.codes[1]
    ensures ColourOf(p, SlotTrue) == p.codes[2] && ColourOf(p, SlotNumber) == p.codes[3]
    ensures ColourOf(p, SlotString) == p.codes[4] && ColourOf(p, SlotArray) == p.codes[5]
    ensures ColourOf(p, SlotObject) == p.codes[6] && ColourOf(p, SlotKey) == p.codes[7]
  {
  }

  lemma {:induction false} EmitText(p: Palette, t: Text)
    ensures Emit(p, Structural(t)) == PaintText(p.codes, t)
    decreases t, 0
  {
    hide Emit, PrintNumber, PrintString, Uncoloured, Paint, ColourOf;
    SlotFields(p);
    match t
    case Null => EmitSpan(p, SlotNull, "null");
    case False => EmitSpan(p, SlotFalse, "false");
    case True => EmitSpan(p, SlotTrue, "true");
    case Num(n) => EmitSpan(p, SlotNumber, PrintNumber(n));
    case Str(chars) => EmitSpan(p, SlotString, PrintString(chars));
    case EmptyArr(inside) =>
      EmitSpan(p, SlotArray, "[]");
      EmitAround(p, SlotArray, "[", Uncoloured(inside), "]");
      EmitUncoloured(p, inside);
    case Arr(elements) =>
      EmitAround(p, SlotArray, "[", StructuralElements(elements), "]");
      EmitElements(p, elements);
    case EmptyObj(inside) =>
      EmitSpan(p, SlotObject, "{}");
      EmitAround(p, SlotObject, "{", Uncoloured(inside), "}");
      EmitUncoloured(p, inside);
    case Obj(members) =>
      EmitAround(p, SlotObject, "{", StructuralMembers(members), "}");
      EmitMembers(p, members);
  }

  lemma EmitPadded(p: Palette, before: Gap, t: Text, after: Gap)
    requires Emit(p, Structural(t)) == PaintText(p.codes, t)
    ensures Emit(p, Uncoloured(before) + Structural(t) + Uncoloured(after)) == before + PaintText(p.codes, t) + after
  {
    hide Emit, Uncoloured, Structural, PaintText;
    EmitAppend(p, Uncoloured(before) + Structural(t), Uncoloured(after));
    EmitAppend(p, Uncoloured(before), Structural(t));
    EmitUncoloured(p, before);
    EmitUncoloured(p, after);
  }

  /** Two stretches with a coloured mark between them. */
  lemma EmitMarked(p: Palette, a: seq<Piece>, slot: Slot, mark: Bytes, b: seq<Piece>)
    ensures Emit(p, a + [Span(slot, mark)] + b) == Emit(p, a) + Paint(ColourOf(p, slot), mark) + Emit(p, b)
  {
    hide Emit;
    EmitAppend(p, a + [Span(slot, mark)], b);
    EmitAppend(p, a, [Span(slot, mark)]);
    EmitSpan(p, slot, mark);
  }

  lemma {:induction false} EmitElements(p: Palette, es: Elements)
    ensures Emit(p, StructuralElements(es)) == PaintElements(p.codes, es)
    decreases es, 1
  {
    hide Emit, Uncoloured, Structural, PaintText, Paint, ColourOf;
    SlotFields(p);
    EmitText(p, es.value);
    EmitPadded(p, es.before, es.value, es.after);
    if es.MoreElements? {
      EmitElements(p, es.rest);
      EmitMarked(p, Uncoloured(es.before) + Structural(es.value) + Uncoloured(es.after), SlotArray, ",",
                 StructuralElements(es.rest));
    }
  }

  lemma EmitMember(p: Palette, m: Member)
    ensures Emit(p, StructuralMember(m)) == PaintMember(p.codes, m)
    decreases m, 1
  {
    hide Emit, Uncoloured, Structural, PaintText, Paint, ColourOf, PrintString;
    SlotFields(p);
    EmitText(p, m.value);
    EmitPadded(p, m.beforeValue, m.value, m.after);
    var key := Uncoloured(m.beforeKey) + [Span(SlotKey, PrintString(m.key))] + Uncoloured(m.afterKey);
    EmitMarked(p, Uncoloured(m.beforeKey), SlotKey, PrintString(m.key), Uncoloured(m.afterKey));
    EmitUncoloured(p, m.beforeKey);
    EmitUncoloured(p, m.afterKey);
    var value := Uncoloured(m.beforeValue) + Structural(m.value) + Uncoloured(m.after);
    EmitMarked(p, key, SlotObject, ":", value);
    assert StructuralMember(m) == key + [Span(SlotObject, ":")] + value;
  }

  lemma {:induction false} EmitMembers(p: Palette, ms: Members)
    ensures Emit(p, StructuralMembers(ms)) == PaintMembers(p.codes, ms)
    decreases ms, 2
  {
    hide Emit, StructuralMember, PaintMember, Paint, ColourOf;
    SlotFields(p);
    EmitMember(p, ms.m);
    if ms.MoreMembers? {
      EmitMembers(p, ms.rest);
      EmitMarked(p, StructuralMember(ms.m), SlotObject, ",", StructuralMembers(ms.rest));
    }
  }

  // ----- From the fields to the bytes -----

  /** Every text, in every layout and framing, is painted in the palette's eight codes, taken in field order. */
  lemma ColouredIsPainted(p: Palette, lead: Bytes, t: Text, trail: Bytes)
    requires forall k :: 0 <= k < |lead| ==> IsInert(lead[k])
    requires forall k :: 0 <= k < |trail| ==> IsInert(trail[k]) && !IsNumberByte(trail[k])
    ensures Coloured(p, lead + Print(t) + trail) == lead + PaintText(p.codes, t) + trail
  {
    ColouredIsStructural(p, lead, t, trail);
    EmitText(p, t);
  }

  /** The colours of a program without `JQ_COLORS`. */
  const DEFAULTS: seq<string> := ["0;90", "0;39", "0;39", "0;39", "0;32", "1;39", "1;39", "1;34"]

  predicate ColourBytes(s: Bytes) { forall k :: 0 <= k < |s| ==> s[k] in "0123456789;" }

  /** The first seven fields hold digits and semicolons only. */
  predicate WellFormed(fields: seq<Bytes>) { forall k :: 0 <= k < |fields| && k < 7 ==> ColourBytes(fields[k]) }

  /** The digits and semicolons an eighth field starts with. */
  function Cut(field: Bytes): Bytes
  {
    if field == [] || field[0] !in "0123456789;" then [] else [field[0]] + Cut(field[1..])
  }

  /** The colour of kind `k`: its own field, where there is one; an empty last field is none, an eighth one is cut. */
  function Chosen(fields: seq<Bytes>, k: nat): Bytes
    requires k < 8
  {
    if !WellFormed(fields) || k >= |fields| then DEFAULTS[k]
    else if k < 7 then if k == |fields| - 1 && fields[k] == [] then DEFAULTS[k] else fields[k]
    else if Cut(fields[7]) == [] then DEFAULTS[7] else Cut(fields[7])
  }

  function FieldsOf(value: Option<Bytes>): seq<Bytes> { if value.None? then [] else Split(value.value, ':') }

  /** The eight codes a value of `JQ_COLORS` stands for. */
  function CodesOf(value: Option<Bytes>): Codes
  {
    seq(8, k requires 0 <= k < 8 => ['\U{1B}', '['] + Chosen(FieldsOf(value), k) + ['m'])
  }

  lemma FieldBytes(field: Bytes)
    ensures ColourBytes(field) <==> IsRun(field)
    ensures Cut(field) == Run(field)
  {
    assert forall b: Byte :: b in "0123456789;" <==> IsCodeByte(b) by { CodeByteIs(); }
    if field != [] {
      FieldBytes(field[1..]);
    }
  }

  lemma CodeByteIs()
    ensures forall b: Byte :: b in "0123456789;" <==> IsCodeByte(b)
  {
    forall b: Byte
      ensures b in "0123456789;" <==> IsCodeByte(b)
    {
      var digits := "0123456789;";
      if IsDigit(b) {
        assert digits[b as int - '0' as int] == b;
      } else if b == ';' {
        assert digits[10] == b;
      }
    }
  }

  lemma WellFormedIs(fields: seq<Bytes>)
    ensures WellFormed(fields) <==> Acceptable(fields)
  {
    hide ColourBytes, IsRun;
    forall k | 0 <= k < |fields|
      ensures ColourBytes(fields[k]) <==> IsRun(fields[k])
    {
      FieldBytes(fields[k]);
    }
  }

  lemma ChosenIs(fields: seq<Bytes>, k: nat)
    requires k < 8 && fields != [] && Acceptable(fields)
    ensures SlotCode(fields, k) == ['\U{1B}', '['] + Chosen(fields, k) + ['m']
  {
    WellFormedIs(fields);
    if k == 7 && |fields| > 7 {
      FieldBytes(fields[7]);
    }
  }

  /** From the environment to the bytes of one item: the palette is parsed, a malformed one is complained of and left
      out, and every text is painted in the codes its fields stand for. */
  method ColourItem(value: Option<Bytes>, item: Bytes, out: Buffer) returns (complained: bool)
    modifies out
    ensures complained <==> !WellFormed(FieldsOf(value))
    ensures forall lead: Bytes, t: Text, trail: Bytes ::
              item == lead + Print(t) + trail && Framing(lead, trail) ==>
              out.data == old(out.data) + (lead + PaintText(CodesOf(value), t) + trail)
  {
    hide Print, PaintText, Coloured, Split;
    var parsed := ParseJqColors(value);
    var palette := if parsed.Some? then parsed.value else DefaultPalette();
    PaletteIs(value, palette, parsed.Some?);
    Render(palette, item, out);
    complained := parsed.None?;
    forall lead: Bytes, t: Text, trail: Bytes | item == lead + Print(t) + trail && Framing(lead, trail)
      ensures Coloured(palette, item) == lead + PaintText(CodesOf(value), t) + trail
    {
      ColouredIsPainted(palette, lead, t, trail);
    }
  }

  /** Bytes before and after a text that start no token. */
  predicate Framing(lead: Bytes, trail: Bytes)
  {
    (forall k :: 0 <= k < |lead| ==> IsInert(lead[k])) &&
    forall k :: 0 <= k < |trail| ==> IsInert(trail[k]) && !IsNumberByte(trail[k])
  }

  lemma PaletteIs(value: Option<Bytes>, p: Palette, ok: bool)
    requires ok <==> value.None? || Acceptable(Split(value.value, ':'))
    requires !ok || value.None? ==> p == DefaultPalette()
    requires ok && value.Some? ==> forall k :: 0 <= k < 8 ==> p.codes[k] == SlotCode(Split(value.value, ':'), k)
    ensures p.codes == CodesOf(value) && (ok <==> WellFormed(FieldsOf(value)))
  {
    hide Split;
    WellFormedIs(FieldsOf(value));
    forall k | 0 <= k < 8
      ensures p.codes[k] == CodesOf(value)[k]
    {
      assert DEFAULTS[k] == DefaultField(k);
      if ok && value.Some? {
        SplitSome(value.value);
        ChosenIs(Split(value.value, ':'), k);
      }
    }
  }

  lemma SplitSome(s: Bytes)
    ensures Split(s, ':') != []
  {
  }

  /** Without `JQ_COLORS` a member's key is blue and its string green. */
  lemma DefaultMember(inside: seq<Char>, key: seq<Char>)
    ensures var m := Member([], key, [], [], Str(inside), []);
            PaintText(CodesOf(None), Obj(LastMember(m))) ==
            Paint("\U{1B}[1;39m", "{") + Paint("\U{1B}[1;34m", PrintString(key)) + Paint("\U{1B}[1;39m", ":") +
            Paint("\U{1B}[0;32m", PrintString(inside)) + Paint("\U{1B}[1;39m", "}")
  {
    hide PrintString, Paint;
    var c := CodesOf(None);
    var m := Member([], key, [], [], Str(inside), []);
    var a, b, d := Paint(c[7], PrintString(key)), Paint(c[6], ":"), Paint(c[4], PrintString(inside));
    assert PaintText(c, Str(inside)) == d && [] + a + [] == a && a + b + [] == a + b && a + b + d + [] == a + b + d;
    assert PaintMember(c, m) == a + b + d;
    assert PaintMembers(c, LastMember(m)) == PaintMember(c, m);
    assert Paint(c[6], "{") + (a + b + d) + Paint(c[6], "}") == Paint(c[6], "{") + a + b + d + Paint(c[6], "}");
    assert c[6] == "\U{1B}[1;39m" && c[7] == "\U{1B}[1;34m" && c[4] == "\U{1B}[0;32m";
  }
}
