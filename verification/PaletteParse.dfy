/** `JQ_COLORS`: the index-juggling field scanner and the split it stands for. */
module PaletteParse {
  import opened Bytes
  import opened Colour

  function DefaultField(slot: nat): Bytes
    requires slot < 8
  {
    ["0;90", "0;39", "0;39", "0;39", "0;32", "1;39", "1;39", "1;34"][slot]
  }

  predicate IsRun(field: Bytes) { forall k :: 0 <= k < |field| ==> IsCodeByte(field[k]) }

  /** The longest prefix of digits and semicolons. */
  function Run(s: Bytes): (r: Bytes)
    ensures IsRun(r) && StartsWith(s, r)
    ensures |r| < |s| ==> !IsCodeByte(s[|r|])
  {
    if s == [] || !IsCodeByte(s[0]) then [] else [s[0]] + Run(s[1..])
  }

  lemma RunUnique(s: Bytes, n: nat)
    requires n <= |s| && IsRun(s[..n])
    requires n < |s| ==> !IsCodeByte(s[n])
    ensures Run(s) == s[..n]
  {
    var r := Run(s);
    assert forall k :: 0 <= k < n ==> IsCodeByte(s[..n][k]) && s[..n][k] == s[k];
    assert forall k :: 0 <= k < |r| ==> IsCodeByte(r[k]) && r[k] == s[k];
  }

  lemma WrapIsCode(field: Bytes)
    requires IsRun(field)
    ensures IsCode(Wrap(field))
  {
    var code := Wrap(field);
    forall k | 2 <= k < |code| - 1
      ensures IsCodeByte(code[k])
    {
      assert code[k] == field[k - 2];
    }
  }

  // ----- The split specification -----

  /** The field of slot `k`: the eighth is cut to its run, the others stand whole. */
  function Field(fields: seq<Bytes>, k: nat): Bytes
    requires k < |fields| && k < 8
  {
    if k == 7 then Run(fields[7]) else fields[k]
  }

  /** How many fields the scanner looks at. */
  function Scanned(fields: seq<Bytes>): nat { if |fields| < 8 then |fields| else 8 }

  /** The first seven fields must be runs; nothing else is checked. */
  predicate Acceptable(fields: seq<Bytes>)
  {
    forall k :: 0 <= k < 7 && k < |fields| ==> IsRun(fields[k])
  }

  /** Slot `k` takes its own field, unless it has none or is the last scanned one and empty. */
  function SlotCode(fields: seq<Bytes>, k: nat): Bytes
    requires k < 8
  {
    if k < Scanned(fields) && !(k == Scanned(fields) - 1 && Field(fields, k) == [])
    then Wrap(Field(fields, k))
    else Wrap(DefaultField(k))
  }

  function DefaultPalette(): (p: Palette)
    ensures forall k :: 0 <= k < 8 ==> p.codes[k] == Wrap(DefaultField(k))
  {
    var codes := seq(8, (k: int) requires 0 <= k < 8 => Wrap(DefaultField(k)));
    assert forall k :: 0 <= k < 8 ==> IsCode(codes[k]) by {
      forall k | 0 <= k < 8
        ensures IsCode(codes[k])
      {
        DefaultIsRun(k);
        WrapIsCode(DefaultField(k));
      }
    }
    PaletteData(codes)
  }

  lemma DefaultIsRun(k: nat)
    requires k < 8
    ensures IsRun(DefaultField(k))
  {
  }

  // ----- The scanner -----

  /** `field` is the run between `from` and the delimiter just before `next`. */
  ghost predicate FieldAt(bytes: Bytes, field: Bytes, from: nat, next: nat)
  {
    from < next <= |bytes| && bytes[from..next - 1] == field && IsRun(field)
  }

  /** The scanner stands at the start of field `n`, and the fields before it lie between the recorded positions. */
  ghost predicate Follows(bytes: Bytes, fields: seq<Bytes>, codes: seq<nat>, n: nat, at: nat)
  {
    n < |codes| && n < |fields| && at <= |bytes| && fields[n..] == Split(bytes[at..], ':') &&
    forall k :: 0 <= k < n ==> FieldAt(bytes, fields[k], codes[k], Bound(codes, n, at, k + 1))
  }

  /** Where the field before position `k` ends, one past its delimiter. */
  ghost function Bound(codes: seq<nat>, n: nat, at: nat, k: nat): nat
    requires k <= n < |codes|
  {
    if k == n then at else codes[k]
  }

  lemma RunHasNoDelimiter(run: Bytes)
    requires IsRun(run)
    ensures ':' !in run
  {
    assert forall k :: 0 <= k < |run| ==> IsCodeByte(run[k]);
  }

  /** A run that ends in a delimiter is a whole field. */
  lemma NextField(bytes: Bytes, fields: seq<Bytes>, codes: seq<nat>, n: nat, at: nat, pos: nat)
    requires Follows(bytes, fields, codes, n, at) && n + 1 < |codes| && codes[n] == at
    requires at <= pos < |bytes| && IsRun(bytes[at..pos]) && bytes[pos] == ':'
    ensures Follows(bytes, fields, codes, n + 1, pos + 1)
  {
    hide Split, IsRun;
    var rest, i := bytes[at..], pos - at;
    assert rest[..i] == bytes[at..pos] && rest[i + 1..] == bytes[pos + 1..] && rest[i] == ':';
    RunHasNoDelimiter(rest[..i]);
    SplitStep(rest, ':', i);
    assert fields[n] == fields[n..][0] == rest[..i];
    assert fields[n + 1..] == fields[n..][1..];
    SplitNonempty(bytes[pos + 1..]);
    assert FieldAt(bytes, fields[n], at, pos + 1);
  }

  lemma SplitNonempty(s: Bytes)
    ensures |Split(s, ':')| >= 1
  {
  }

  /** A run that ends in no code byte is the run of its field, and the whole field when the input ends there. */
  lemma LastField(rest: Bytes, i: nat)
    requires i <= |rest| && IsRun(rest[..i]) && (i < |rest| ==> !IsCodeByte(rest[i]))
    ensures Run(Split(rest, ':')[0]) == rest[..i]
    ensures i == |rest| ==> Split(rest, ':') == [rest]
    ensures i < |rest| && rest[i] != ':' ==> !IsRun(Split(rest, ':')[0])
  {
    hide Run, IsCodeByte;
    RunHasNoDelimiter(rest[..i]);
    if i == |rest| {
      assert rest[..i] == rest;
      IndexOfUnique(rest, ':', i);
      RunUnique(rest, i);
    } else {
      var e := IndexOf(rest, ':');
      var field := Split(rest, ':')[0];
      assert field == rest[..e];
      assert i <= e by {
        assert forall k :: 0 <= k < i ==> rest[..i][k] == rest[k] && rest[k] in rest[..i];
      }
      assert field[..i] == rest[..i];
      RunUnique(field, i);
    }
  }

  lemma Recorded(bytes: Bytes, fields: seq<Bytes>, was: seq<nat>, codes: seq<nat>, n: nat, at: nat)
    requires Follows(bytes, fields, was, n, at) && codes == was[n := at]
    ensures Follows(bytes, fields, codes, n, at)
    ensures forall k :: 0 <= k < n ==> FieldAt(bytes, fields[k], codes[k], codes[k + 1])
  {
    assert forall k :: 0 <= k < n ==> FieldAt(bytes, fields[k], was[k], Bound(was, n, at, k + 1));
  }

  /** Where the scan stops, every field has been checked and the last one is what lies under the scanner. */
  lemma Settled(bytes: Bytes, fields: seq<Bytes>, codes: seq<nat>, n: nat, at: nat, pos: nat)
    requires Follows(bytes, fields, codes, n, at) && n < 8
    requires at <= pos <= |bytes| && IsRun(bytes[at..pos]) && (pos < |bytes| ==> !IsCodeByte(bytes[pos]))
    requires pos == |bytes| || n == 7
    ensures Scanned(fields) == n + 1 && Field(fields, n) == bytes[at..pos] && Acceptable(fields)
  {
    hide Split, IsRun;
    assert bytes[at..][..pos - at] == bytes[at..pos];
    LastField(bytes[at..], pos - at);
    assert fields[n] == fields[n..][0];
    if pos == |bytes| {
      assert bytes[at..] == bytes[at..pos];
      assert |fields[n..]| == 1;
    }
    forall k | 0 <= k < 7 && k < |fields|
      ensures IsRun(fields[k])
    {
      if k < n {
        assert FieldAt(bytes, fields[k], codes[k], Bound(codes, n, at, k + 1));
      }
    }
  }

  lemma SlotCodesValid(fields: seq<Bytes>, codes: seq<Bytes>)
    requires Acceptable(fields) && |codes| == 8
    requires forall k :: 0 <= k < 8 ==> codes[k] == SlotCode(fields, k)
    ensures PaletteData(codes).Valid()
  {
    forall k | 0 <= k < 8
      ensures IsCode(codes[k])
    {
      DefaultIsRun(k);
      WrapIsCode(DefaultField(k));
      if k < Scanned(fields) {
        WrapIsCode(Field(fields, k));
      }
    }
  }

  method ScanRun(bytes: Bytes, at: nat) returns (pos: nat)
    requires at <= |bytes|
    ensures at <= pos <= |bytes| && IsRun(bytes[at..pos])
    ensures pos < |bytes| ==> !IsCodeByte(bytes[pos])
  {
    pos := at;
    while pos < |bytes| && IsCodeByte(bytes[pos])
      invariant at <= pos <= |bytes| && IsRun(bytes[at..pos])
    {
      assert bytes[at..pos + 1] == bytes[at..pos] + [bytes[pos]];
      pos := pos + 1;
    }
  }

  /** The scanning loop: the start of every scanned field goes to `codes`. */
  method ScanFields(bytes: Bytes, codes: array<nat>) returns (ok: bool, numColors: nat, pos: nat)
    requires codes.Length == 9
    modifies codes
    ensures ok <==> Acceptable(Split(bytes, ':'))
    ensures ok ==> numColors < 8 && codes[numColors] <= pos <= |bytes| && numColors + 1 == Scanned(Split(bytes, ':'))
    ensures ok ==> Field(Split(bytes, ':'), numColors) == bytes[codes[numColors]..pos]
    ensures ok ==> (pos < |bytes| ==> numColors == 7)
    ensures ok ==> forall k :: 0 <= k < numColors ==> FieldAt(bytes, Split(bytes, ':')[k], codes[k], codes[k + 1])
  {
    hide Split, IsRun;
    ghost var fields := Split(bytes, ':');
    SplitNonempty(bytes);
    numColors, pos := 0, 0;
    assert bytes[0..] == bytes && fields[0..] == fields;
    while true
      invariant numColors < 8 && 0 <= pos <= |bytes|
      invariant Follows(bytes, fields, codes[..], numColors, pos)
      decreases |bytes| - pos
    {
      ghost var was, at := codes[..], pos;
      codes[numColors] := pos;
      Recorded(bytes, fields, was, codes[..], numColors, at);
      pos := ScanRun(bytes, pos);
      if pos >= |bytes| || numColors + 1 >= 8 {
        Settled(bytes, fields, codes[..], numColors, at, pos);
        return true, numColors, pos;
      }
      if bytes[pos] != ':' {
        assert bytes[at..][..pos - at] == bytes[at..pos];
        LastField(bytes[at..], pos - at);
        assert fields[numColors] == fields[numColors..][0];
        return false, numColors, pos;
      }
      NextField(bytes, fields, codes[..], numColors, at, pos);
      pos := pos + 1;
      numColors := numColors + 1;
    }
  }

  method ParseJqColors(value: Option<Bytes>) returns (r: Option<Palette>)
    ensures value.None? ==> r == Some(DefaultPalette())
    ensures value.Some? ==> (r.Some? <==> Acceptable(Split(value.value, ':')))
    ensures value.Some? && r.Some? ==>
              forall k :: 0 <= k < 8 ==> r.value.codes[k] == SlotCode(Split(value.value, ':'), k)
  {
    hide Split, Wrap;
    if value.None? {
      return Some(DefaultPalette());
    }
    var bytes := value.value;
    ghost var fields := Split(bytes, ':');
    var codes := new nat[9](_ => 0);
    var ok, numColors, pos := ScanFields(bytes, codes);
    if !ok {
      return None;
    }
    if codes[numColors] != pos {
      numColors := numColors + 1;
      codes[numColors] := pos + 1;
    } else if numColors == 0 {
      return Some(DefaultPalette());
    }
    var palette := DefaultPalette().codes;
    for ci := 0 to numColors
      invariant |palette| == 8
      invariant forall k :: 0 <= k < ci ==> palette[k] == Wrap(Field(fields, k))
      invariant forall k :: ci <= k < 8 ==> palette[k] == Wrap(DefaultField(k))
    {
      var end := Max(Min(SaturatingSub(codes[ci + 1], 1), |bytes|), codes[ci]);
      palette := palette[ci := Wrap(bytes[codes[ci]..end])];
    }
    SlotCodesValid(fields, palette);
    return Some(PaletteData(palette));
  }

  function SaturatingSub(a: nat, b: nat): nat { if a < b then 0 else a - b }
}
