/**
 `-R`: every input line becomes one JSON string literal, or the whole input becomes one.

 The conversion of invalid UTF-8 is a parameter: any function that keeps valid UTF-8 as it is.
 */
module RawInput {
  import opened Bytes
  import opened Utf8

  // ----- The escape law -----

  const HEX: Bytes := "0123456789abcdef"

  /** How one byte of a string body is written. */
  function Escape(b: Byte): Bytes
  {
    match b
    case '"' => ['\\', '"']
    case '\\' => ['\\', '\\']
    case '\U{08}' => ['\\', 'b']
    case '\t' => ['\\', 't']
    case '\n' => ['\\', 'n']
    case '\U{0c}' => ['\\', 'f']
    case '\r' => ['\\', 'r']
    case _ =>
      if b < ' ' || b == '\U{7f}' then ['\\', 'u', '0', '0', HEX[b as int / 16], HEX[b as int % 16]] else [b]
  }

  function Escaped(bytes: Bytes): Bytes
  {
    if bytes == [] then [] else Escape(bytes[0]) + Escaped(bytes[1..])
  }

  lemma {:induction false} EscapedAppend(a: Bytes, b: Byte)
    ensures Escaped(a + [b]) == Escaped(a) + Escape(b)
  {
    if a == [] {
      assert a + [b] == [b] && [b][1..] == [];
    } else {
      assert (a + [b])[1..] == a[1..] + [b];
      EscapedAppend(a[1..], b);
    }
  }

  /** The written form: a byte stands for itself unless it is a control character, DEL, a quote or a backslash; seven
      have a short form, and the others two lower-case hexadecimal digits. Nothing written is a control character. */
  lemma EscapeForm(b: Byte)
    ensures var e := Escape(b);
            (e == [b] <==> b >= ' ' && b !in ['"', '\\', '\U{7f}']) &&
            (|e| == 2 <==> b in ['"', '\\', '\U{08}', '\t', '\n', '\U{0c}', '\r']) &&
            (|e| == 1 || |e| == 2 || (|e| == 6 && e[..4] == "\\u00" && e[4] in "0123456789abcdef" &&
                                      e[5] in "0123456789abcdef")) &&
            (|e| > 1 ==> e[0] == '\\') && forall k :: 0 <= k < |e| ==> e[k] >= ' '
  {
    if |Escape(b)| == 6 {
      assert "0123456789abcdef"[b as int / 16] == HEX[b as int / 16];
      assert "0123456789abcdef"[b as int % 16] == HEX[b as int % 16];
    }
  }

  /** A written text holds no control character, so no newline. */
  lemma {:induction false} EscapedPrintable(text: Bytes)
    ensures forall k :: 0 <= k < |Escaped(text)| ==> Escaped(text)[k] >= ' '
  {
    if text != [] {
      EscapeForm(text[0]);
      EscapedPrintable(text[1..]);
    }
  }

  lemma NothingEscaped()
    ensures Escaped([]) == []
  {
  }

  lemma LiteralIs(text: Bytes)
    ensures Literal(text) == ['"'] + Escaped(text) + ['"']
  {
  }

  function Literal(text: Bytes): Bytes { ['"'] + Escaped(text) + ['"'] }

  method PushJsonEscaped(out: Buffer, bytes: Bytes)
    modifies out
    ensures out.data == old(out.data) + Escaped(bytes)
  {
    hide Escaped;
    NothingEscaped();
    for i := 0 to |bytes|
      invariant out.data == old(out.data) + Escaped(bytes[..i])
    {
      EscapedAppend(bytes[..i], bytes[i]);
      assert bytes[..i + 1] == bytes[..i] + [bytes[i]];
      var escape := Escape(bytes[i]);
      if |escape| > 1 {
        out.Extend(escape);
      } else {
        out.Push(bytes[i]);
      }
    }
    assert bytes[..|bytes|] == bytes;
  }

  method PushJsonString(out: Buffer, bytes: Bytes, lossy: Bytes -> Bytes)
    modifies out
    ensures out.data == old(out.data) + Literal(lossy(bytes)) + ['\n']
  {
    hide Escape, Escaped;
    out.Push('"');
    PushJsonEscaped(out, lossy(bytes));
    out.Push('"');
    out.Push('\n');
  }

  // ----- Lines -----

  /** The newline split, without the one empty segment a final newline leaves. */
  function Lines(bytes: Bytes): seq<Bytes>
  {
    if bytes == [] then []
    else if bytes[|bytes| - 1] == '\n' then var all := Split(bytes, '\n'); all[..|all| - 1]
    else Split(bytes, '\n')
  }

  function Literals(lines: seq<Bytes>, lossy: Bytes -> Bytes): Bytes
  {
    if lines == [] then [] else Literal(lossy(lines[0])) + ['\n'] + Literals(lines[1..], lossy)
  }

  lemma NoLiterals(lossy: Bytes -> Bytes)
    ensures Literals([], lossy) == []
  {
  }

  lemma {:induction false} LiteralsAppend(lines: seq<Bytes>, line: Bytes, lossy: Bytes -> Bytes)
    ensures Literals(lines + [line], lossy) == Literals(lines, lossy) + (Literal(lossy(line)) + ['\n'])
  {
    if lines == [] {
      assert lines + [line] == [line] && [line][1..] == [];
    } else {
      assert (lines + [line])[1..] == lines[1..] + [line];
      LiteralsAppend(lines[1..], line, lossy);
    }
  }

  method RawInputBytes(bytes: Bytes, slurp: bool, lossy: Bytes -> Bytes) returns (out: Bytes)
    ensures out == if slurp then Literal(lossy(bytes)) else Literals(Lines(bytes), lossy)
  {
    hide Escape, Escaped, Literal, Literals, Split;
    NoLiterals(lossy);
    LiteralIs(lossy(bytes));
    var buffer := new Buffer();
    if slurp {
      buffer.Push('"');
      PushJsonEscaped(buffer, lossy(bytes));
      buffer.Push('"');
      return buffer.data;
    }
    if bytes == [] {
      return [];
    }
    var segments := Split(bytes, '\n');
    if bytes[|bytes| - 1] == '\n' {
      segments := segments[..|segments| - 1];
    }
    for k := 0 to |segments|
      invariant buffer.data == Literals(segments[..k], lossy)
    {
      LiteralsAppend(segments[..k], segments[k], lossy);
      assert segments[..k + 1] == segments[..k] + [segments[k]];
      PushJsonString(buffer, segments[k], lossy);
    }
    assert segments[..|segments|] == segments;
    return buffer.data;
  }

  /** The lines are the input cut at its newlines: none contains one, and rejoining restores every byte. */
  lemma LinesRejoin(bytes: Bytes)
    ensures forall line :: line in Lines(bytes) ==> '\n' !in line
    ensures bytes == [] <==> Lines(bytes) == []
    ensures bytes != [] && bytes[|bytes| - 1] != '\n' ==> bytes == Join(Lines(bytes), '\n')
    ensures bytes != [] && bytes[|bytes| - 1] == '\n' ==> bytes == Join(Lines(bytes), '\n') + ['\n']
  {
    hide Split, Join;
    if bytes != [] {
      var all := Split(bytes, '\n');
      JoinSplit(bytes, '\n');
      if bytes[|bytes| - 1] == '\n' {
        FinalEmpty(bytes);
        JoinInit(all[..|all| - 1], '\n');
        assert all == all[..|all| - 1] + [[]];
      }
    }
  }

  /** A final newline leaves one empty segment after at least one other. */
  lemma {:induction false} FinalEmpty(s: Bytes)
    requires s != [] && s[|s| - 1] == '\n'
    ensures var all := Split(s, '\n'); |all| >= 2 && all[|all| - 1] == []
    decreases |s|
  {
    var i := IndexOf(s, '\n');
    assert i < |s| by {
      assert s[..|s|] == s && s[|s| - 1] in s;
    }
    var rest := s[i + 1..];
    if rest != [] {
      FinalEmpty(rest);
    } else {
      assert Split(rest, '\n') == [[]];
    }
  }

  lemma {:induction false} JoinInit(fields: seq<Bytes>, d: Byte)
    requires fields != []
    ensures Join(fields + [[]], d) == Join(fields, d) + [d]
  {
    JoinCons(fields[0], fields[1..] + [[]], d);
    assert fields + [[]] == [fields[0]] + (fields[1..] + [[]]);
    if |fields| > 1 {
      JoinInit(fields[1..], d);
    } else {
      assert fields[1..] + [[]] == [[]];
    }
  }

  // ----- The reader, sections 7 and 8 of RFC 8259 -----

  function HexValue(b: Byte): (r: Option<nat>)
    ensures r.Some? ==> r.value < 16
  {
    if '0' <= b <= '9' then Some(b as int - '0' as int)
    else if 'a' <= b <= 'f' then Some(b as int - 'a' as int + 10)
    else if 'A' <= b <= 'F' then Some(b as int - 'A' as int + 10)
    else None
  }

  /** The code unit of four hexadecimal digits. */
  function CodeUnit(s: Bytes): (u: Option<nat>)
    ensures u.Some? ==> u.value < 0x1_0000
  {
    if |s| < 4 then None
    else
      match (HexValue(s[0]), HexValue(s[1]), HexValue(s[2]), HexValue(s[3]))
      case (Some(a), Some(b), Some(c), Some(d)) => Some(((a * 16 + b) * 16 + c) * 16 + d)
      case _ => None
  }

  /** One escape after its backslash: the bytes it stands for, and how many bytes it took. */
  function ReadEscape(s: Bytes): (r: Option<(Bytes, nat)>)
    ensures r.Some? ==> 0 < r.value.1 <= |s|
  {
    if s == [] then None
    else
      match s[0]
      case '"' => Some((['"'], 1))
      case '\\' => Some((['\\'], 1))
      case '/' => Some((['/'], 1))
      case 'b' => Some((['\U{08}'], 1))
      case 'f' => Some((['\U{0c}'], 1))
      case 'n' => Some((['\n'], 1))
      case 'r' => Some((['\r'], 1))
      case 't' => Some((['\t'], 1))
      case 'u' => ReadUnicode(s)
      case _ => None
  }

  function ReadUnicode(s: Bytes): (r: Option<(Bytes, nat)>)
    requires s != []
    ensures r.Some? ==> 0 < r.value.1 <= |s|
  {
    match CodeUnit(s[1..])
    case None => None
    case Some(u) =>
      if !(0xd800 <= u < 0xdc00) then Some((Encode(u), 5))
      else if |s| >= 7 && s[5] == '\\' && s[6] == 'u' then
        match CodeUnit(s[7..])
        case Some(v) =>
          if 0xdc00 <= v < 0xe000 then Some((Encode(0x1_0000 + (u - 0xd800) * 1024 + (v - 0xdc00)), 11)) else None
        case None => None
      else None
  }

  /** A string body up to its closing quote, and what follows. */
  function ReadBody(s: Bytes): (r: Option<(Bytes, Bytes)>)
    ensures r.Some? ==> |r.value.1| < |s|
    decreases |s|
  {
    if s == [] || s[0] < ' ' then None
    else if s[0] == '"' then Some(([], s[1..]))
    else if s[0] == '\\' then
      match ReadEscape(s[1..])
      case None => None
      case Some((text, n)) => Prepend(text, ReadBody(s[1 + n..]))
    else Prepend([s[0]], ReadBody(s[1..]))
  }

  function Prepend(text: Bytes, r: Option<(Bytes, Bytes)>): (r': Option<(Bytes, Bytes)>)
    ensures r'.Some? ==> r.Some? && r'.value.1 == r.value.1
  {
    match r
    case None => None
    case Some((more, rest)) => Some((text + more, rest))
  }

  /** A stream of string literals with white space between them. */
  function ReadStrings(s: Bytes): Option<seq<Bytes>>
    decreases |s|
  {
    if s == [] then Some([])
    else if s[0] in [' ', '\t', '\n', '\r'] then ReadStrings(s[1..])
    else if s[0] == '"' then
      match ReadBody(s[1..])
      case None => None
      case Some((text, rest)) =>
        match ReadStrings(rest)
        case None => None
        case Some(more) => Some([text] + more)
    else None
  }

  // ----- Reading back what was written -----

  /** What one byte was written as reads back as that byte. */
  lemma ReadOne(b: Byte, rest: Bytes)
    ensures ReadBody(Escape(b) + rest) == Prepend([b], ReadBody(rest))
  {
    hide ReadUnicode;
    var s := Escape(b) + rest;
    if |Escape(b)| == 1 {
      assert s[1..] == rest;
    } else {
      var n := |Escape(b)| - 1;
      var tail := s[1..];
      assert s[1 + n..] == rest;
      assert ReadEscape(tail) == Some(([b], n)) by {
        if n == 5 {
          ReadControl(b, rest);
        }
      }
    }
  }

  /** A control character written as four hexadecimal digits. */
  lemma ReadControl(b: Byte, rest: Bytes)
    requires |Escape(b)| == 6
    ensures ReadUnicode((Escape(b) + rest)[1..]) == Some(([b], 5))
  {
    var tail := (Escape(b) + rest)[1..];
    var digits := tail[1..];
    assert digits[0] == '0' && digits[1] == '0' && digits[2] == HEX[b as int / 16] && digits[3] == HEX[b as int % 16];
    HexReads(b as int / 16);
    HexReads(b as int % 16);
    assert CodeUnit(digits) == Some(b as int);
  }

  lemma HexReads(k: nat)
    requires k < 16
    ensures HexValue(HEX[k]) == Some(k)
  {
  }

  lemma {:induction false} ReadEscaped(text: Bytes, rest: Bytes)
    ensures ReadBody(Escaped(text) + ['"'] + rest) == Some((text, rest))
  {
    if text == [] {
      assert Escaped(text) + ['"'] + rest == ['"'] + rest;
      assert (['"'] + rest)[1..] == rest;
    } else {
      var more := Escaped(text[1..]) + ['"'] + rest;
      assert Escaped(text) + ['"'] + rest == Escape(text[0]) + more;
      ReadOne(text[0], more);
      ReadEscaped(text[1..], rest);
      assert [text[0]] + text[1..] == text;
    }
  }

  lemma ReadLiteral(text: Bytes, rest: Bytes)
    ensures ReadStrings(Literal(text) + rest) ==
            match ReadStrings(rest) case None => None case Some(more) => Some([text] + more)
  {
    hide Escape, Escaped, ReadBody;
    ReadEscaped(text, rest);
    assert (Literal(text) + rest)[1..] == Escaped(text) + ['"'] + rest;
  }

  /** The converted lines as literals. */
  function Written(lines: seq<Bytes>, lossy: Bytes -> Bytes): seq<Bytes>
  {
    seq(|lines|, k requires 0 <= k < |lines| => Literal(lossy(lines[k])))
  }

  /** The output has one line for each literal, ended by a newline, and no other newline. */
  lemma {:induction false} OneLiteralALine(lines: seq<Bytes>, lossy: Bytes -> Bytes)
    ensures Split(Literals(lines, lossy), '\n') == Written(lines, lossy) + [[]]
  {
    hide Literal, Split;
    if lines == [] {
      NothingSplit();
    } else {
      var first := Literal(lossy(lines[0]));
      OneLiteralALine(lines[1..], lossy);
      NoNewline(lossy(lines[0]));
      FirstLine(first, Literals(lines[1..], lossy));
      assert Written(lines, lossy) == [first] + Written(lines[1..], lossy);
    }
  }

  lemma NothingSplit()
    ensures Split([], '\n') == [[]]
  {
  }

  lemma NoNewline(text: Bytes)
    ensures '\n' !in Literal(text)
  {
    hide Escaped;
    EscapedPrintable(text);
  }

  lemma FirstLine(first: Bytes, rest: Bytes)
    requires '\n' !in first
    ensures Split(first + ['\n'] + rest, '\n') == [first] + Split(rest, '\n')
  {
    hide Split;
    var all := first + ['\n'] + rest;
    assert all[..|first|] == first && all[|first| + 1..] == rest;
    SplitStep(all, '\n', |first|);
  }

  function Mapped(lines: seq<Bytes>, lossy: Bytes -> Bytes): seq<Bytes>
  {
    seq(|lines|, k requires 0 <= k < |lines| => lossy(lines[k]))
  }

  /** Reading the emitted literals gives back every line, in order, and nothing else. */
  lemma {:induction false} ReadLiterals(lines: seq<Bytes>, lossy: Bytes -> Bytes)
    ensures ReadStrings(Literals(lines, lossy)) == Some(Mapped(lines, lossy))
  {
    hide Literal, ReadStrings;
    if lines == [] {
      NothingRead();
    } else {
      var more := Literals(lines[1..], lossy);
      ReadLiterals(lines[1..], lossy);
      assert Literals(lines, lossy) == Literal(lossy(lines[0])) + (['\n'] + more);
      ReadLiteral(lossy(lines[0]), ['\n'] + more);
      SpaceSkipped(more);
      assert Mapped(lines, lossy) == [lossy(lines[0])] + Mapped(lines[1..], lossy);
    }
  }

  lemma NothingRead()
    ensures ReadStrings([]) == Some([])
  {
  }

  lemma SpaceSkipped(s: Bytes)
    ensures ReadStrings(['\n'] + s) == ReadStrings(s)
  {
    assert (['\n'] + s)[1..] == s;
  }

  // ----- Valid UTF-8 reads back as it is -----

  /** The conversion keeps valid UTF-8. */
  ghost predicate KeepsValid(lossy: Bytes -> Bytes)
  {
    forall s :: IsUtf8(s) ==> lossy(s) == s
  }

  /** For valid UTF-8 the literals read back as exactly the lines of the input; with `slurp`, as the one whole input. */
  lemma RawInputReadsBack(bytes: Bytes, lossy: Bytes -> Bytes)
    requires KeepsValid(lossy) && IsUtf8(bytes)
    ensures ReadStrings(Literals(Lines(bytes), lossy)) == Some(Lines(bytes))
    ensures ReadStrings(Literal(lossy(bytes))) == Some([bytes])
  {
    hide Escape, Escaped, ReadBody, Split, IsUtf8, Literals;
    ReadLiterals(Lines(bytes), lossy);
    SplitUtf8(bytes);
    assert Mapped(Lines(bytes), lossy) == Lines(bytes);
    ReadLiteral(bytes, []);
    assert lossy(bytes) == bytes && Literal(bytes) + [] == Literal(bytes);
    assert ReadStrings([]) == Some([]) && [bytes] + [] == [bytes];
  }
}
