/** Removing the colour spans again, and when that gives the input back. */
module Strip {
  import opened Bytes
  import opened Colour

  /** What follows the first `m`. */
  function AfterM(s: Bytes): (r: Bytes)
    ensures |r| <= |s|
  {
    if s == [] then [] else if s[0] == 'm' then s[1..] else AfterM(s[1..])
  }

  predicate OpensSpan(s: Bytes)
  {
    |s| > 1 && s[0] == ESC && s[1] == '['
  }

  /** Drops every ESC `[` ... `m` run. */
  function Stripped(s: Bytes): Bytes
    decreases |s|
  {
    if s == [] then []
    else if OpensSpan(s) then Stripped(AfterM(s[2..]))
    else [s[0]] + Stripped(s[1..])
  }

  method StripSpans(coloured: Bytes) returns (out: Bytes)
    ensures out == Stripped(coloured)
  {
    out := [];
    var i := 0;
    assert coloured[0..] == coloured;
    while i < |coloured|
      invariant 0 <= i <= |coloured|
      invariant out + Stripped(coloured[i..]) == Stripped(coloured)
    {
      ghost var rest := coloured[i..];
      if coloured[i] == ESC && i + 1 < |coloured| && coloured[i + 1] == '[' {
        ghost var from := i + 2;
        i := i + 2;
        assert rest[2..] == coloured[i..];
        while i < |coloured| && coloured[i] != 'm'
          invariant from <= i <= |coloured|
          invariant AfterM(rest[2..]) == AfterM(coloured[i..])
        {
          assert coloured[i..][1..] == coloured[i + 1..];
          i := i + 1;
        }
        if i < |coloured| {
          assert coloured[i..][1..] == coloured[i + 1..];
          i := i + 1;
        } else {
          return;
        }
      } else {
        assert rest[1..] == coloured[i + 1..];
        out := out + [coloured[i]];
        i := i + 1;
      }
    }
  }

  /** No ESC `[` inside the bytes of one token. */
  predicate Clean(token: Bytes)
  {
    forall k :: 0 <= k < |token| - 1 ==> !(token[k] == ESC && token[k + 1] == '[')
  }

  lemma {:induction false} AfterMAppend(s: Bytes, rest: Bytes)
    ensures AfterM(s + rest) == if 'm' in s then AfterM(s) + rest else AfterM(rest)
  {
    if s == [] {
      assert s + rest == rest;
    } else {
      assert (s + rest)[1..] == s[1..] + rest;
      AfterMAppend(s[1..], rest);
    }
  }

  lemma StrippedCode(code: Bytes, rest: Bytes)
    requires IsCode(code)
    ensures Stripped(code + rest) == Stripped(rest)
  {
    hide AfterM, IsCodeByte;
    CodeBytes();
    var body := code[2..];
    assert (code + rest)[2..] == body + rest;
    AfterMAppend(body[..|body| - 1], ['m'] + rest);
    assert body + rest == body[..|body| - 1] + (['m'] + rest);
    assert 'm' !in body[..|body| - 1] by {
      assert forall k :: 0 <= k < |body| - 1 ==> body[k] == code[k + 2] && IsCodeByte(code[k + 2]);
    }
    AfterMFirst(rest);
  }

  lemma AfterMFirst(rest: Bytes)
    ensures AfterM(['m'] + rest) == rest
  {
    assert (['m'] + rest)[1..] == rest;
  }

  lemma CodeBytes()
    ensures !IsCodeByte('m')
  {
  }

  /** What removal leaves of one token and its reset: the removal never reaches past the reset. */
  lemma {:induction false} StrippedToken(token: Bytes, rest: Bytes)
    ensures Stripped(token + RESET + rest) == Stripped(token + RESET) + Stripped(rest)
    ensures |Stripped(token + RESET)| <= |token|
    ensures Stripped(token + RESET) == token <==> Clean(token)
    ensures !Clean(token) ==> |Stripped(token + RESET)| < |token|
    decreases |token|
  {
    if token == [] {
      StrippedReset(rest);
    } else if OpensSpan(token) {
      if 'm' in token[2..] {
        AfterMSuffix(token[2..]);
        StrippedToken(AfterM(token[2..]), rest);
      }
      StrippedOpening(token, rest);
      StrippedOpening(token, []);
    } else {
      StrippedToken(token[1..], rest);
      CleanTail(token);
      StrippedOrdinary(token, rest);
      StrippedOrdinary(token, []);
    }
  }

  lemma StrippedReset(rest: Bytes)
    ensures Stripped([] + RESET + rest) == Stripped(rest) && Stripped([] + RESET) == []
  {
    StrippedCode(RESET, rest);
    StrippedCode(RESET, []);
    assert [] + RESET + rest == RESET + rest && [] + RESET == RESET + [];
  }

  /** A token that opens a span of its own: its head goes, up to an `m` of its own or the one of the reset. */
  lemma StrippedOpening(token: Bytes, rest: Bytes)
    requires OpensSpan(token)
    ensures var inner := token[2..];
            Stripped(token + RESET + rest) ==
            (if 'm' in inner then Stripped(AfterM(inner) + RESET + rest) else Stripped(rest))
    ensures token + RESET + [] == token + RESET && AfterM(token[2..]) + RESET + [] == AfterM(token[2..]) + RESET
    ensures !Clean(token)
  {
    var inner := token[2..];
    var whole := token + RESET + rest;
    assert whole[2..] == inner + (RESET + rest) && OpensSpan(whole);
    AfterMAppend(inner, RESET + rest);
    AfterMReset(rest);
    Assoc(AfterM(inner), RESET, rest);
    assert token[0] == ESC && token[0 + 1] == '[';
  }

  /** A token that starts with an ordinary byte: that byte stays. */
  lemma StrippedOrdinary(token: Bytes, rest: Bytes)
    requires token != [] && !OpensSpan(token)
    ensures Stripped(token + RESET + rest) == [token[0]] + Stripped(token[1..] + RESET + rest)
    ensures token + RESET + [] == token + RESET && token[1..] + RESET + [] == token[1..] + RESET
  {
    var whole := token + RESET + rest;
    assert whole[1..] == token[1..] + RESET + rest;
    assert !OpensSpan(whole) by {
      assert whole[1] == if |token| == 1 then RESET[0] else token[1];
    }
  }

  lemma {:induction false} AfterMSuffix(s: Bytes)
    ensures 'm' in s ==> |AfterM(s)| < |s|
  {
    if s != [] && s[0] != 'm' {
      AfterMSuffix(s[1..]);
    }
  }

  lemma AfterMReset(rest: Bytes)
    ensures AfterM(RESET + rest) == rest
  {
    AfterMAppend(RESET, rest);
    assert AfterM(RESET) == [] by {
      assert RESET[3] == 'm';
      assert AfterM(RESET) == AfterM(RESET[1..]) == AfterM(RESET[1..][1..]) == AfterM(RESET[1..][1..][1..]);
    }
    assert RESET[3] in RESET;
  }

  lemma CleanTail(token: Bytes)
    requires token != [] && !OpensSpan(token)
    ensures Clean(token) <==> Clean(token[1..])
  {
    if Clean(token[1..]) {
      forall k | 0 <= k < |token| - 1
        ensures !(token[k] == ESC && token[k + 1] == '[')
      {
        if k > 0 {
          assert token[1..][k - 1] == token[k] && token[1..][k] == token[k + 1];
        }
      }
    }
  }

  // ----- Piece lists -----

  /** Copied bytes go out one at a time. */
  predicate OneByOne(pieces: seq<Piece>)
  {
    forall k :: 0 <= k < |pieces| && pieces[k].Plain? ==> |pieces[k].text| == 1
  }

  /** No copied ESC meets a copied `[`. */
  predicate Separate(pieces: seq<Piece>)
  {
    forall k :: 0 <= k < |pieces| - 1 ==> !(pieces[k] == Plain([ESC]) && pieces[k + 1] == Plain(['[']))
  }

  /** Every coloured token is free of ESC `[`. */
  predicate AllClean(pieces: seq<Piece>)
  {
    forall k :: 0 <= k < |pieces| && pieces[k].Span? ==> Clean(pieces[k].text)
  }

  /** The text itself, or less than it. */
  predicate TextOrLess(out: Bytes, text: Bytes, same: bool)
  {
    if same then out == text else |out| < |text|
  }

  lemma LessJoined(a: Bytes, x: Bytes, first: bool, b: Bytes, y: Bytes, second: bool)
    requires TextOrLess(a, x, first) && TextOrLess(b, y, second)
    ensures TextOrLess(a + b, x + y, first && second)
  {
  }

  /** Removal gives back the input when neither a coloured token nor two copied bytes open a span of their own, and
      otherwise less of it. */
  lemma {:induction false} StripEmitSteps(p: Palette, pieces: seq<Piece>)
    requires OneByOne(pieces)
    ensures TextOrLess(Stripped(Emit(p, pieces)), TextOf(pieces), AllClean(pieces) && Separate(pieces))
    decreases |pieces|, 0
  {
    if pieces != [] {
      hide Stripped, AllClean, Separate, Emit, Clean, TextOrLess;
      var piece, rest := pieces[0], pieces[1..];
      assert pieces == [piece] + rest;
      StripEmitSteps(p, rest);
      AllCleanCons(piece, rest);
      SeparateStep(piece, rest);
      if piece.Span? {
        SpanStep(p, piece, rest);
      } else if Meets(piece, rest) {
        CopiedOpening(p, piece, rest);
        StripAfterM(p, rest[1..]);
        Less(Stripped(Emit(p, pieces)), TextOf(pieces));
      } else {
        StrippedPlain(p, piece, rest);
        Whole(piece.text);
        LessJoined(piece.text, piece.text, true, Stripped(Emit(p, rest)), TextOf(rest),
                   AllClean(rest) && Separate(rest));
      }
    }
  }

  lemma SpanStep(p: Palette, piece: Piece, rest: seq<Piece>)
    requires piece.Span?
    requires TextOrLess(Stripped(Emit(p, rest)), TextOf(rest), AllClean(rest) && Separate(rest))
    ensures TextOrLess(Stripped(Emit(p, [piece] + rest)), piece.text + TextOf(rest),
                       Clean(piece.text) && AllClean(rest) && Separate(rest))
  {
    hide Stripped, AllClean, Separate, Emit, Clean, IsCode, TextOf;
    var code, tail := ColourOf(p, piece.slot), Emit(p, rest);
    EmitCons(p, piece, rest);
    assert EmitPiece(p, piece) + tail == code + (piece.text + RESET + tail);
    StrippedCode(code, piece.text + RESET + tail);
    StrippedToken(piece.text, tail);
    LessJoined(Stripped(piece.text + RESET), piece.text, Clean(piece.text), Stripped(tail), TextOf(rest),
               AllClean(rest) && Separate(rest));
  }

  lemma Less(out: Bytes, text: Bytes)
    requires |out| < |text|
    ensures TextOrLess(out, text, false)
  {
  }

  lemma Whole(text: Bytes)
    ensures TextOrLess(text, text, true)
  {
  }

  /** Removal never adds bytes, and gives back the input exactly when neither a coloured token nor two copied bytes open
      a span of their own. */
  lemma StripEmit(p: Palette, pieces: seq<Piece>)
    requires OneByOne(pieces)
    ensures |Stripped(Emit(p, pieces))| <= |TextOf(pieces)|
    ensures Stripped(Emit(p, pieces)) == TextOf(pieces) <==> AllClean(pieces) && Separate(pieces)
    ensures !(AllClean(pieces) && Separate(pieces)) ==> |Stripped(Emit(p, pieces))| < |TextOf(pieces)|
    decreases |pieces|, 1
  {
    StripEmitSteps(p, pieces);
  }

  /** A copied ESC before a copied `[`. */
  predicate Meets(piece: Piece, rest: seq<Piece>)
  {
    piece == Plain([ESC]) && rest != [] && rest[0] == Plain(['['])
  }

  lemma SeparateStep(piece: Piece, rest: seq<Piece>)
    ensures Separate([piece] + rest) <==> !Meets(piece, rest) && Separate(rest)
  {
    var all := [piece] + rest;
    if Meets(piece, rest) {
      assert all[0] == piece && all[0 + 1] == rest[0];
    }
    if !Meets(piece, rest) && Separate(rest) {
      forall k | 0 <= k < |all| - 1
        ensures !(all[k] == Plain([ESC]) && all[k + 1] == Plain(['[']))
      {
        if k > 0 {
          assert all[k] == rest[k - 1] && all[k + 1] == rest[k - 1 + 1];
        }
      }
    }
    if !Separate(rest) {
      var k :| 0 <= k < |rest| - 1 && rest[k] == Plain([ESC]) && rest[k + 1] == Plain(['[']);
      assert all[k + 1] == Plain([ESC]) && all[k + 1 + 1] == Plain(['[']);
    }
  }

  lemma CopiedOpening(p: Palette, piece: Piece, rest: seq<Piece>)
    requires Meets(piece, rest)
    ensures Stripped(Emit(p, [piece] + rest)) == Stripped(AfterM(Emit(p, rest[1..])))
    ensures |TextOf([piece] + rest)| == 2 + |TextOf(rest[1..])|
  {
    var all := [piece] + rest;
    var out := Emit(p, all);
    var tail := Emit(p, rest[1..]);
    assert rest == [rest[0]] + rest[1..];
    EmitCons(p, piece, rest);
    EmitCons(p, rest[0], rest[1..]);
    assert all[1..] == rest && TextOf(rest) == ['['] + TextOf(rest[1..]);
    assert out == [ESC] + (['['] + tail);
    assert OpensSpan(out) && out[2..] == Emit(p, rest[1..]);
  }

  lemma AfterMPiece(p: Palette, piece: Piece, tail: Bytes)
    requires OneByOne([piece])
    ensures piece.Span? ==> AfterM(EmitPiece(p, piece) + tail) == piece.text + RESET + tail
    ensures piece.Plain? ==> AfterM(EmitPiece(p, piece) + tail) == if piece.text == ['m'] then tail else AfterM(tail)
  {
    assert [piece][0] == piece;
    if piece.Span? {
      var code := ColourOf(p, piece.slot);
      assert EmitPiece(p, piece) + tail == code + (piece.text + RESET + tail);
      AfterCode(code, piece.text + RESET + tail);
    } else {
      assert (piece.text + tail)[1..] == tail && piece.text == [piece.text[0]];
    }
  }

  /** A span opened by copied bytes ends at the latest with the next span's own code. */
  lemma {:induction false} StripAfterM(p: Palette, pieces: seq<Piece>)
    requires OneByOne(pieces)
    ensures |Stripped(AfterM(Emit(p, pieces)))| <= |TextOf(pieces)|
    decreases |pieces|, 2
  {
    if pieces != [] {
      hide Stripped, AfterM, Emit, EmitPiece, RESET;
      var piece, rest := pieces[0], pieces[1..];
      var tail := Emit(p, rest);
      StripEmit(p, rest);
      assert pieces == [piece] + rest;
      EmitCons(p, piece, rest);
      AfterMPiece(p, piece, tail);
      if piece.Span? {
        StrippedToken(piece.text, tail);
      } else {
        StripAfterM(p, rest);
      }
    }
  }

  lemma AfterCode(code: Bytes, rest: Bytes)
    requires IsCode(code)
    ensures AfterM(code + rest) == rest
  {
    var init := code[..|code| - 1];
    assert 'm' !in init by {
      assert forall k :: 2 <= k < |code| - 1 ==> IsCodeByte(code[k]);
    }
    AfterMAppend(init, ['m'] + rest);
    assert code + rest == init + (['m'] + rest);
    assert (['m'] + rest)[1..] == rest;
  }

  lemma StrippedPlain(p: Palette, piece: Piece, rest: seq<Piece>)
    requires piece.Plain? && OneByOne([piece] + rest) && !Meets(piece, rest)
    ensures Stripped(Emit(p, [piece] + rest)) == piece.text + Stripped(Emit(p, rest))
  {
    var all := [piece] + rest;
    var out := Emit(p, all);
    assert all[0] == piece && all[1..] == rest && out == piece.text + Emit(p, rest);
    assert out[0] == piece.text[0] && out[1..] == Emit(p, rest);
    assert piece.text == [out[0]];
    assert !OpensSpan(out) by {
      if rest != [] {
        assert all[0 + 1] == rest[0];
        assert out[1] == EmitPiece(p, rest[0])[0];
        assert rest[0].Plain? ==> rest[0].text == [out[1]];
      }
    }
  }

  lemma CopiedByte(s: Bytes, stack: seq<Container>, prev: Prev)
    requires s != []
    ensures var piece := NextToken(s, stack, prev).piece; piece.Plain? ==> |piece.text| == 1 && piece.text != ['[']
  {
  }

  lemma ScanUnfold(s: Bytes, stack: seq<Container>, prev: Prev)
    requires s != []
    ensures var t := NextToken(s, stack, prev);
            |t.piece.text| <= |s| && t.piece.text == s[..|t.piece.text|] && |t.piece.text| > 0 &&
            Scan(s, stack, prev) == [t.piece] + Scan(s[|t.piece.text|..], t.stack, t.prev)
  {
    hide NextToken;
  }

  /** What the scan of any input is: its text, copied byte by byte between tokens, and no copied `[` at the start. */
  ghost predicate Covering(pieces: seq<Piece>, s: Bytes)
  {
    TextOf(pieces) == s && OneByOne(pieces) && Separate(pieces) &&
    (pieces != [] && pieces[0].Plain? ==> pieces[0].text != ['['])
  }

  lemma CoveringCons(piece: Piece, rest: seq<Piece>, s: Bytes)
    requires Covering(rest, s) && (piece.Plain? ==> |piece.text| == 1 && piece.text != ['['])
    ensures Covering([piece] + rest, piece.text + s)
  {
    hide Separate;
    var all := [piece] + rest;
    assert all[1..] == rest && all[0] == piece;
    SeparateStep(piece, rest);
  }

  lemma {:induction false} ScanIsCovering(s: Bytes, stack: seq<Container>, prev: Prev)
    ensures Covering(Scan(s, stack, prev), s)
    decreases |s|
  {
    if s != [] {
      CopiedByte(s, stack, prev);
      ScanUnfold(s, stack, prev);
      hide NextToken, Scan, Covering;
      var t := NextToken(s, stack, prev);
      var n := |t.piece.text|;
      ScanIsCovering(s[n..], t.stack, t.prev);
      CoveringCons(t.piece, Scan(s[n..], t.stack, t.prev), s[n..]);
      assert s == s[..n] + s[n..];
    }
  }

  /** The tokens of any input together are the input; copied bytes come one by one, and none of them open a span. */
  lemma {:induction false} ScanCovers(s: Bytes, stack: seq<Container>, prev: Prev)
    ensures TextOf(Scan(s, stack, prev)) == s
    ensures OneByOne(Scan(s, stack, prev)) && Separate(Scan(s, stack, prev))
  {
    ScanIsCovering(s, stack, prev);
  }

  /** No quoted stretch holds ESC `[`: from a quote outside one to the next unescaped quote, or to the end. */
  predicate QuotesClean(s: Bytes)
    decreases |s|
  {
    if s == [] then true
    else if s[0] == '"' then Clean(s[..StringEnd(s, 1)]) && QuotesClean(s[StringEnd(s, 1)..])
    else QuotesClean(s[1..])
  }

  lemma {:induction false} UnquotedSkipped(a: Bytes, rest: Bytes)
    requires '"' !in a
    ensures QuotesClean(a + rest) <==> QuotesClean(rest)
  {
    if a == [] {
      assert a + rest == rest;
    } else {
      assert (a + rest)[1..] == a[1..] + rest;
      UnquotedSkipped(a[1..], rest);
    }
  }

  /** Only string tokens hold quotes, and only they can hold ESC `[`. */
  lemma UnquotedToken(s: Bytes, stack: seq<Container>, prev: Prev)
    requires s != [] && s[0] != '"'
    ensures var piece := NextToken(s, stack, prev).piece; '"' !in piece.text && (piece.Span? ==> Clean(piece.text))
  {
    hide StringEnd, NumberRun;
    var text := NextToken(s, stack, prev).piece.text;
    if !IsBracket(s[0]) && !IsSeparator(s[0]) && (s[0] == '-' || IsDigit(s[0])) {
      assert forall k :: 0 <= k < |text| ==> IsNumberByte(text[k]);
    }
  }

  lemma QuotedToken(s: Bytes, stack: seq<Container>, prev: Prev)
    requires s != [] && s[0] == '"'
    ensures var piece := NextToken(s, stack, prev).piece; piece.Span? && piece.text == s[..StringEnd(s, 1)]
  {
  }

  lemma AllCleanCons(piece: Piece, rest: seq<Piece>)
    ensures AllClean([piece] + rest) <==> (piece.Span? ==> Clean(piece.text)) && AllClean(rest)
  {
    var all := [piece] + rest;
    assert all[0] == piece && forall k :: 0 <= k < |rest| ==> all[k + 1] == rest[k];
  }

  lemma {:induction false} ScanQuotes(s: Bytes, stack: seq<Container>, prev: Prev)
    ensures AllClean(Scan(s, stack, prev)) <==> QuotesClean(s)
    decreases |s|
  {
    if s != [] {
      ScanUnfold(s, stack, prev);
      hide NextToken, Scan, AllClean, Clean;
      var t := NextToken(s, stack, prev);
      var n := |t.piece.text|;
      AllCleanCons(t.piece, Scan(s[n..], t.stack, t.prev));
      ScanQuotes(s[n..], t.stack, t.prev);
      if s[0] == '"' {
        QuotedToken(s, stack, prev);
      } else {
        UnquotedToken(s, stack, prev);
        UnquotedSkipped(s[..n], s[n..]);
        assert s == s[..n] + s[n..];
      }
    }
  }

  /** Strip identity of the pass, on every byte string and palette: it holds exactly when no quoted stretch of the input
      holds ESC `[`. */
  lemma RenderStripIdentity(p: Palette, item: Bytes)
    ensures Stripped(Coloured(p, item)) == item <==> QuotesClean(item)
  {
    ScanCovers(item, [], Other);
    StripEmit(p, Scan(item, [], Other));
    ScanQuotes(item, [], Other);
  }

  lemma {:induction false} EscFreeIsClean(pieces: seq<Piece>)
    requires ESC !in TextOf(pieces)
    ensures AllClean(pieces)
    ensures forall k :: 0 <= k < |pieces| ==> ESC !in pieces[k].text
  {
    if pieces != [] {
      assert forall b :: b in pieces[0].text || b in TextOf(pieces[1..]) ==> b in TextOf(pieces);
      EscFreeIsClean(pieces[1..]);
      assert forall k :: 0 < k < |pieces| ==> pieces[k] == pieces[1..][k - 1];
    }
  }

  /** The case the encoder guarantees: bytes without ESC always come back. */
  lemma RenderStripEscFree(p: Palette, item: Bytes)
    requires ESC !in item
    ensures Stripped(Coloured(p, item)) == item
  {
    ScanCovers(item, [], Other);
    EscFreeIsClean(Scan(item, [], Other));
    ScanQuotes(item, [], Other);
    RenderStripIdentity(p, item);
  }

  /** An input the identity fails on: a string token holding ESC `[`. */
  lemma RenderStripCounterexample(p: Palette)
    ensures Stripped(Coloured(p, ['"', ESC, '[', '"'])) != ['"', ESC, '[', '"']
  {
    var item: Bytes := ['"', ESC, '[', '"'];
    assert StringEnd(item, 1) == StringEnd(item, 2) == StringEnd(item, 3) == 4;
    assert item[..4] == item;
    assert !Clean(item) by { assert item[1] == ESC && item[1 + 1] == '['; }
    RenderStripIdentity(p, item);
  }
}
