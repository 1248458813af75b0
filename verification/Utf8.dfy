/** UTF-8 on byte strings: encoding one code point, well-formed sequences, and cutting them. */
module Utf8 {
  import opened Bytes

  /** The UTF-8 form of a code point, section 3 of RFC 3629; a lone surrogate becomes U+FFFD. */
  function Encode(c: nat): Bytes
    requires c < 0x11_0000
  {
    if c < 0x80 then [c as char]
    else if c < 0x800 then [(0xc0 + c / 64) as char, (0x80 + c % 64) as char]
    else if 0xd800 <= c < 0xe000 then ['\U{ef}', '\U{bf}', '\U{bd}']
    else if c < 0x1_0000 then [(0xe0 + c / 4096) as char, (0x80 + c / 64 % 64) as char, (0x80 + c % 64) as char]
    else [(0xf0 + c / 262144) as char, (0x80 + c / 4096 % 64) as char, (0x80 + c / 64 % 64) as char,
          (0x80 + c % 64) as char]
  }

  predicate Continues(b: Byte) { '\U{80}' <= b <= '\U{bf}' }

  /** The length of the well-formed UTF-8 sequence at the head, section 4 of RFC 3629; 0 when there is none. */
  function SequenceLength(s: Bytes): (n: nat)
    ensures n <= |s|
  {
    if s == [] then 0
    else if s[0] < '\U{80}' then 1
    else if '\U{c2}' <= s[0] <= '\U{df}' && |s| >= 2 && Continues(s[1]) then 2
    else if '\U{e0}' <= s[0] <= '\U{ef}' && |s| >= 3 && Continues(s[1]) && Continues(s[2]) &&
            (s[0] == '\U{e0}' ==> s[1] >= '\U{a0}') && (s[0] == '\U{ed}' ==> s[1] <= '\U{9f}') then 3
    else if '\U{f0}' <= s[0] <= '\U{f4}' && |s| >= 4 && Continues(s[1]) && Continues(s[2]) && Continues(s[3]) &&
            (s[0] == '\U{f0}' ==> s[1] >= '\U{90}') && (s[0] == '\U{f4}' ==> s[1] <= '\U{8f}') then 4
    else 0
  }

  predicate IsUtf8(s: Bytes)
    decreases |s|
  {
    s == [] || (SequenceLength(s) > 0 && IsUtf8(s[SequenceLength(s)..]))
  }

  /** Cutting valid UTF-8 at an ASCII byte leaves valid UTF-8 on both sides. */
  lemma {:induction false} Utf8Cut(s: Bytes, i: nat)
    requires IsUtf8(s) && i < |s| && s[i] < '\U{80}'
    ensures IsUtf8(s[..i]) && IsUtf8(s[i + 1..])
    decreases |s|
  {
    var n := SequenceLength(s);
    if i > 0 {
      assert i >= n;
      Utf8Cut(s[n..], i - n);
      assert s[n..][i - n + 1..] == s[i + 1..];
      assert SequenceLength(s[..i]) == n;
      assert s[..i][n..] == s[n..][..i - n];
    }
  }

  lemma {:induction false} SplitUtf8(s: Bytes)
    requires IsUtf8(s)
    ensures forall field :: field in Split(s, '\n') ==> IsUtf8(field)
    decreases |s|
  {
    var i := IndexOf(s, '\n');
    if i < |s| {
      Utf8Cut(s, i);
      SplitUtf8(s[i + 1..]);
    }
  }

  lemma {:induction false} AsciiIsUtf8(s: Bytes)
    requires forall k :: 0 <= k < |s| ==> s[k] < '\U{80}'
    ensures IsUtf8(s)
  {
    if s != [] {
      assert SequenceLength(s) == 1;
      AsciiIsUtf8(s[1..]);
    }
  }
}
