/** Byte strings, the growable output buffer, and splitting on a delimiter. */
module Bytes {

  /** One byte, written as the character of its code. No definition or proof uses an upper bound on it. */
  type Byte = char

  type Bytes = seq<Byte>

  datatype Option<+T> = None | Some(value: T)

  /** One past the largest 64-bit number. */
  const U64: nat := 0x1_0000_0000_0000_0000

  function Max(a: int, b: int): int { if a > b then a else b }

  function Min(a: int, b: int): int { if a < b then a else b }

  /** A caller-owned vector of bytes that writers append to. */
  class Buffer {
    var data: Bytes

    constructor ()
      ensures data == []
    {
      data := [];
    }

    method Push(b: Byte)
      modifies this
      ensures data == old(data) + [b]
    {
      data := data + [b];
    }

    method Extend(bytes: Bytes)
      modifies this
      ensures data == old(data) + bytes
    {
      data := data + bytes;
    }
  }

  predicate IsDigit(b: Byte) { '0' <= b <= '9' }

  predicate StartsWith(s: Bytes, prefix: Bytes)
  {
    |prefix| <= |s| && s[..|prefix|] == prefix
  }

  /** The index of the first `d` in `s`, or `|s|` when there is none. */
  function IndexOf(s: Bytes, d: Byte): (i: nat)
    ensures i <= |s| && d !in s[..i]
    ensures i < |s| ==> s[i] == d
  {
    if s == [] || s[0] == d then 0
    else
      var i := 1 + IndexOf(s[1..], d);
      assert s[..i] == [s[0]] + s[1..][..i - 1];
      i
  }

  /** The fields of `s` between occurrences of `d`; never empty. */
  function Split(s: Bytes, d: Byte): (fields: seq<Bytes>)
    ensures |fields| >= 1
    decreases |s|
  {
    var i := IndexOf(s, d);
    if i == |s| then [s] else [s[..i]] + Split(s[i + 1..], d)
  }

  /** The inverse of `Split`: the fields with `d` between each two neighbours. */
  function Join(fields: seq<Bytes>, d: Byte): Bytes
  {
    if fields == [] then []
    else if |fields| == 1 then fields[0]
    else fields[0] + [d] + Join(fields[1..], d)
  }

  /** A field followed by more fields. */
  lemma SplitStep(s: Bytes, d: Byte, i: nat)
    requires i < |s| && d !in s[..i] && s[i] == d
    ensures Split(s, d) == [s[..i]] + Split(s[i + 1..], d)
  {
    IndexOfUnique(s, d, i);
  }

  /** `IndexOf` is determined by its two properties. */
  lemma IndexOfUnique(s: Bytes, d: Byte, i: nat)
    requires i <= |s| && d !in s[..i]
    requires i < |s| ==> s[i] == d
    ensures IndexOf(s, d) == i
  {
    var j := IndexOf(s, d);
    assert forall k :: 0 <= k < i ==> s[k] in s[..i];
    assert forall k :: 0 <= k < j ==> s[k] in s[..j];
  }

  /** Splitting loses nothing, and no field contains the delimiter. */
  lemma {:induction false} JoinSplit(s: Bytes, d: Byte)
    ensures Join(Split(s, d), d) == s
    ensures forall field :: field in Split(s, d) ==> d !in field
    decreases |s|
  {
    var i := IndexOf(s, d);
    if i == |s| {
      assert s[..i] == s;
    } else {
      var rest := Split(s[i + 1..], d);
      JoinSplit(s[i + 1..], d);
      JoinCons(s[..i], rest, d);
      assert s == s[..i] + [d] + s[i + 1..];
    }
  }

  lemma JoinCons(field: Bytes, rest: seq<Bytes>, d: Byte)
    requires rest != []
    ensures Join([field] + rest, d) == field + [d] + Join(rest, d)
  {
    assert ([field] + rest)[1..] == rest;
  }

  /** Slicing an append at its seam. */
  lemma Seam(a: Bytes, b: Bytes)
    ensures (a + b)[..|a|] == a && (a + b)[|a|..] == b
  {
  }

  lemma Assoc(a: Bytes, b: Bytes, c: Bytes)
    ensures (a + b) + c == a + (b + c)
  {
  }

  // ----- The order of strings by their characters -----

  predicate Before(a: string, b: string)
  {
    b != [] && (a == [] || a[0] < b[0] || (a[0] == b[0] && Before(a[1..], b[1..])))
  }

  lemma {:induction false} BeforeStrict(a: string, b: string)
    ensures !(Before(a, b) && Before(b, a)) && !Before(a, a)
  {
    if a != [] {
      BeforeStrict(a[1..], if b == [] then [] else b[1..]);
    }
  }

  lemma {:induction false} BeforeTransitive(a: string, b: string, c: string)
    requires Before(a, b) && Before(b, c)
    ensures Before(a, c)
  {
    if a != [] && a[0] == b[0] == c[0] {
      BeforeTransitive(a[1..], b[1..], c[1..]);
    }
  }

  lemma {:induction false} BeforeTotal(a: string, b: string)
    ensures a == b || Before(a, b) || Before(b, a)
  {
    if a != [] && b != [] && a[0] == b[0] {
      BeforeTotal(a[1..], b[1..]);
      assert a == [a[0]] + a[1..] && b == [b[0]] + b[1..];
    }
  }

  lemma {:induction false} BeforeLonger(a: string, more: string)
    requires more != []
    ensures Before(a, a + more)
  {
    if a != [] {
      BeforeLonger(a[1..], more);
      assert (a + more)[1..] == a[1..] + more;
    }
  }

  // ----- Pieces written one after the other -----

  function Flatten(pieces: seq<Bytes>): Bytes
  {
    if pieces == [] then [] else pieces[0] + Flatten(pieces[1..])
  }

  lemma {:induction false} FlattenAppend(pieces: seq<Bytes>, piece: Bytes)
    ensures Flatten(pieces + [piece]) == Flatten(pieces) + piece
  {
    if pieces == [] {
      assert pieces + [piece] == [piece] && [piece][1..] == [];
    } else {
      assert (pieces + [piece])[1..] == pieces[1..] + [piece];
      FlattenAppend(pieces[1..], piece);
    }
  }

  /** A prefix of the pieces is never longer than all of them. */
  lemma {:induction false} FlattenGrows(pieces: seq<Bytes>, n: nat)
    requires n <= |pieces|
    ensures |Flatten(pieces[..n])| <= |Flatten(pieces)|
    decreases |pieces| - n
  {
    if n == |pieces| {
      assert pieces[..n] == pieces;
    } else {
      assert pieces[..n + 1] == pieces[..n] + [pieces[n]];
      FlattenAppend(pieces[..n], pieces[n]);
      FlattenGrows(pieces, n + 1);
    }
  }
}
