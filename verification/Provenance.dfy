/** Several input files in one buffer: which bytes came from which file, and the line a value is reported on. */
module Provenance {
  import opened Bytes

  // ----- Reading the files -----

  /** One answer of a read call. An empty chunk is the end of the file, and so is the end of the script. */
  datatype Read = Chunk(bytes: Bytes) | Interrupted | Broken

  datatype File = Unopenable | Opened(script: seq<Read>)

  /** The bytes a file delivers before its end or its first failure. */
  function Delivered(script: seq<Read>): Bytes
  {
    if script == [] || script[0].Broken? || script[0] == Chunk([]) then []
    else if script[0].Interrupted? then Delivered(script[1..])
    else script[0].bytes + Delivered(script[1..])
  }

  predicate Breaks(script: seq<Read>)
  {
    script != [] && script[0] != Chunk([]) && (script[0].Broken? || Breaks(script[1..]))
  }

  function BytesRead(file: File): Bytes { if file.Opened? then Delivered(file.script) else [] }

  /** The chunks of a script, in order. */
  function Chunks(script: seq<Read>): seq<Bytes>
  {
    if script == [] then []
    else (match script[0] case Chunk(bytes) => [bytes] case _ => []) + Chunks(script[1..])
  }

  /** Reads that go on: chunks that are not empty, and interruptions. */
  predicate GoesOn(script: seq<Read>)
  {
    forall k :: 0 <= k < |script| ==> script[k].Interrupted? || (script[k].Chunk? && script[k].bytes != [])
  }

  /** All chunks up to an end, a failure or the last answer are delivered, across interruptions, and nothing behind. */
  lemma {:induction false} DeliversAll(script: seq<Read>, more: seq<Read>)
    requires GoesOn(script)
    ensures Delivered(script) == Flatten(Chunks(script)) && !Breaks(script)
    ensures Delivered(script + [Chunk([])] + more) == Flatten(Chunks(script)) && !Breaks(script + [Chunk([])] + more)
    ensures Delivered(script + [Broken] + more) == Flatten(Chunks(script)) && Breaks(script + [Broken] + more)
  {
    var ended, broken := script + [Chunk([])] + more, script + [Broken] + more;
    if script == [] {
      assert ended[0] == Chunk([]) && broken[0] == Broken;
    } else {
      var rest := script[1..];
      DeliversAll(rest, more);
      assert ended[0] == script[0] && ended[1..] == rest + [Chunk([])] + more;
      assert broken[0] == script[0] && broken[1..] == rest + [Broken] + more;
      if script[0].Chunk? {
        FlattenFirst(script[0].bytes, Chunks(rest));
      } else {
        assert [] + Chunks(rest) == Chunks(rest);
      }
    }
  }

  lemma FlattenFirst(first: Bytes, rest: seq<Bytes>)
    ensures Flatten([first] + rest) == first + Flatten(rest)
  {
    assert ([first] + rest)[1..] == rest;
  }

  /** The process-wide flag that turns the exit code to 2. */
  class Process {
    var missing: bool
  }

  method AppendInputFile(bytes: Buffer, file: File) returns (ok: bool)
    modifies bytes
    ensures bytes.data == old(bytes.data) + BytesRead(file)
    ensures ok <==> file.Opened? && !Breaks(file.script)
  {
    if file.Unopenable? {
      return false;
    }
    var next := 0;
    while next < |file.script|
      invariant next <= |file.script|
      invariant bytes.data + Delivered(file.script[next..]) == old(bytes.data) + Delivered(file.script)
      invariant Breaks(file.script[next..]) <==> Breaks(file.script)
      decreases |file.script| - next
    {
      assert file.script[next..][1..] == file.script[next + 1..];
      match file.script[next] {
        case Interrupted =>
        case Broken =>
          return false;
        case Chunk(read) =>
          if read == [] {
            return true;
          }
          bytes.Extend(read);
      }
      next := next + 1;
    }
    return true;
  }

  // ----- Ranges -----

  datatype Range = Range(name: string, start: nat, end: nat)

  /** The ranges follow each other from 0 to the end of the buffer. */
  predicate Contiguous(ranges: seq<Range>, size: nat)
  {
    (forall k :: 0 <= k < |ranges| ==> ranges[k].start <= ranges[k].end) &&
    (forall k :: 0 <= k < |ranges| - 1 ==> ranges[k].end == ranges[k + 1].start) &&
    (if ranges == [] then size == 0 else ranges[0].start == 0 && ranges[|ranges| - 1].end == size)
  }

  /** The first files' ranges carry their labels and cut out exactly the bytes read from them. */
  ghost predicate Attributed(files: seq<File>, labels: seq<string>, bytes: Bytes, ranges: seq<Range>)
    requires |ranges| <= |files| == |labels|
  {
    Contiguous(ranges, |bytes|) &&
    forall k :: 0 <= k < |ranges| ==>
      ranges[k].name == labels[k] && ranges[k].start <= ranges[k].end <= |bytes| &&
      bytes[ranges[k].start..ranges[k].end] == BytesRead(files[k])
  }

  lemma AttributedStep(files: seq<File>, labels: seq<string>, was: Bytes, ranges: seq<Range>)
    requires |ranges| < |files| == |labels| && Attributed(files, labels, was, ranges)
    ensures var k, bytes := |ranges|, was + BytesRead(files[|ranges|]);
            Attributed(files, labels, bytes, ranges + [Range(labels[k], |was|, |bytes|)])
  {
    hide BytesRead, Contiguous;
    var n, more := |ranges|, BytesRead(files[|ranges|]);
    var bytes := was + more;
    var all := ranges + [Range(labels[n], |was|, |bytes|)];
    forall k | 0 <= k < |all|
      ensures all[k].name == labels[k] && all[k].start <= all[k].end <= |bytes|
      ensures bytes[all[k].start..all[k].end] == BytesRead(files[k])
    {
      if k < n {
        SliceKept(was, more, ranges[k].start, ranges[k].end);
      } else {
        Seam(was, more);
        assert bytes[|was|..|bytes|] == bytes[|was|..];
      }
    }
    ContiguousAppend(ranges, |was|, labels[n], |bytes|);
  }

  lemma SliceKept(was: Bytes, more: Bytes, i: nat, k: nat)
    requires i <= k <= |was|
    ensures (was + more)[i..k] == was[i..k]
  {
  }

  lemma ContiguousAppend(ranges: seq<Range>, size: nat, name: string, end: nat)
    requires Contiguous(ranges, size) && size <= end
    ensures Contiguous(ranges + [Range(name, size, end)], end)
  {
  }

  /** Every file in argument order, one range each; a failing file is recorded and skipped. */
  method ReadCombinedInput(process: Process, files: seq<File>, labels: seq<string>)
    returns (bytes: Bytes, ranges: seq<Range>)
    requires |labels| == |files|
    modifies process
    ensures |ranges| == |files| && Attributed(files, labels, bytes, ranges)
    ensures process.missing <==>
            old(process.missing) ||
            exists k :: 0 <= k < |files| && (files[k].Unopenable? || Breaks(files[k].script))
  {
    hide Attributed, BytesRead, Breaks;
    var buffer := new Buffer();
    ranges := [];
    NothingAttributed(files, labels);
    for k := 0 to |files|
      invariant |ranges| == k && Attributed(files, labels, buffer.data, ranges)
      invariant process.missing <==>
                old(process.missing) || exists j :: 0 <= j < k && (files[j].Unopenable? || Breaks(files[j].script))
    {
      var start := |buffer.data|;
      AttributedStep(files, labels, buffer.data, ranges);
      var ok := AppendInputFile(buffer, files[k]);
      if !ok {
        process.missing := true;
      }
      ranges := ranges + [Range(labels[k], start, |buffer.data|)];
    }
    bytes := buffer.data;
  }

  lemma NothingAttributed(files: seq<File>, labels: seq<string>)
    requires |files| == |labels|
    ensures Attributed(files, labels, [], [])
  {
  }

  predicate Holds(r: Range, offset: nat) { r.start <= offset < r.end }

  lemma {:induction false} RangesOrdered(ranges: seq<Range>, size: nat, i: nat, k: nat)
    requires Contiguous(ranges, size) && i < k < |ranges|
    ensures ranges[i].end <= ranges[k].start
    decreases k
  {
    if i < k - 1 {
      RangesOrdered(ranges, size, i, k - 1);
    }
  }

  /** Every byte of the buffer lies in exactly one file's range. */
  lemma {:induction false} ExactlyOneFile(ranges: seq<Range>, size: nat, offset: nat) returns (f: nat)
    requires Contiguous(ranges, size) && offset < size
    ensures f < |ranges| && Holds(ranges[f], offset)
    ensures forall k :: 0 <= k < |ranges| && Holds(ranges[k], offset) ==> k == f
  {
    f := |ranges| - 1;
    while offset < ranges[f].start
      invariant f < |ranges| && offset < ranges[f].end
      decreases f
    {
      f := f - 1;
    }
    forall k | 0 <= k < |ranges| && Holds(ranges[k], offset)
      ensures k == f
    {
      if k < f {
        RangesOrdered(ranges, size, k, f);
      } else if f < k {
        RangesOrdered(ranges, size, f, k);
      }
    }
  }

  // ----- The line a value is reported on -----

  function Newlines(s: Bytes): nat
  {
    if s == [] then 0 else (if s[0] == '\n' then 1 else 0) + Newlines(s[1..])
  }

  lemma {:induction false} NewlinesJoin(a: Bytes, b: Bytes)
    ensures Newlines(a + b) == Newlines(a) + Newlines(b)
  {
    if a == [] {
      assert a + b == b;
    } else {
      assert (a + b)[1..] == a[1..] + b;
      NewlinesJoin(a[1..], b);
    }
  }

  lemma NewlinesMore(bytes: Bytes, start: nat, scanned: nat, stop: nat)
    requires start <= scanned <= stop <= |bytes|
    ensures Newlines(bytes[start..stop]) ==
            Newlines(bytes[start..scanned]) + if stop > scanned then Newlines(bytes[scanned..stop]) else 0
  {
    NewlinesJoin(bytes[start..scanned], bytes[scanned..stop]);
    assert bytes[start..scanned] + bytes[scanned..stop] == bytes[start..stop];
  }

  lemma NoNewlines(bytes: Bytes, start: nat)
    requires start <= |bytes|
    ensures Newlines(bytes[start..start]) == 0
  {
  }

  predicate IsSpace(b: Byte) { b == ' ' || b == '\t' || b == '\n' || b == '\U{0c}' || b == '\r' }

  /** The end without the white space before it. */
  function Cut(bytes: Bytes, end: nat): (r: nat)
    requires end <= |bytes|
    ensures r <= end && (r > 0 ==> !IsSpace(bytes[r - 1])) && forall k :: r <= k < end ==> IsSpace(bytes[k])
  {
    if end > 0 && IsSpace(bytes[end - 1]) then Cut(bytes, end - 1) else end
  }

  /** The offset of a value's last byte. */
  function LastByte(bytes: Bytes, end: nat): nat
    requires end <= |bytes|
  {
    var cut := Cut(bytes, end);
    if cut > 0 then cut - 1 else 0
  }

  /** The first file from `f` on that ends behind the offset, or the last file. */
  function FileFrom(ranges: seq<Range>, f: nat, last: nat): (r: nat)
    requires f < |ranges|
    ensures f <= r < |ranges|
    ensures forall k :: f <= k < r ==> ranges[k].end <= last
    ensures r < |ranges| - 1 ==> last < ranges[r].end
    decreases |ranges| - f
  {
    if f + 1 < |ranges| && last >= ranges[f].end then FileFrom(ranges, f + 1, last) else f
  }

  /** The end of the line that holds the value's last byte, newline included, or the file's end. */
  function LineStop(bytes: Bytes, cut: nat, fileEnd: nat): (r: nat)
    requires cut <= fileEnd <= |bytes|
    ensures cut <= r <= fileEnd
  {
    var at := IndexOf(bytes[cut..fileEnd], '\n');
    if at < fileEnd - cut then cut + at + 1 else fileEnd
  }

  /** The newlines the file's reader has consumed when the value is complete. */
  function LineAt(bytes: Bytes, ranges: seq<Range>, end: nat): nat
    requires end <= |bytes| && ranges != [] && Contiguous(ranges, |bytes|)
  {
    var f := FileFrom(ranges, 0, LastByte(bytes, end));
    InsideFile(bytes, ranges, end);
    Newlines(bytes[ranges[f].start..LineStop(bytes, Cut(bytes, end), ranges[f].end)])
  }

  /** The value's file is the one that holds its last byte. */
  lemma InsideFile(bytes: Bytes, ranges: seq<Range>, end: nat)
    requires end <= |bytes| && ranges != [] && Contiguous(ranges, |bytes|)
    ensures var f, cut := FileFrom(ranges, 0, LastByte(bytes, end)), Cut(bytes, end);
            ranges[f].start <= cut <= ranges[f].end <= |bytes| && (cut > 0 ==> Holds(ranges[f], cut - 1))
  {
    var f, cut := FileFrom(ranges, 0, LastByte(bytes, end)), Cut(bytes, end);
    if f < |ranges| - 1 {
      RangesOrdered(ranges, |bytes|, f, |ranges| - 1);
    }
    if f > 0 {
      assert ranges[f - 1].end <= LastByte(bytes, end);
    }
    if cut == 0 {
      FirstNonEmpty(ranges, |bytes|, f);
    }
  }

  lemma FirstNonEmpty(ranges: seq<Range>, size: nat, f: nat)
    requires f < |ranges| && Contiguous(ranges, size)
    requires forall k :: 0 <= k < f ==> ranges[k].end == 0
    ensures ranges[f].start == 0
  {
    if f > 0 {
      assert ranges[f - 1].end == 0;
    }
  }

  lemma CutMonotone(bytes: Bytes, a: nat, b: nat)
    requires a <= b <= |bytes|
    ensures Cut(bytes, a) <= Cut(bytes, b) && LastByte(bytes, a) <= LastByte(bytes, b)
  {
    var c, d := Cut(bytes, a), Cut(bytes, b);
    assert c > 0 ==> !IsSpace(bytes[c - 1]);
  }

  lemma {:induction false} FileFromLater(ranges: seq<Range>, f: nat, a: nat, b: nat)
    requires f < |ranges| && a <= b
    ensures FileFrom(ranges, f, b) == FileFrom(ranges, FileFrom(ranges, f, a), b)
    decreases |ranges| - f
  {
    if f + 1 < |ranges| && a >= ranges[f].end {
      FileFromLater(ranges, f + 1, a, b);
    }
  }

  lemma StopMonotone(bytes: Bytes, a: nat, b: nat, fileEnd: nat)
    requires a <= b <= fileEnd <= |bytes|
    ensures LineStop(bytes, a, fileEnd) <= LineStop(bytes, b, fileEnd)
  {
    var i, k := IndexOf(bytes[a..fileEnd], '\n'), IndexOf(bytes[b..fileEnd], '\n');
    forall y | a <= y < a + i
      ensures bytes[y] != '\n'
    {
      assert bytes[y] == bytes[a..fileEnd][y - a] && bytes[a..fileEnd][y - a] in bytes[a..fileEnd][..i];
    }
    assert k < fileEnd - b ==> bytes[b + k] == '\n';
  }

  // ----- The number of that line -----

  /** Where the newlines are. */
  function NewlinesAt(bytes: Bytes, from: nat, stop: nat): set<nat>
    requires stop <= |bytes|
  {
    set k: nat | from <= k < stop && bytes[k] == '\n'
  }

  lemma {:induction false} NewlinesCounted(bytes: Bytes, from: nat, stop: nat)
    requires from <= stop <= |bytes|
    ensures Newlines(bytes[from..stop]) == |NewlinesAt(bytes, from, stop)|
    decreases stop
  {
    if from == stop {
      assert NewlinesAt(bytes, from, stop) == {};
    } else {
      NewlinesCounted(bytes, from, stop - 1);
      NewlinesJoin(bytes[from..stop - 1], [bytes[stop - 1]]);
      assert bytes[from..stop] == bytes[from..stop - 1] + [bytes[stop - 1]];
      assert Newlines([bytes[stop - 1]]) == if bytes[stop - 1] == '\n' then 1 else 0;
      if bytes[stop - 1] == '\n' {
        assert NewlinesAt(bytes, from, stop) == NewlinesAt(bytes, from, stop - 1) + {stop - 1};
      } else {
        assert NewlinesAt(bytes, from, stop) == NewlinesAt(bytes, from, stop - 1);
      }
    }
  }

  /** For a value whose last byte is at `v`, with nothing but white space up to `end`, in file `f`: the reported line is
      the number of newlines of the file before that byte, and one more exactly when a newline follows it in the same
      file. */
  lemma LineNumber(bytes: Bytes, ranges: seq<Range>, end: nat, v: nat, f: nat)
    requires v < end <= |bytes| && ranges != [] && Contiguous(ranges, |bytes|)
    requires bytes[v] !in [' ', '\t', '\n', '\U{0c}', '\r']
    requires forall k :: v < k < end ==> bytes[k] in [' ', '\t', '\n', '\U{0c}', '\r']
    requires f < |ranges| && ranges[f].start <= v < ranges[f].end
    ensures ranges[f].end <= |bytes|
    ensures LineAt(bytes, ranges, end) ==
            |NewlinesAt(bytes, ranges[f].start, v)| +
            if exists k :: v < k < ranges[f].end && bytes[k] == '\n' then 1 else 0
  {
    hide Contiguous, Newlines, Cut, LineStop, FileFrom, NewlinesAt, LastByte, Holds;
    LineAtIs(bytes, ranges, end, v, f);
    CountIs(bytes, ranges[f].start, v, ranges[f].end);
  }

  lemma LineAtIs(bytes: Bytes, ranges: seq<Range>, end: nat, v: nat, f: nat)
    requires v < end <= |bytes| && ranges != [] && Contiguous(ranges, |bytes|)
    requires bytes[v] !in [' ', '\t', '\n', '\U{0c}', '\r']
    requires forall k :: v < k < end ==> bytes[k] in [' ', '\t', '\n', '\U{0c}', '\r']
    requires f < |ranges| && ranges[f].start <= v < ranges[f].end
    ensures ranges[f].end <= |bytes|
    ensures LineAt(bytes, ranges, end) ==
            Newlines(bytes[ranges[f].start..LineStop(bytes, v + 1, ranges[f].end)])
  {
    hide Contiguous, Newlines, Cut, LineStop, FileFrom, LastByte;
    CutAt(bytes, end, v);
    InsideFile(bytes, ranges, end);
    OneHolder(ranges, |bytes|, v, f, FileFrom(ranges, 0, LastByte(bytes, end)));
  }

  lemma CountIs(bytes: Bytes, start: nat, v: nat, fileEnd: nat)
    requires start <= v < fileEnd <= |bytes| && bytes[v] != '\n'
    ensures Newlines(bytes[start..LineStop(bytes, v + 1, fileEnd)]) ==
            |NewlinesAt(bytes, start, v)| + if exists k :: v < k < fileEnd && bytes[k] == '\n' then 1 else 0
  {
    hide Newlines, LineStop;
    var stop := LineStop(bytes, v + 1, fileEnd);
    StopIs(bytes, v, fileEnd);
    NewlinesCounted(bytes, start, stop);
    var before := NewlinesAt(bytes, start, v);
    if exists k :: v < k < fileEnd && bytes[k] == '\n' {
      assert NewlinesAt(bytes, start, stop) == before + {stop - 1};
    } else {
      assert NewlinesAt(bytes, start, stop) == before;
    }
  }

  lemma CutAt(bytes: Bytes, end: nat, v: nat)
    requires v < end <= |bytes| && bytes[v] !in [' ', '\t', '\n', '\U{0c}', '\r']
    requires forall k :: v < k < end ==> bytes[k] in [' ', '\t', '\n', '\U{0c}', '\r']
    ensures Cut(bytes, end) == v + 1 && LastByte(bytes, end) == v
  {
    var cut := Cut(bytes, end);
    assert forall k :: v < k < end ==> IsSpace(bytes[k]);
    assert !IsSpace(bytes[v]);
  }

  lemma OneHolder(ranges: seq<Range>, size: nat, offset: nat, f: nat, g: nat)
    requires Contiguous(ranges, size) && f < |ranges| && g < |ranges|
    requires Holds(ranges[f], offset) && Holds(ranges[g], offset)
    ensures f == g
  {
    if f < g {
      RangesOrdered(ranges, size, f, g);
    } else if g < f {
      RangesOrdered(ranges, size, g, f);
    }
  }

  /** The stop is just behind the first newline after the value, if the file has one. */
  lemma StopIs(bytes: Bytes, v: nat, fileEnd: nat)
    requires v < fileEnd <= |bytes| && bytes[v] != '\n'
    ensures var stop := LineStop(bytes, v + 1, fileEnd);
            if exists k :: v < k < fileEnd && bytes[k] == '\n'
            then v + 1 < stop && bytes[stop - 1] == '\n' && forall k :: v <= k < stop - 1 ==> bytes[k] != '\n'
            else forall k :: v <= k < stop ==> bytes[k] != '\n'
  {
    var tail := bytes[v + 1..fileEnd];
    var at := IndexOf(tail, '\n');
    forall k | v < k < v + 1 + at
      ensures bytes[k] != '\n'
    {
      assert tail[k - v - 1] == bytes[k] && tail[k - v - 1] in tail[..at];
    }
    assert at < |tail| ==> bytes[v + 1 + at] == '\n';
  }

  /** A file of lines, each with its newline. */
  function LinesText(lines: seq<Bytes>): Bytes
  {
    if lines == [] then [] else LinesText(lines[..|lines| - 1]) + lines[|lines| - 1] + ['\n']
  }

  /** In a file of one-line values the value of line `k + 1` is reported there. */
  lemma OneValueALine(lines: seq<Bytes>, k: nat)
    requires k < |lines|
    requires forall i :: 0 <= i < |lines| ==> lines[i] != [] && '\n' !in lines[i]
    requires lines[k][|lines[k]| - 1] !in [' ', '\t', '\U{0c}', '\r']
    ensures var bytes, end := LinesText(lines), |LinesText(lines[..k])| + |lines[k]|;
            end <= |bytes| && LineAt(bytes, [Range("", 0, |bytes|)], end) == k + 1
  {
    hide LinesText, LineAt, Newlines, NewlinesAt;
    var bytes, before, line := LinesText(lines), LinesText(lines[..k]), lines[k];
    LineThrough(lines, k);
    LinesNewlines(lines[..k]);
    LastLine(bytes, before, line);
  }

  lemma LineThrough(lines: seq<Bytes>, k: nat)
    requires k < |lines|
    ensures LinesText(lines[..k]) + lines[k] + ['\n'] <= LinesText(lines)
  {
    TextPrefix(lines, k + 1);
    assert lines[..k + 1][..k] == lines[..k] && lines[..k + 1][k] == lines[k];
  }

  /** A value that is the line behind `before`. */
  lemma LastLine(bytes: Bytes, before: Bytes, line: Bytes)
    requires before + line + ['\n'] <= bytes && line != [] && '\n' !in line
    requires line[|line| - 1] !in [' ', '\t', '\U{0c}', '\r']
    ensures LineAt(bytes, [Range("", 0, |bytes|)], |before| + |line|) == Newlines(before) + 1
  {
    hide LineAt, Newlines, NewlinesAt;
    var head, v := line[..|line| - 1], |before| + |line| - 1;
    var through := before + line + ['\n'];
    assert bytes[v] == through[v] == line[|line| - 1] && bytes[v + 1] == through[v + 1] == '\n';
    assert line[|line| - 1] in line;
    LineNumber(bytes, [Range("", 0, |bytes|)], v + 1, v, 0);
    NewlinesCounted(bytes, 0, v);
    assert bytes[0..v] == before + head by {
      assert bytes[0..v] == through[0..v];
    }
    NewlinesJoin(before, head);
    NoNewlineIn(head);
  }

  lemma {:induction false} TextPrefix(lines: seq<Bytes>, n: nat)
    requires n <= |lines|
    ensures LinesText(lines[..n]) <= LinesText(lines)
    decreases |lines|
  {
    if n < |lines| {
      var init := lines[..|lines| - 1];
      TextPrefix(init, n);
      assert init[..n] == lines[..n];
    } else {
      assert lines[..n] == lines;
    }
  }

  lemma {:induction false} LinesNewlines(lines: seq<Bytes>)
    requires forall i :: 0 <= i < |lines| ==> '\n' !in lines[i]
    ensures Newlines(LinesText(lines)) == |lines|
  {
    if lines != [] {
      var n := |lines| - 1;
      LinesNewlines(lines[..n]);
      NoNewlineIn(lines[n]);
      NewlinesJoin(LinesText(lines[..n]), lines[n]);
      NewlinesJoin(LinesText(lines[..n]) + lines[n], ['\n']);
      assert Newlines(['\n']) == 1;
    }
  }

  lemma {:induction false} NoNewlineIn(s: Bytes)
    requires '\n' !in s
    ensures Newlines(s) == 0
  {
    if s != [] {
      NoNewlineIn(s[1..]);
    }
  }

  /** The counter: it never looks at a byte twice. */
  class InputLines {
    const files: Option<seq<Range>>
    var counted: nat
    var scanned: nat
    var file: nat
    /** The end the last call was given. */
    ghost var past: nat
    ghost var started: bool

    /** Without file ranges the whole buffer is one file. */
    ghost function Ranges(bytes: Bytes): seq<Range>
    {
      if files.Some? then files.value else [Range("<stdin>", 0, |bytes|)]
    }

    ghost predicate Valid(bytes: Bytes)
      reads this
    {
      var ranges := Ranges(bytes);
      ranges != [] && Contiguous(ranges, |bytes|) && past <= |bytes| && file < |ranges| &&
      (started ==>
         file == FileFrom(ranges, 0, LastByte(bytes, past)) &&
         Cut(bytes, past) <= ranges[file].end <= |bytes| &&
         scanned == LineStop(bytes, Cut(bytes, past), ranges[file].end)) &&
      (!started ==> file == 0 && scanned == 0 && past == 0) &&
      ranges[file].start <= scanned <= |bytes| && counted == Newlines(bytes[ranges[file].start..scanned])
    }

    constructor (files: Option<seq<Range>>, ghost bytes: Bytes)
      requires files.Some? ==> files.value != [] && Contiguous(files.value, |bytes|)
      ensures Valid(bytes) && past == 0 && this.files == files
    {
      this.files := files;
      counted, scanned, file := 0, 0, 0;
      past, started := 0, false;
    }

    /** Calls come with non-decreasing ends. The answer is as if the value's whole file were counted afresh. */
    method AtValueEnd(bytes: Bytes, end: nat) returns (line: nat)
      requires Valid(bytes) && past <= end <= |bytes|
      modifies this
      ensures Valid(bytes) && past == end && line == LineAt(bytes, Ranges(bytes), end)
      ensures file == FileFrom(Ranges(bytes), 0, LastByte(bytes, end))
    {
      hide Cut, FileFrom, LineStop, Newlines, Contiguous, LastByte;
      ghost var ranges := Ranges(bytes);
      var cut := TrimEnd(bytes, end);
      LastByteIs(bytes, end);
      var last := if cut > 0 then cut - 1 else 0;
      ghost var first := file;
      CutMonotone(bytes, past, end);
      FileFromLater(ranges, 0, LastByte(bytes, past), last);
      Advance(last, bytes);
      assert file == FileFrom(ranges, 0, last);
      InsideFile(bytes, ranges, end);
      var fileEnd := if files.Some? then files.value[file].end else |bytes|;
      var stop := LineStop(bytes, cut, fileEnd);
      if started && file == first {
        StopMonotone(bytes, Cut(bytes, past), cut, fileEnd);
      }
      NoNewlines(bytes, ranges[file].start);
      CountTo(bytes, stop, ranges[file].start);
      past, started := end, true;
      return counted;
    }

    /** The newlines up to `stop` that were not counted before. */
    method CountTo(bytes: Bytes, stop: nat, ghost start: nat)
      requires start <= scanned <= stop <= |bytes| && counted == Newlines(bytes[start..scanned])
      modifies this`counted, this`scanned
      ensures scanned == stop && counted == Newlines(bytes[start..stop])
    {
      hide Newlines;
      NewlinesMore(bytes, start, scanned, stop);
      if stop > scanned {
        counted := counted + Newlines(bytes[scanned..stop]);
        scanned := stop;
      }
    }

    /** On to the file that holds the offset; a new file is counted from its start. */
    method Advance(last: nat, ghost bytes: Bytes)
      requires Valid(bytes)
      modifies this`file, this`counted, this`scanned
      ensures file == FileFrom(Ranges(bytes), old(file), last)
      ensures file == old(file) ==> scanned == old(scanned) && counted == old(counted)
      ensures file != old(file) ==> scanned == Ranges(bytes)[file].start && counted == 0
    {
      hide Cut, LineStop, Newlines, Contiguous, LastByte;
      if files.Some? {
        while file + 1 < |files.value| && last >= files.value[file].end
          invariant old(file) <= file < |files.value|
          invariant FileFrom(files.value, file, last) == FileFrom(files.value, old(file), last)
          invariant file == old(file) ==> scanned == old(scanned) && counted == old(counted)
          invariant file != old(file) ==> scanned == files.value[file].start && counted == 0
          decreases |files.value| - file
        {
          file := file + 1;
          counted := 0;
          scanned := files.value[file].start;
        }
      }
    }
  }

  method TrimEnd(bytes: Bytes, end: nat) returns (cut: nat)
    requires end <= |bytes|
    ensures cut == Cut(bytes, end)
  {
    cut := end;
    while cut > 0 && IsSpace(bytes[cut - 1])
      invariant cut <= end && Cut(bytes, cut) == Cut(bytes, end)
    {
      cut := cut - 1;
    }
  }

  lemma LastByteIs(bytes: Bytes, end: nat)
    requires end <= |bytes|
    ensures var cut := Cut(bytes, end); LastByte(bytes, end) == if cut > 0 then cut - 1 else 0
  {
  }
}
