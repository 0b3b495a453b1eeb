/** The framer the reader loop evidently intends: after every read, all the
    complete records in the pending bytes plus the new chunk are split off,
    so that the records do not depend on how the stream was cut into
    chunks. Used as the reference the as-written framer is compared with. */
module Reassembly {
  import opened Framing

  /** Every complete record in `buf`, in order, and the unterminated rest. */
  function SplitAll(buf: Bytes, d: Bytes): Framed
    requires |d| > 0
    decreases |buf|
  {
    var i := Find(buf, d);
    if i == -1 then Framed([], buf)
    else
      var tail := SplitAll(buf[i + |d|..], d);
      Framed([buf[..i]] + tail.records, tail.pending)
  }

  /** The corrected reader loop: each chunk is appended to the pending
      bytes, which are then split completely. */
  function FrameAll(pending: Bytes, chunks: seq<Bytes>, d: Bytes): Framed
    requires |d| > 0
    decreases |chunks|
  {
    if chunks == [] then Framed([], pending)
    else
      var prev := FrameAll(pending, chunks[..|chunks| - 1], d);
      var s := SplitAll(prev.pending + chunks[|chunks| - 1], d);
      Framed(prev.records + s.records, s.pending)
  }

  ghost predicate Free(s: Bytes, d: Bytes)
  {
    forall i :: !OccursAt(s, d, i)
  }

  lemma TerminatedCons(r: Bytes, records: seq<Bytes>, d: Bytes)
    ensures Terminated([r] + records, d) == r + d + Terminated(records, d)
    decreases |records|
  {
    if records != [] {
      var init := records[..|records| - 1];
      var last := records[|records| - 1];
      assert ([r] + records)[..|records|] == [r] + init;
      TerminatedCons(r, init, d);
    }
  }

  /** The first occurrence in a prefix is the first occurrence in the whole. */
  lemma FindInPrefix(x: Bytes, y: Bytes, d: Bytes)
    requires Find(x, d) != -1
    ensures Find(x + y, d) == Find(x, d)
  {
    var i := Find(x, d);
    FindIsFirst(x, d);
    FindIsFirst(x + y, d);
    assert x[i..i + |d|] == (x + y)[i..i + |d|];
    assert OccursAt(x + y, d, i);
    var j := Find(x + y, d);
    if j != -1 && j < i {
      assert (x + y)[j..j + |d|] == x[j..j + |d|];
      assert OccursAt(x, d, j);
    }
  }

  /** The bytes before the first delimiter hold no delimiter. */
  lemma BeforeFirstIsFree(buf: Bytes, d: Bytes)
    requires |d| > 0
    requires Find(buf, d) != -1
    ensures Free(buf[..Find(buf, d)], d)
  {
    var i := Find(buf, d);
    FindIsFirst(buf, d);
    forall j ensures !OccursAt(buf[..i], d, j) {
      if OccursAt(buf[..i], d, j) {
        assert j < i;
        assert buf[..i][j..j + |d|] == buf[j..j + |d|];
        assert OccursAt(buf, d, j);
      }
    }
  }

  /** The corrected framer loses and invents nothing: the records, each
      followed by the delimiter, and then the rest spell the buffer. */
  lemma {:induction false} SplitAllConserves(buf: Bytes, d: Bytes)
    requires |d| > 0
    ensures Terminated(SplitAll(buf, d).records, d) + SplitAll(buf, d).pending == buf
    decreases |buf|
  {
    var i := Find(buf, d);
    if i != -1 {
      var rest := buf[i + |d|..];
      var tail := SplitAll(rest, d);
      SplitAllConserves(rest, d);
      TerminatedCons(buf[..i], tail.records, d);
      FindIsFirst(buf, d);
      AroundDelimiter(buf, d, i);
      assert SplitAll(buf, d).records == [buf[..i]] + tail.records;
      calc {
        Terminated([buf[..i]] + tail.records, d) + tail.pending;
        buf[..i] + d + Terminated(tail.records, d) + tail.pending;
        { Assoc(buf[..i] + d, Terminated(tail.records, d), tail.pending); }
        buf[..i] + d + rest;
      }
    }
  }

  /** Every record of the corrected framer, and its rest, is free of the
      delimiter. */
  lemma {:induction false} SplitAllFree(buf: Bytes, d: Bytes)
    requires |d| > 0
    ensures forall k :: 0 <= k < |SplitAll(buf, d).records| ==> Free(SplitAll(buf, d).records[k], d)
    ensures Free(SplitAll(buf, d).pending, d)
    decreases |buf|
  {
    var i := Find(buf, d);
    FindIsFirst(buf, d);
    if i != -1 {
      var tail := SplitAll(buf[i + |d|..], d);
      SplitAllFree(buf[i + |d|..], d);
      BeforeFirstIsFree(buf, d);
      var rs := SplitAll(buf, d).records;
      assert rs == [buf[..i]] + tail.records;
      forall k | 0 <= k < |rs| ensures Free(rs[k], d) {
        if k > 0 {
          assert rs[k] == tail.records[k - 1];
        }
      }
    }
  }

  lemma AppendSlices(x: Bytes, y: Bytes, i: nat, j: nat)
    requires i <= j <= |x|
    ensures (x + y)[..i] == x[..i] && (x + y)[j..] == x[j..] + y
  {
  }

  /** `SplitAll` on a buffer whose first delimiter is at `i`, taken apart. */
  lemma SplitAllAt(buf: Bytes, d: Bytes, i: int)
    requires |d| > 0 && Find(buf, d) == i && i != -1
    ensures SplitAll(buf, d).records == [buf[..i]] + SplitAll(buf[i + |d|..], d).records
    ensures SplitAll(buf, d).pending == SplitAll(buf[i + |d|..], d).pending
  {
  }

  /** `SplitAll` of a buffer with a delimiter in its prefix `x`: the first
      record comes from `x` alone. */
  lemma SplitAllFoundInPrefix(x: Bytes, y: Bytes, d: Bytes)
    requires |d| > 0 && Find(x, d) != -1
    ensures var i := Find(x, d);
      SplitAll(x + y, d).records == [x[..i]] + SplitAll(x[i + |d|..] + y, d).records
    ensures var i := Find(x, d);
      SplitAll(x + y, d).pending == SplitAll(x[i + |d|..] + y, d).pending
  {
    var i := Find(x, d);
    FindInPrefix(x, y, d);
    var j := i + |d|;
    var b, t := x + y, x[j..] + y;
    AppendSlices(x, y, i, j);
    assert b[j..] == t;
    SplitAllAt(b, d, i);
  }

  /** Splitting `x + y` splits `x` first and then what is left of `x`
      followed by `y`. */
  lemma {:induction false} SplitAllAppend(x: Bytes, y: Bytes, d: Bytes)
    requires |d| > 0
    ensures SplitAll(x + y, d).records
            == SplitAll(x, d).records + SplitAll(SplitAll(x, d).pending + y, d).records
    ensures SplitAll(x + y, d).pending == SplitAll(SplitAll(x, d).pending + y, d).pending
    decreases |x|
  {
    var i := Find(x, d);
    if i != -1 {
      var x' := x[i + |d|..];
      SplitAllAt(x, d, i);
      SplitAllFoundInPrefix(x, y, d);
      SplitAllAppend(x', y, d);
      var h, a, b := x[..i], SplitAll(x', d).records, SplitAll(SplitAll(x', d).pending + y, d).records;
      assert [h] + (a + b) == [h] + a + b;
    }
  }

  /** Chunking independence: the corrected loop yields the records and rest
      of the whole received stream, however it was cut into chunks. */
  lemma {:induction false} FrameAllIsSplitOfStream(chunks: seq<Bytes>, d: Bytes)
    requires |d| > 0
    ensures FrameAll([], chunks, d) == SplitAll(Concat(chunks), d)
    decreases |chunks|
  {
    if chunks == [] {
      assert SplitAll([], d) == Framed([], []);
    } else {
      var init := chunks[..|chunks| - 1];
      var c := chunks[|chunks| - 1];
      FrameAllIsSplitOfStream(init, d);
      SplitAllAppend(Concat(init), c, d);
      assert FrameAll([], chunks, d) == Framed(FrameAll([], init, d).records + SplitAll(FrameAll([], init, d).pending + c, d).records,
                                               SplitAll(FrameAll([], init, d).pending + c, d).pending);
    }
  }

  /** On a one-byte end character, pending bytes free of it and a chunk
      holding it at most once, one iteration of the reader loop as written
      splits off exactly what the corrected framer splits off, and leaves
      pending bytes free of it again. */
  lemma StepAgrees(p: Bytes, c: Bytes, b: byte)
    requires NoByte(p, b) && AtMostOnce(c, b)
    ensures var s := Step(p, c, [b]);
      SplitAll(p + c, [b]) == Framed(OptionToSeq(s.record), s.pending)
    ensures NoByte(Step(p, c, [b]).pending, b)
  {
    var i := Find(c, [b]);
    FindIsFirst(c, [b]);
    if i == -1 {
      forall j | 0 <= j < |c| ensures c[j] != b {
        SingleByteOccurs(c, b, j);
      }
      SplitWithoutByte(p, c, b);
    } else {
      SingleByteOccurs(c, b, i);
      forall j | 0 <= j < i ensures c[j] != b {
        SingleByteOccurs(c, b, j);
      }
      var rest := c[i + 1..];
      forall j | 0 <= j < |rest| ensures rest[j] != b {
        assert rest[j] == c[i + 1 + j];
      }
      SplitAtOnlyByte(p, c, b, i);
    }
  }

  /** Pending bytes and a chunk both free of the byte `b` split into no
      record. */
  lemma SplitWithoutByte(p: Bytes, c: Bytes, b: byte)
    requires NoByte(p, b) && NoByte(c, b)
    ensures SplitAll(p + c, [b]) == Framed([], p + c)
  {
    FindNoByte(p + c, b);
  }

  /** Pending bytes free of the byte `b` and a chunk holding it only at `i`
      split into the one record before it and the rest after it. */
  lemma SplitAtOnlyByte(p: Bytes, c: Bytes, b: byte, i: int)
    requires NoByte(p, b) && 0 <= i < |c| && c[i] == b
    requires forall j :: 0 <= j < i ==> c[j] != b
    requires NoByte(c[i + 1..], b)
    ensures SplitAll(p + c, [b]) == Framed([p + c[..i]], c[i + 1..])
  {
    var rest := c[i + 1..];
    FindByte(p + c, b, |p| + i);
    SplitAllAt(p + c, [b], |p| + i);
    assert (p + c)[..|p| + i] == p + c[..i];
    assert (p + c)[|p| + i + 1..] == rest;
    FindNoByte(rest, b);
  }

  /** The last corrected iteration, taken apart. */
  lemma FrameAllLast(pending: Bytes, chunks: seq<Bytes>, d: Bytes)
    requires |d| > 0 && chunks != []
    ensures var prev := FrameAll(pending, chunks[..|chunks| - 1], d);
      var s := SplitAll(prev.pending + chunks[|chunks| - 1], d);
      FrameAll(pending, chunks, d) == Framed(prev.records + s.records, s.pending)
  {
  }

  /** The reader loop as written is right when the end character is a single
      byte, the initial pending bytes do not hold it and no chunk holds it
      twice: it then adds exactly the records of the corrected framer, and
      its pending bytes never hold the end character. */
  lemma {:induction false} FrameAgreesOnOneRecordPerChunk(pending: Bytes, chunks: seq<Bytes>, b: byte)
    requires NoByte(pending, b)
    requires forall k :: 0 <= k < |chunks| ==> AtMostOnce(chunks[k], b)
    ensures Frame(pending, chunks, [b]) == FrameAll(pending, chunks, [b])
    ensures NoByte(Frame(pending, chunks, [b]).pending, b)
    decreases |chunks|
  {
    if chunks != [] {
      var init, c := chunks[..|chunks| - 1], chunks[|chunks| - 1];
      FrameAgreesOnOneRecordPerChunk(pending, init, b);
      var prev := Frame(pending, init, [b]);
      FrameLast(pending, chunks, [b]);
      FrameAllLast(pending, chunks, [b]);
      StepAgrees(prev.pending, c, b);
    }
  }
}
