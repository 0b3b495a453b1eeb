/** The delimiter framer of `SocketReceiver.__start_socket_thread`, as the
    code is written: each received chunk is searched (on its own) for the
    first end character; at most one record is completed per chunk. */
module Framing {
  import opened Wrappers

  newtype byte = x: int | 0 <= x < 256
  type Bytes = seq<byte>

  /** `d` occurs in `s` starting at index `i`. */
  predicate OccursAt(s: Bytes, d: Bytes, i: int)
  {
    0 <= i && i + |d| <= |s| && s[i..i + |d|] == d
  }

  /** `bytes.find` from index `k` on: -1, or an index from `k` on at which
      a whole `d` fits in `s`. */
  function FindFrom(s: Bytes, d: Bytes, k: nat): (r: int)
    requires k <= |s|
    ensures r == -1 || (k <= r && r + |d| <= |s|)
    decreases |s| - k
  {
    if k + |d| > |s| then -1
    else if d <= s[k..] then k
    else if k == |s| then -1
    else FindFrom(s, d, k + 1)
  }

  /** `bytes.find`: the index of the first occurrence of `d` in `s`, or -1
      (see `FindIsFirst`). */
  function Find(s: Bytes, d: Bytes): (r: int)
    ensures r == -1 || (0 <= r && r + |d| <= |s|)
  {
    FindFrom(s, d, 0)
  }

  /** `FindFrom` returns the least index from `k` on at which `d` occurs,
      and -1 exactly when there is none. */
  lemma {:induction false} FindFromIsFirst(s: Bytes, d: Bytes, k: nat)
    requires k <= |s|
    ensures var r := FindFrom(s, d, k);
      (r == -1 ==> forall i :: k <= i ==> !OccursAt(s, d, i))
      && (r != -1 ==> OccursAt(s, d, r) && forall j :: k <= j < r ==> !OccursAt(s, d, j))
    decreases |s| - k
  {
    if k + |d| <= |s| && s[k..k + |d|] != d && k < |s| {
      FindFromIsFirst(s, d, k + 1);
    }
  }

  /** `bytes.find` finds the first occurrence: an empty `d` occurs at index
      0 of every `s`, and -1 means `d` occurs nowhere. */
  lemma FindIsFirst(s: Bytes, d: Bytes)
    ensures var r := Find(s, d);
      (r == -1 ==> forall i :: !OccursAt(s, d, i))
      && (r != -1 ==> OccursAt(s, d, r) && forall j :: 0 <= j < r ==> !OccursAt(s, d, j))
  {
    FindFromIsFirst(s, d, 0);
  }

  /** What one loop iteration produces: the record it adds, if any, and the
      new pending buffer `msg`. */
  datatype StepOut = StepOut(record: Option<Bytes>, pending: Bytes)

  /** One loop iteration on pending bytes `pending` and received `chunk`.
      A record, when there is one, starts with the old pending bytes, and it
      and the end character are exactly what the new pending bytes lack of
      the old pending bytes plus the chunk; without a record, the pending
      bytes only grow. */
  function Step(pending: Bytes, chunk: Bytes, d: Bytes): (s: StepOut)
    ensures s.record.Some? ==> pending <= s.record.value
    ensures s.record.Some? ==> |s.record.value| + |d| + |s.pending| == |pending| + |chunk|
    ensures s.record.None? ==> pending <= s.pending
  {
    var i := Find(chunk, d);
    if i != -1 then StepOut(Some(pending + chunk[..i]), chunk[i + |d|..])
    else StepOut(None, pending + chunk)
  }

  /** The records added by a run of loop iterations and the pending bytes
      left when it stops. */
  datatype Framed = Framed(records: seq<Bytes>, pending: Bytes)

  function OptionToSeq<T>(o: Option<T>): seq<T>
  {
    if o.Some? then [o.value] else []
  }

  /** The loop run over the received `chunks`, one iteration per chunk,
      starting from pending bytes `pending`. While no record is completed,
      every byte received stays pending. */
  function Frame(pending: Bytes, chunks: seq<Bytes>, d: Bytes): (f: Framed)
    ensures f.records == [] ==> f.pending == pending + Concat(chunks)
    decreases |chunks|
  {
    if chunks == [] then Framed([], pending)
    else
      var prev := Frame(pending, chunks[..|chunks| - 1], d);
      var s := Step(prev.pending, chunks[|chunks| - 1], d);
      Framed(prev.records + OptionToSeq(s.record), s.pending)
  }

  /** The chunks joined back into the byte stream they came from. */
  function Concat(chunks: seq<Bytes>): Bytes
    decreases |chunks|
  {
    if chunks == [] then [] else Concat(chunks[..|chunks| - 1]) + chunks[|chunks| - 1]
  }

  /** Records written back onto the wire, each followed by the delimiter. */
  function Terminated(records: seq<Bytes>, d: Bytes): Bytes
    decreases |records|
  {
    if records == [] then [] else Terminated(records[..|records| - 1], d) + records[|records| - 1] + d
  }

  /** A chunk without the end character adds nothing and is kept whole as
      pending bytes. */
  lemma StepWithoutDelimiter(pending: Bytes, chunk: Bytes, d: Bytes)
    requires forall i :: !OccursAt(chunk, d, i)
    ensures Step(pending, chunk, d) == StepOut(None, pending + chunk)
  {
    FindIsFirst(chunk, d);
  }

  /** A chunk whose first end character is at index `i` adds exactly the
      record `pending + chunk[..i]` and keeps only what follows the end
      character as pending; a later end character in the same chunk stays
      unsearched in the pending bytes. */
  lemma StepAtFirstDelimiter(pending: Bytes, chunk: Bytes, d: Bytes, i: nat)
    requires OccursAt(chunk, d, i)
    requires forall j :: 0 <= j < i ==> !OccursAt(chunk, d, j)
    ensures Step(pending, chunk, d) == StepOut(Some(pending + chunk[..i]), chunk[i + |d|..])
  {
    FindIsFirst(chunk, d);
  }

  /** An empty chunk (what `recv` returns once the peer has closed) changes
      nothing when the end character is non-empty. */
  lemma EmptyChunkIsNoOp(pending: Bytes, d: Bytes)
    requires |d| > 0
    ensures Step(pending, [], d) == StepOut(None, pending)
  {
    assert pending + [] == pending;
  }

  /** With an empty end character every chunk, even an empty one, adds the
      pending bytes as a record and becomes the new pending buffer. */
  lemma EmptyDelimiterEmitsEveryStep(pending: Bytes, chunk: Bytes)
    ensures Step(pending, chunk, []) == StepOut(Some(pending), chunk)
  {
    assert OccursAt(chunk, [], 0);
    assert chunk[..0] == [] && pending + [] == pending;
  }

  /** No more than one record is completed per received chunk. */
  lemma {:induction false} AtMostOneRecordPerChunk(pending: Bytes, chunks: seq<Bytes>, d: Bytes)
    ensures |Frame(pending, chunks, d).records| <= |chunks|
    decreases |chunks|
  {
    if chunks != [] {
      AtMostOneRecordPerChunk(pending, chunks[..|chunks| - 1], d);
    }
  }

  lemma Assoc(x: Bytes, y: Bytes, z: Bytes)
    ensures x + y + z == x + (y + z)
  {
  }

  /** One iteration keeps every byte: the record it adds, followed by the
      end character, then the new pending bytes, spell the old pending bytes
      followed by the chunk. */
  /** A buffer with a delimiter at `i` is the bytes before it, the
      delimiter, and the bytes after it. */
  lemma AroundDelimiter(buf: Bytes, d: Bytes, i: int)
    requires OccursAt(buf, d, i)
    ensures buf == buf[..i] + d + buf[i + |d|..]
  {
    assert buf[i..i + |d|] == d;
    assert buf == buf[..i] + buf[i..i + |d|] + buf[i + |d|..];
  }

  lemma StepConservesBytes(pending: Bytes, chunk: Bytes, d: Bytes)
    ensures var s := Step(pending, chunk, d);
      OptionToSeq(s.record) == [] ==> s.pending == pending + chunk
    ensures var s := Step(pending, chunk, d);
      s.record.Some? ==> s.record.value + d + s.pending == pending + chunk
  {
    var i := Find(chunk, d);
    FindIsFirst(chunk, d);
    if i != -1 {
      var head, rest := chunk[..i], chunk[i + |d|..];
      AroundDelimiter(chunk, d, i);
      Assoc(pending, head, d);
      Assoc(pending + head, d, rest);
      Assoc(pending, head + d, rest);
    }
  }

  lemma TerminatedSnoc(records: seq<Bytes>, r: Bytes, d: Bytes)
    ensures Terminated(records + [r], d) == Terminated(records, d) + r + d
  {
    assert (records + [r])[..|records|] == records;
  }

  /** The last loop iteration, taken apart. */
  lemma FrameLast(pending: Bytes, chunks: seq<Bytes>, d: Bytes)
    requires chunks != []
    ensures var prev := Frame(pending, chunks[..|chunks| - 1], d);
      var s := Step(prev.pending, chunks[|chunks| - 1], d);
      Frame(pending, chunks, d) == Framed(prev.records + OptionToSeq(s.record), s.pending)
  {
  }

  /** The inductive step of `FrameConservesBytes`, free of the framer. */
  lemma ConservesSnoc(start: Bytes, received: Bytes, records: seq<Bytes>, pending: Bytes, c: Bytes, d: Bytes, s: StepOut)
    requires Terminated(records, d) + pending == start + received
    requires s.record.None? ==> s.pending == pending + c
    requires s.record.Some? ==> s.record.value + d + s.pending == pending + c
    ensures Terminated(records + OptionToSeq(s.record), d) + s.pending == start + (received + c)
  {
    var t := Terminated(records, d);
    Assoc(start, received, c);
    Assoc(t, pending, c);
    if s.record.Some? {
      var r := s.record.value;
      TerminatedSnoc(records, r, d);
      Assoc(t + r, d, s.pending);
      Assoc(t, r, d + s.pending);
      Assoc(r, d, s.pending);
      assert records + OptionToSeq(s.record) == records + [r];
    } else {
      assert records + OptionToSeq(s.record) == records;
    }
  }

  /** Nothing received is lost or invented: the records, each followed by
      the end character, and then the pending bytes, are exactly the initial
      pending bytes followed by everything received. */
  lemma {:induction false} FrameConservesBytes(pending: Bytes, chunks: seq<Bytes>, d: Bytes)
    ensures Terminated(Frame(pending, chunks, d).records, d) + Frame(pending, chunks, d).pending
            == pending + Concat(chunks)
    decreases |chunks|
  {
    if chunks == [] {
      assert pending + [] == pending;
    } else {
      var init := chunks[..|chunks| - 1];
      var c := chunks[|chunks| - 1];
      var prev := Frame(pending, init, d);
      FrameConservesBytes(pending, init, d);
      FrameLast(pending, chunks, d);
      StepConservesBytes(prev.pending, c, d);
      ConservesSnoc(pending, Concat(init), prev.records, prev.pending, c, d, Step(prev.pending, c, d));
    }
  }

  /** `s` holds no byte `b`. */
  predicate NoByte(s: Bytes, b: byte)
  {
    forall j :: 0 <= j < |s| ==> s[j] != b
  }

  /** `s` holds the byte `b` at most once. */
  predicate AtMostOnce(s: Bytes, b: byte)
  {
    forall i, j :: 0 <= i < j < |s| ==> !(s[i] == b && s[j] == b)
  }

  /** A one-byte delimiter occurs exactly where the byte is. */
  lemma SingleByteOccurs(s: Bytes, b: byte, j: int)
    ensures OccursAt(s, [b], j) <==> 0 <= j < |s| && s[j] == b
  {
    if 0 <= j < |s| {
      assert s[j..j + 1] == [s[j]];
    }
  }

  /** `Find` of a one-byte delimiter is the index of its first occurrence. */
  lemma FindByte(s: Bytes, b: byte, i: int)
    requires 0 <= i < |s| && s[i] == b
    requires forall j :: 0 <= j < i ==> s[j] != b
    ensures Find(s, [b]) == i
  {
    FindIsFirst(s, [b]);
    SingleByteOccurs(s, b, i);
    var r := Find(s, [b]);
    if r != -1 {
      SingleByteOccurs(s, b, r);
    }
  }

  /** `Find` of a one-byte delimiter that is absent is -1. */
  lemma FindNoByte(s: Bytes, b: byte)
    requires NoByte(s, b)
    ensures Find(s, [b]) == -1
  {
    FindIsFirst(s, [b]);
    var r := Find(s, [b]);
    if r != -1 {
      SingleByteOccurs(s, b, r);
    }
  }

  /** A two-byte delimiter `[b1, b2]` occurs only where `b1` is. */
  lemma PairOccurs(s: Bytes, b1: byte, b2: byte, j: int)
    requires OccursAt(s, [b1, b2], j)
    ensures j + 1 < |s| && s[j] == b1 && s[j + 1] == b2
  {
    assert s[j..j + 2][0] == s[j] && s[j..j + 2][1] == s[j + 1];
  }

  /** A two-byte delimiter is not found in bytes whose only `b1` is the
      last one: its second byte would be past the end. */
  lemma FindPairCutShort(x: Bytes, b1: byte, b2: byte)
    requires NoByte(x, b1)
    ensures Find(x + [b1], [b1, b2]) == -1
  {
    var s := x + [b1];
    FindIsFirst(s, [b1, b2]);
    var r := Find(s, [b1, b2]);
    if r != -1 {
      PairOccurs(s, b1, b2, r);
    }
  }

  /** A two-byte delimiter right after bytes free of its first byte is
      found there. */
  lemma FindPairAtEnd(x: Bytes, b1: byte, b2: byte)
    requires NoByte(x, b1)
    ensures Find(x + [b1, b2], [b1, b2]) == |x|
  {
    var s := x + [b1, b2];
    FindIsFirst(s, [b1, b2]);
    assert s[|x|..|x| + 2] == [b1, b2];
    assert OccursAt(s, [b1, b2], |x|);
    var r := Find(s, [b1, b2]);
    if r != -1 && r < |x| {
      PairOccurs(s, b1, b2, r);
    }
  }

  /** A chunk made of one message free of a one-byte end character and the
      end character adds exactly the pending bytes followed by that message,
      and leaves nothing pending. */
  lemma StepOnTerminatedMessage(pending: Bytes, m: Bytes, b: byte)
    requires NoByte(m, b)
    ensures Step(pending, m + [b], [b]) == StepOut(Some(pending + m), [])
  {
    FindByte(m + [b], b, |m|);
    assert (m + [b])[..|m|] == m;
  }

  /** Every message followed by the end character `b`. */
  function TerminateEach(msgs: seq<Bytes>, b: byte): seq<Bytes>
  {
    seq(|msgs|, k requires 0 <= k < |msgs| => msgs[k] + [b])
  }

  /** One more message sent in a chunk of its own after reads that left
      nothing pending: it is added exactly, and again nothing is pending. */
  lemma FrameSnocTerminated(chunks: seq<Bytes>, records: seq<Bytes>, m: Bytes, b: byte)
    requires Frame([], chunks, [b]) == Framed(records, [])
    requires NoByte(m, b)
    ensures Frame([], chunks + [m + [b]], [b]) == Framed(records + [m], [])
  {
    var more := chunks + [m + [b]];
    assert more[..|chunks|] == chunks;
    FrameLast([], more, [b]);
    StepOnTerminatedMessage([], m, b);
    assert [] + m == m;
  }

  /** Messages free of a one-byte end character, each sent in a chunk of its
      own followed by the end character, are received as exactly those
      messages, in order, with nothing left pending. */
  lemma {:induction false} FrameOfSeparateMessages(msgs: seq<Bytes>, b: byte)
    requires forall k :: 0 <= k < |msgs| ==> NoByte(msgs[k], b)
    ensures Frame([], TerminateEach(msgs, b), [b]) == Framed(msgs, [])
    decreases |msgs|
  {
    if msgs != [] {
      var init, m := msgs[..|msgs| - 1], msgs[|msgs| - 1];
      var sent := TerminateEach(init, b);
      assert Frame([], sent, [b]) == Framed(init, []) by {
        FrameOfSeparateMessages(init, b);
      }
      assert Frame([], sent + [m + [b]], [b]) == Framed(msgs, []) by {
        assert NoByte(m, b);
        FrameSnocTerminated(sent, init, m, b);
        assert init + [m] == msgs;
      }
      assert TerminateEach(msgs, b) == sent + [m + [b]];
    }
  }
}
