/** Concrete exchanges over one connection, as the test suite drives them,
    and the inputs on which the reader loop as written and the corrected
    reader loop part ways. */
module Scenarios {
  import opened Wrappers
  import opened DataQueue
  import opened Framing
  import opened Reassembly
  import opened SocketReceiving

  /** The default end character, `b'\03'`. */
  const ETX: byte := 3
  /** `b'hello'` */
  const Hello: Bytes := [104, 101, 108, 108, 111]
  /** `b'hello there'` */
  const HelloThere: Bytes := [104, 101, 108, 108, 111, 32, 116, 104, 101, 114, 101]
  /** `b'world'` */
  const World: Bytes := [119, 111, 114, 108, 100]
  /** `b'Received'`, the test's confirmation message. */
  const Received: Bytes := [82, 101, 99, 101, 105, 118, 101, 100]

  /** The two-message exchange of the test suite: a fresh receiver with
      confirmation on starts empty; `hello`, sent with the end character, is
      added and then confirmed, so the queue read after the confirmation
      holds it; the same for `hello there`, which is queued behind it. */
  method TwoMessagesWithConfirmation() returns (before: nat, first: seq<Bytes>, second: seq<Bytes>, log: seq<Event>)
    ensures before == 0
    ensures first == [Hello]
    ensures second == [Hello, HelloThere]
    ensures log == [Added(Hello), Sent(Received), Added(HelloThere), Sent(Received)]
  {
    var r := new SocketReceiver(None, [ETX], true, Received);
    before := r.receiver.Len();
    assert NoByte(Hello, ETX) && NoByte(HelloThere, ETX);
    StepOnTerminatedMessage([], Hello, ETX);
    assert [] + Hello == Hello;
    var msg, events := r.ReceiveChunk([], Hello + [ETX]);
    first := r.receiver.PeakAll();
    StepOnTerminatedMessage(msg, HelloThere, ETX);
    assert msg + HelloThere == HelloThere;
    var more;
    msg, more := r.ReceiveChunk(msg, HelloThere + [ETX]);
    second := r.receiver.PeakAll();
    log := events + more;
  }

  /** A message whose bytes arrive in two reads, `he` and then `llo` with
      the end character, is reassembled into the one record `hello`. */
  lemma SplitReadIsReassembled()
    ensures Frame([], [[104, 101], [108, 108, 111, ETX]], [ETX]) == Framed([Hello], [])
  {
    var c1, c2: Bytes := [104, 101], [108, 108, 111, ETX];
    var chunks := [c1, c2];
    assert chunks[..1] == [c1] && [c1][..0] == [];
    FindNoByte(c1, ETX);
    assert [] + c1 == c1;
    assert Frame([], [c1], [ETX]) == Framed([], c1);
    assert c2 == [108, 108, 111] + [ETX];
    assert NoByte([108, 108, 111], ETX);
    StepOnTerminatedMessage(c1, [108, 108, 111], ETX);
    assert c1 + [108, 108, 111] == Hello;
    FrameLast([], chunks, [ETX]);
    assert [] + [Hello] == [Hello];
  }

  /** As written, a chunk carrying two terminated messages adds only the
      first; the second, end character included, stays in the pending
      bytes, where it is never searched again. */
  lemma {:induction false} TwoMessagesInOneChunkAsWritten(pending: Bytes, m1: Bytes, m2: Bytes, b: byte)
    requires NoByte(m1, b)
    ensures Step(pending, m1 + [b] + m2 + [b], [b]) == StepOut(Some(pending + m1), m2 + [b])
  {
    var c := m1 + [b] + m2 + [b];
    forall j | 0 <= j < |m1| ensures c[j] != b {
      assert c[j] == m1[j];
    }
    FindByte(c, b, |m1|);
    assert c[..|m1|] == m1;
    assert c[|m1| + 1..] == m2 + [b];
  }

  /** The corrected framer splits both messages off the same buffer. */
  lemma TwoMessagesInOneChunkCorrected(m1: Bytes, m2: Bytes, b: byte)
    requires NoByte(m1, b) && NoByte(m2, b)
    ensures SplitAll(m1 + [b] + m2 + [b], [b]) == Framed([m1, m2], [])
  {
    var c := m1 + [b] + m2 + [b];
    var rest := m2 + [b];
    forall j | 0 <= j < |m1| ensures c[j] != b {
      assert c[j] == m1[j];
    }
    FindByte(c, b, |m1|);
    assert c[..|m1|] == m1;
    assert c[|m1| + 1..] == rest;
    SplitAllAt(c, [b], |m1|);
    FindByte(rest, b, |m2|);
    assert rest[..|m2|] == m2;
    assert rest[|m2| + 1..] == [];
    SplitAllAt(rest, [b], |m2|);
    FindNoByte([], b);
  }

  /** The counterexample on concrete reads: `hello\x03world\x03` in one read
      and then `x\x03`. As written, the queue gets `hello` and then the
      merged record `world\x03x`; `world` is never added on its own. */
  lemma MergedRecordAsWritten()
    ensures Frame([], [Hello + [ETX] + World + [ETX], [120, ETX]], [ETX])
            == Framed([Hello, World + [ETX, 120]], [])
  {
    var c1, c2 := Hello + [ETX] + World + [ETX], [120, ETX];
    var chunks := [c1, c2];
    assert NoByte(Hello, ETX);
    TwoMessagesInOneChunkAsWritten([], Hello, World, ETX);
    assert chunks[..1] == [c1] && [c1][..0] == [];
    assert [] + Hello == Hello;
    assert Frame([], [c1], [ETX]) == Framed([Hello], World + [ETX]);
    assert c2 == [120] + [ETX];
    StepOnTerminatedMessage(World + [ETX], [120], ETX);
    FrameLast([], chunks, [ETX]);
    assert World + [ETX] + [120] == World + [ETX, 120];
  }

  /** The same reads through the corrected framer give `hello`, `world` and
      `x`, each on its own. */
  lemma MergedRecordCorrected()
    ensures FrameAll([], [Hello + [ETX] + World + [ETX], [120, ETX]], [ETX])
            == Framed([Hello, World, [120]], [])
  {
    var c1, c2 := Hello + [ETX] + World + [ETX], [120, ETX];
    var chunks := [c1, c2];
    assert NoByte(Hello, ETX) && NoByte(World, ETX) && NoByte([120], ETX);
    assert chunks[..1] == [c1] && [c1][..0] == [];
    assert [] + c1 == c1 && [] + c2 == c2;
    TwoMessagesInOneChunkCorrected(Hello, World, ETX);
    assert FrameAll([], [c1], [ETX]) == Framed([Hello, World], []);
    assert c2 == [120] + [ETX];
    FindByte(c2, ETX, 1);
    SplitAllAt(c2, [ETX], 1);
    assert c2[..1] == [120] && c2[2..] == [];
    FindNoByte([], ETX);
    FrameAllLast([], chunks, [ETX]);
  }

  /** As written, a two-byte end character `[b1, b2]` that arrives split
      across two reads, the message and `b1` and then `b2`, completes no
      record: neither read holds the whole end character. With CR LF as the
      end character, `hi\r` and then `\n` is such a pair of reads. */
  lemma SplitEndCharacterAsWritten(pending: Bytes, m: Bytes, b1: byte, b2: byte)
    requires NoByte(m, b1)
    ensures Frame(pending, [m + [b1], [b2]], [b1, b2]) == Framed([], pending + m + [b1, b2])
  {
    var c1, c2 := m + [b1], [b2];
    var chunks := [c1, c2];
    FindPairCutShort(m, b1, b2);
    assert Find(c2, [b1, b2]) == -1;
    assert chunks[..1] == [c1] && [c1][..0] == [];
    assert Frame(pending, [c1], [b1, b2]) == Framed([], pending + c1);
    FrameLast(pending, chunks, [b1, b2]);
    assert pending + c1 + c2 == pending + m + [b1, b2];
  }

  /** The same reads through the corrected framer complete the record:
      `hi` for the CR LF reads above. */
  lemma SplitEndCharacterCorrected(pending: Bytes, m: Bytes, b1: byte, b2: byte)
    requires NoByte(pending + m, b1)
    ensures FrameAll(pending, [m + [b1], [b2]], [b1, b2]) == Framed([pending + m], [])
  {
    var c1, c2 := m + [b1], [b2];
    var chunks := [c1, c2];
    var x := pending + m;
    FindPairCutShort(x, b1, b2);
    assert pending + c1 == x + [b1];
    assert chunks[..1] == [c1] && [c1][..0] == [];
    assert FrameAll(pending, [c1], [b1, b2]) == Framed([], x + [b1]);
    assert x + [b1] + c2 == x + [b1, b2];
    FindPairAtEnd(x, b1, b2);
    SplitAllAt(x + [b1, b2], [b1, b2], |x|);
    assert (x + [b1, b2])[..|x|] == x && (x + [b1, b2])[|x| + 2..] == [];
    assert Find([], [b1, b2]) == -1;
    FrameAllLast(pending, chunks, [b1, b2]);
  }
}
