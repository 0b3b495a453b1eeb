/** `SocketReceiver`: an `IDataReceiver` whose reader thread frames the
    bytes of one accepted connection into records. The connection is given
    as the sequence of chunks `recv` returns; what the thread does with each
    completed record is returned as a log of events, in the order they
    happen. */
module SocketReceiving {
  import opened Wrappers
  import opened DataQueue
  import opened Framing
  import opened Reassembly

  /** One effect of the reader loop: a record added to the queue, or a
      payload written back with `send`. */
  datatype Event = Added(record: Bytes) | Sent(payload: Bytes)

  /** What the loop does with one completed record: `add` it, and then,
      when confirmation is on, `send` the confirmation message. */
  function Handled(record: Bytes, isSendConfirmation: bool, confirmationMsg: Bytes): seq<Event>
  {
    [Added(record)] + (if isSendConfirmation then [Sent(confirmationMsg)] else [])
  }

  /** The events of handling `records` one after the other. */
  function Log(records: seq<Bytes>, isSendConfirmation: bool, confirmationMsg: Bytes): (log: seq<Event>)
    ensures |log| == if isSendConfirmation then 2 * |records| else |records|
    decreases |records|
  {
    if records == [] then []
    else Log(records[..|records| - 1], isSendConfirmation, confirmationMsg)
         + Handled(records[|records| - 1], isSendConfirmation, confirmationMsg)
  }

  /** The log of one more record. */
  lemma LogSnoc(records: seq<Bytes>, r: Bytes, isSendConfirmation: bool, confirmationMsg: Bytes)
    ensures Log(records + [r], isSendConfirmation, confirmationMsg)
            == Log(records, isSendConfirmation, confirmationMsg) + Handled(r, isSendConfirmation, confirmationMsg)
  {
    assert (records + [r])[..|records|] == records;
  }

  /** The log of two runs of records. */
  lemma {:induction false} LogAppend(xs: seq<Bytes>, ys: seq<Bytes>, isSendConfirmation: bool, confirmationMsg: Bytes)
    ensures Log(xs + ys, isSendConfirmation, confirmationMsg)
            == Log(xs, isSendConfirmation, confirmationMsg) + Log(ys, isSendConfirmation, confirmationMsg)
    decreases |ys|
  {
    if ys == [] {
      assert xs + ys == xs;
    } else {
      var init, y := ys[..|ys| - 1], ys[|ys| - 1];
      assert xs + ys == (xs + init) + [y];
      LogSnoc(xs + init, y, isSendConfirmation, confirmationMsg);
      LogAppend(xs, init, isSendConfirmation, confirmationMsg);
      LogSnoc(init, y, isSendConfirmation, confirmationMsg);
      assert init + [y] == ys;
    }
  }

  /** The order of the log: with confirmation on, the `i`-th record is
      added at position `2 i` and its confirmation is sent right after it,
      before the next record is added; with confirmation off, the log is
      the records' additions in order and nothing is sent. */
  lemma {:induction false} LogInterleaves(records: seq<Bytes>, isSendConfirmation: bool, confirmationMsg: Bytes)
    ensures var log := Log(records, isSendConfirmation, confirmationMsg);
      isSendConfirmation ==>
        forall i :: 0 <= i < |records| ==> log[2 * i] == Added(records[i]) && log[2 * i + 1] == Sent(confirmationMsg)
    ensures var log := Log(records, isSendConfirmation, confirmationMsg);
      !isSendConfirmation ==> forall i :: 0 <= i < |records| ==> log[i] == Added(records[i])
    decreases |records|
  {
    if records != [] {
      var n := |records| - 1;
      var init := records[..n];
      LogInterleaves(init, isSendConfirmation, confirmationMsg);
      var log := Log(records, isSendConfirmation, confirmationMsg);
      var prefix := Log(init, isSendConfirmation, confirmationMsg);
      assert log == prefix + Handled(records[n], isSendConfirmation, confirmationMsg);
      forall i | 0 <= i < n
        ensures records[i] == init[i]
      {
      }
    }
  }

  /** The queue after one more loop iteration. */
  lemma AddAllStep(q: seq<Bytes>, records: seq<Bytes>, record: Option<Bytes>, maxlen: Option<nat>)
    ensures AddAll(q, records + OptionToSeq(record), maxlen)
            == if record.Some? then Appended(AddAll(q, records, maxlen), record.value, maxlen)
               else AddAll(q, records, maxlen)
  {
    if record.Some? {
      AddAllSnoc(q, records, record.value, maxlen);
    } else {
      assert records + OptionToSeq(record) == records;
    }
  }


  /** The events of one loop iteration: those of the record it completes,
      if any. */
  function StepEvents(record: Option<Bytes>, isSendConfirmation: bool, confirmationMsg: Bytes): (events: seq<Event>)
    ensures events == Log(OptionToSeq(record), isSendConfirmation, confirmationMsg)
  {
    if record.Some? then Handled(record.value, isSendConfirmation, confirmationMsg) else []
  }

  /** One iteration of the reader loop keeps the loop's invariant: the
      records framed so far, the queue and the event log all grow by the
      record the iteration completes. */
  lemma ServeStep(chunks: seq<Bytes>, k: nat, d: Bytes, q0: seq<Bytes>, maxlen: Option<nat>,
                  isSendConfirmation: bool, confirmationMsg: Bytes,
                  records: seq<Bytes>, msg: Bytes, queue: seq<Bytes>, log: seq<Event>,
                  next: Bytes, queue': seq<Bytes>, events: seq<Event>)
    requires k < |chunks|
    requires Frame([], chunks[..k], d) == Framed(records, msg)
    requires queue == AddAll(q0, records, maxlen)
    requires log == Log(records, isSendConfirmation, confirmationMsg)
    requires var s := Step(msg, chunks[k], d);
      next == s.pending
      && queue' == (if s.record.Some? then Appended(queue, s.record.value, maxlen) else queue)
      && events == StepEvents(s.record, isSendConfirmation, confirmationMsg)
    ensures var records' := records + OptionToSeq(Step(msg, chunks[k], d).record);
      Frame([], chunks[..k + 1], d) == Framed(records', next)
      && queue' == AddAll(q0, records', maxlen)
      && log + events == Log(records', isSendConfirmation, confirmationMsg)
  {
    var s := Step(msg, chunks[k], d);
    assert chunks[..k + 1][..k] == chunks[..k];
    FrameLast([], chunks[..k + 1], d);
    AddAllStep(q0, records, s.record, maxlen);
    LogAppend(records, OptionToSeq(s.record), isSendConfirmation, confirmationMsg);
  }

  /** One iteration of the corrected reader loop keeps that loop's
      invariant: the records framed so far, the queue and the event log all
      grow by the records split off the pending bytes and chunk. */
  lemma ServeReassemblingStep(chunks: seq<Bytes>, k: nat, d: Bytes, q0: seq<Bytes>, maxlen: Option<nat>,
                              isSendConfirmation: bool, confirmationMsg: Bytes,
                              records: seq<Bytes>, msg: Bytes, queue: seq<Bytes>, log: seq<Event>,
                              next: Bytes, queue': seq<Bytes>, events: seq<Event>)
    requires |d| > 0 && k < |chunks|
    requires FrameAll([], chunks[..k], d) == Framed(records, msg)
    requires queue == AddAll(q0, records, maxlen)
    requires log == Log(records, isSendConfirmation, confirmationMsg)
    requires var s := SplitAll(msg + chunks[k], d);
      next == s.pending
      && queue' == AddAll(queue, s.records, maxlen)
      && events == Log(s.records, isSendConfirmation, confirmationMsg)
    ensures var records' := records + SplitAll(msg + chunks[k], d).records;
      FrameAll([], chunks[..k + 1], d) == Framed(records', next)
      && queue' == AddAll(q0, records', maxlen)
      && log + events == Log(records', isSendConfirmation, confirmationMsg)
  {
    var s := SplitAll(msg + chunks[k], d);
    assert chunks[..k + 1][..k] == chunks[..k];
    FrameAllLast([], chunks[..k + 1], d);
    AddAllAppend(q0, records, s.records, maxlen);
    LogAppend(records, s.records, isSendConfirmation, confirmationMsg);
  }

  class SocketReceiver {
    /** The `IDataReceiver` part: the record queue. */
    const receiver: DataReceiver<Bytes>
    const endCharacter: Bytes
    const isSendConfirmation: bool
    const confirmationMsg: Bytes

    /** `SocketReceiver.__init__`; the variant without confirmation is the
        one with `isSendConfirmation` false. */
    constructor (maxlen: Option<nat>, endCharacter: Bytes, isSendConfirmation: bool, confirmationMsg: Bytes)
      ensures receiver.Valid() && fresh(receiver)
      ensures receiver.maxlen == maxlen && receiver.queue == []
      ensures this.endCharacter == endCharacter
      ensures this.isSendConfirmation == isSendConfirmation
      ensures this.confirmationMsg == confirmationMsg
    {
      receiver := new DataReceiver(maxlen);
      this.endCharacter := endCharacter;
      this.isSendConfirmation := isSendConfirmation;
      this.confirmationMsg := confirmationMsg;
    }

    /** One iteration of the reader loop on pending bytes `msg` and the
        received chunk `data`: when the chunk holds the end character, the
        record it completes is added to the queue, and then one confirmation
        is sent when confirmation is on; `events` logs both in that order,
        and `next` is the new `msg`. */
    method ReceiveChunk(msg: Bytes, data: Bytes) returns (next: Bytes, events: seq<Event>)
      requires receiver.Valid()
      modifies receiver
      ensures receiver.Valid()
      ensures var s := Step(msg, data, endCharacter);
        next == s.pending
        && receiver.queue == (if s.record.Some? then Appended(old(receiver.queue), s.record.value, receiver.maxlen)
                              else old(receiver.queue))
        && events == StepEvents(s.record, isSendConfirmation, confirmationMsg)
    {
      next := msg;
      events := [];
      var endIndex := Find(data, endCharacter);
      if endIndex != -1 {
        next := next + data[..endIndex];
        var added := receiver.Add(next);
        events := events + [Added(next)];
        next := data[endIndex + |endCharacter|..];
        if isSendConfirmation {
          events := events + [Sent(confirmationMsg)];
        }
      } else {
        next := next + data;
      }
    }

    /** The reader loop of `__start_socket_thread`, run while the receiver
        is running over the chunks received meanwhile. Every completed
        record is added to the queue in order; the log holds each addition
        followed, when confirmation is on, by its confirmation; `pending` is
        what is left in `msg` when the loop ends. */
    method ServeConnection(chunks: seq<Bytes>) returns (log: seq<Event>, pending: Bytes)
      requires receiver.Valid()
      modifies receiver
      ensures receiver.Valid()
      ensures receiver.queue
              == AddAll(old(receiver.queue), Frame([], chunks, endCharacter).records, receiver.maxlen)
      ensures pending == Frame([], chunks, endCharacter).pending
      ensures log == Log(Frame([], chunks, endCharacter).records, isSendConfirmation, confirmationMsg)
    {
      var msg: Bytes := [];
      log := [];
      ghost var records: seq<Bytes> := [];
      ghost var q0 := receiver.queue;
      var k := 0;
      assert chunks[..0] == [];
      while k < |chunks|
        invariant 0 <= k <= |chunks|
        invariant receiver.Valid()
        invariant Frame([], chunks[..k], endCharacter) == Framed(records, msg)
        invariant receiver.queue == AddAll(q0, records, receiver.maxlen)
        invariant log == Log(records, isSendConfirmation, confirmationMsg)
      {
        ghost var records' := records + OptionToSeq(Step(msg, chunks[k], endCharacter).record);
        ghost var queue := receiver.queue;
        var next, events := ReceiveChunk(msg, chunks[k]);
        ServeStep(chunks, k, endCharacter, q0, receiver.maxlen, isSendConfirmation, confirmationMsg,
                  records, msg, queue, log, next, receiver.queue, events);
        msg, records, log := next, records', log + events;
        k := k + 1;
      }
      assert chunks[..k] == chunks;
      pending := msg;
    }

    /** Adds `records` to the queue in order, sending one confirmation right
        after each addition when confirmation is on. */
    method AddRecords(records: seq<Bytes>) returns (log: seq<Event>)
      requires receiver.Valid()
      modifies receiver
      ensures receiver.Valid()
      ensures receiver.queue == AddAll(old(receiver.queue), records, receiver.maxlen)
      ensures log == Log(records, isSendConfirmation, confirmationMsg)
    {
      log := [];
      ghost var q0 := receiver.queue;
      var j := 0;
      assert records[..0] == [];
      while j < |records|
        invariant 0 <= j <= |records|
        invariant receiver.Valid()
        invariant receiver.queue == AddAll(q0, records[..j], receiver.maxlen)
        invariant log == Log(records[..j], isSendConfirmation, confirmationMsg)
      {
        assert records[..j + 1] == records[..j] + [records[j]];
        AddAllSnoc(q0, records[..j], records[j], receiver.maxlen);
        LogSnoc(records[..j], records[j], isSendConfirmation, confirmationMsg);
        var added := receiver.Add(records[j]);
        log := log + [Added(records[j])];
        if isSendConfirmation {
          log := log + [Sent(confirmationMsg)];
        }
        j := j + 1;
      }
      assert records[..j] == records;
    }

    /** The corrected loop iteration: the received chunk is appended to the
        pending bytes, and every complete record in them is added to the
        queue in order, each followed by its confirmation when confirmation
        is on; `next` is the unterminated rest. */
    method ReceiveChunkReassembling(msg: Bytes, data: Bytes) returns (next: Bytes, events: seq<Event>)
      requires receiver.Valid() && |endCharacter| > 0
      modifies receiver
      ensures receiver.Valid()
      ensures var s := SplitAll(msg + data, endCharacter);
        next == s.pending
        && receiver.queue == AddAll(old(receiver.queue), s.records, receiver.maxlen)
        && events == Log(s.records, isSendConfirmation, confirmationMsg)
    {
      var split := SplitAll(msg + data, endCharacter);
      events := AddRecords(split.records);
      next := split.pending;
    }

    /** The corrected reader loop: every record of the received stream is
        added to the queue in order, and confirmed right after when
        confirmation is on, however the stream was cut into chunks;
        `pending` is the unterminated rest of the stream. */
    method ServeConnectionReassembling(chunks: seq<Bytes>) returns (log: seq<Event>, pending: Bytes)
      requires receiver.Valid() && |endCharacter| > 0
      modifies receiver
      ensures receiver.Valid()
      ensures var s := SplitAll(Concat(chunks), endCharacter);
        receiver.queue == AddAll(old(receiver.queue), s.records, receiver.maxlen)
        && pending == s.pending
        && log == Log(s.records, isSendConfirmation, confirmationMsg)
    {
      var msg: Bytes := [];
      log := [];
      ghost var records: seq<Bytes> := [];
      ghost var q0 := receiver.queue;
      var k := 0;
      assert chunks[..0] == [];
      while k < |chunks|
        invariant 0 <= k <= |chunks|
        invariant receiver.Valid()
        invariant FrameAll([], chunks[..k], endCharacter) == Framed(records, msg)
        invariant receiver.queue == AddAll(q0, records, receiver.maxlen)
        invariant log == Log(records, isSendConfirmation, confirmationMsg)
      {
        ghost var records' := records + SplitAll(msg + chunks[k], endCharacter).records;
        ghost var queue := receiver.queue;
        var next, events := ReceiveChunkReassembling(msg, chunks[k]);
        ServeReassemblingStep(chunks, k, endCharacter, q0, receiver.maxlen, isSendConfirmation, confirmationMsg,
                              records, msg, queue, log, next, receiver.queue, events);
        msg, records, log := next, records', log + events;
        k := k + 1;
      }
      assert chunks[..k] == chunks;
      FrameAllIsSplitOfStream(chunks, endCharacter);
      pending := msg;
    }
  }
}
