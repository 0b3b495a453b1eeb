# daceiver record ingestion in Dafny

daceiver receives records over a network connection and keeps them in a
bounded queue for a consumer to read. This project models its record-ingestion
logic, which comes in three near-duplicate variants:

- **The bounded record queue.** `DataQueue` is a `collections.deque` with an
  optional `maxlen`. The `IDataReceiver` operations on it are `add`,
  `peak_all`, `peak_left`, `peak_right`, `pop_left`, `pop_right`, `clear` and
  `len`/`__len__`. These are in `DataQueue.DataReceiver<T>` (`data_queue.dfy`).
  - The queue is a `seq<T>` field that each method reassigns.
  - `maxlen` is an `Option<nat>`.
  - An empty queue yields `None` instead of Python's `None` result, so an
    absent item cannot be confused with a stored one.
  - `add` follows CPython's deque: append, then drop the front item when the
    deque is longer than `maxlen`. With `maxlen` 0 the new item is dropped too.
- **The delimiter framer.** This is the reader loop of
  `SocketReceiver.__start_socket_thread`, modelled as written.
  - `Framing.Step` is one iteration. `Framing.Frame` runs it over the chunks
    `recv` returns.
  - `SocketReceiving.SocketReceiver.ReceiveChunk` and `ServeConnection` run the
    same loop imperatively against the queue. They return a log of events
    in the order they happen: each record added to the queue, and each
    confirmation `send` writes back.
  - `Framing.Find` is `bytes.find`: the least index of the end character in
    the chunk, or -1. An empty end character is found at index 0.
- **The corrected framer.** This is the loop the code evidently intends:
  every complete record in the pending bytes plus the new chunk is split off.
  It lives in `Reassembly.SplitAll`/`FrameAll` and in
  `SocketReceiving.SocketReceiver.ServeConnectionReassembling`, and is proved
  independent of how the stream is cut into reads. See "Findings".

How the variants map onto the model:

- **daceiver/DataReceiver.py** is the one the model follows line by line.
  - Its queue operations take a lock. The model treats each of them as
    atomic.
  - Its `SocketReceiver` sends a confirmation when `is_send_confirmation` is
    set.
- **src/daceiver/daceiver.py** has the same queue operations without the lock
  (lines 33-57).
  - Its `len` is `Len`.
  - Its reader loop (lines 112-127), read without the two lock calls at
    lines 120 and 122, is the model's loop with `isSendConfirmation` false,
    which sends nothing. As written, line 122 releases a lock that was
    never acquired (line 120 only asks whether it is held), which raises
    `RuntimeError` right after the first record is added; see "Left out".
- **daceiver.py** has the same queue operations (lines 31-55).
  - Its `SocketReceiver` (lines 83-105) never frames anything, and is not
    modelled.

A delimiter framer is expected to add every complete record a read carries:
one read of `hello\x03world\x03` should yield `hello` and then `world`. The code
adds only `hello`. The model follows the code, and records the discrepancy
under "Findings".

Files, in dependency order:

| file | contents |
|---|---|
| `wrappers.dfy` | `Option` |
| `data_queue.dfy` | the queue: deque append with `maxlen`, the `DataReceiver` class and lemmas about runs of `add` |
| `framing.dfy` | `bytes.find`, the as-written loop iteration and loop, and lemmas about them |
| `reassembly.dfy` | the corrected framer, and where it agrees with the loop as written |
| `socket_receiver.dfy` | `SocketReceiver`: the reader loop as written and corrected, against the queue |
| `scenarios.dfy` | the test suite's exchange and the counterexamples |

## Model

| member | source | states |
|---|---|---|
| DataQueue.Appended | daceiver/DataReceiver.py:11-13 | a deque with `maxlen` stays within `maxlen` after `append`; it grows by one until full and then keeps its length; without `maxlen` the item is simply appended |
| DataQueue.AddAll | daceiver/DataReceiver.py:40-44 | a run of `add` calls: without `maxlen` every item is kept, in order, after the old ones; a queue within `maxlen` stays within it |
| DataQueue.AppendedKeepsNewest | daceiver/DataReceiver.py:40-44 | `append` keeps a suffix of the old items plus the new one, in order; at most one front item is evicted; the new item is the back unless `maxlen` is 0 |
| DataQueue.AddAllKeepsNewest | daceiver/DataReceiver.py:11-13 | after any run of `add` calls on a queue within capacity, the queue is exactly the newest `maxlen` items of the whole history, oldest first; nothing is lost while the capacity is not reached; once reached, the length is `maxlen` |
| DataQueue.PopBackUndoesAdd | daceiver/DataReceiver.py:71-75 | `pop_right` after an `add` that evicted nothing returns the added item and leaves the previous queue |
| DataQueue.AddAtCapacityEvicts | daceiver/DataReceiver.py:40-44 | at capacity, `add` drops the front item and puts the new one at the back; the old second item becomes the front, or the new item at capacity 1 |
| DataQueue.CapacityScenario | daceiver/DataReceiver.py:11-13 | with `maxlen` 2, adding 1, 2, 3 leaves [2, 3] |
| DataQueue.DataReceiver.constructor | daceiver/DataReceiver.py:26-32 | a new receiver has an empty queue with the given `maxlen` |
| DataQueue.DataReceiver.Add | daceiver/DataReceiver.py:40-44 | the queue becomes the deque append of `data` (front evicted at capacity), stays within `maxlen`, and `data` is returned unchanged |
| DataQueue.DataReceiver.PeakAll | daceiver/DataReceiver.py:46-50 | the items, front to back, with the queue unchanged |
| DataQueue.DataReceiver.PeakRight | daceiver/DataReceiver.py:52-56 | absent exactly when the queue is empty, otherwise the back item; nothing removed |
| DataQueue.DataReceiver.PeakLeft | daceiver/DataReceiver.py:58-62 | absent exactly when the queue is empty, otherwise the front item; nothing removed |
| DataQueue.DataReceiver.Clear | daceiver/DataReceiver.py:64-69 | the queue is empty and the result is always true |
| DataQueue.DataReceiver.PopRight | daceiver/DataReceiver.py:71-75 | returns the back item and removes exactly it, the rest in order; on an empty queue returns absent and changes nothing |
| DataQueue.DataReceiver.PopLeft | daceiver/DataReceiver.py:77-81 | returns the front item and removes exactly it, the rest in order; on an empty queue returns absent and changes nothing |
| DataQueue.DataReceiver.Len | daceiver/DataReceiver.py:83-87 | the number of stored items |
| Framing.FindFrom | daceiver/DataReceiver.py:151 | the search from index `k` returns -1 or an index from `k` on where a whole end character fits |
| Framing.Find | daceiver/DataReceiver.py:151 | `bytes.find` returns -1 or an index where a whole end character fits |
| Framing.FindFromIsFirst | daceiver/DataReceiver.py:151 | the search from `k` returns the least index from `k` on at which the end character occurs, and -1 only when it occurs nowhere from `k` on |
| Framing.FindIsFirst | daceiver/DataReceiver.py:151 | `bytes.find` returns the least index of the end character, and -1 only when it occurs nowhere |
| Framing.Step | daceiver/DataReceiver.py:150-159 | one iteration: a record, when the chunk completes one, starts with the old pending bytes, and it plus the end character plus the new pending bytes are as long as the old pending bytes plus the chunk; without a record the pending bytes only grow (the exact record and rest are `Framing.StepAtFirstDelimiter` and `Framing.StepWithoutDelimiter`) |
| Framing.Frame | daceiver/DataReceiver.py:146-161 | the loop from `msg = b''` over the given reads: as long as no record is completed, every received byte is pending, in order |
| Framing.StepWithoutDelimiter | daceiver/DataReceiver.py:158-159 | a chunk without the end character adds no record and is appended to the pending bytes |
| Framing.StepAtFirstDelimiter | daceiver/DataReceiver.py:150-155 | with the first end character at `i`, exactly the record `msg + chunk[..i]` is added and the pending bytes become what follows that end character |
| Framing.EmptyChunkIsNoOp | daceiver/DataReceiver.py:150-159 | an empty read changes nothing when the end character is non-empty |
| Framing.EmptyDelimiterEmitsEveryStep | daceiver/DataReceiver.py:151-155 | with an empty end character every read, even an empty one, adds the pending bytes as a record |
| Framing.AtMostOneRecordPerChunk | daceiver/DataReceiver.py:149-159 | the loop adds at most one record per read |
| Framing.StepConservesBytes | daceiver/DataReceiver.py:150-159 | one iteration loses and invents no byte: record, end character and new pending bytes spell the old pending bytes and the chunk |
| Framing.FrameConservesBytes | daceiver/DataReceiver.py:146-161 | over any reads, the records each followed by the end character, then the pending bytes, are exactly the bytes received |
| Framing.StepOnTerminatedMessage | daceiver/DataReceiver.py:150-155 | a read of one message and a one-byte end character adds the pending bytes plus that message and leaves nothing pending |
| Framing.FrameOfSeparateMessages | daceiver/DataReceiver.py:146-161 | messages without the end character, each sent in its own read followed by it, are received as exactly those messages in order |
| SocketReceiving.Log | daceiver/DataReceiver.py:149-157 | handling records one after the other logs two events per record with confirmation on, one without |
| SocketReceiving.LogInterleaves | daceiver/DataReceiver.py:153-157 | with confirmation on, the `i`-th record is added at position `2 i` and its confirmation is sent right after it, before the next record is added; with it off, the log is the additions in order and nothing is sent |
| SocketReceiving.StepEvents | daceiver/DataReceiver.py:150-159 | one iteration logs the events of the record it completes, and nothing when the read completes none |
| SocketReceiving.SocketReceiver.constructor | daceiver/DataReceiver.py:119-128 | a new receiver has an empty queue and the given end character and confirmation settings |
| SocketReceiving.SocketReceiver.ReceiveChunk | daceiver/DataReceiver.py:150-159 | one iteration adds to the queue exactly the record `Step` completes, if any, then sends one confirmation for it when confirmation is on (the log holds the addition, then the send), and keeps `Step`'s pending bytes |
| SocketReceiving.SocketReceiver.ServeConnection | daceiver/DataReceiver.py:146-161 | after the loop, the queue is the old queue followed by `add` of each record of `Frame` in order, the log is each record's addition followed by its confirmation when on, and `msg` is `Frame`'s pending bytes |
| SocketReceiving.SocketReceiver.AddRecords | daceiver/DataReceiver.py:154-157 | each record is added in order, and the log holds each addition followed right after by its confirmation when confirmation is on |
| SocketReceiving.SocketReceiver.ReceiveChunkReassembling | daceiver/DataReceiver.py:150-159 | corrected iteration: every complete record in the pending bytes plus the chunk is added in order, each addition followed in the log by its confirmation when on, and the unterminated rest is kept |
| SocketReceiving.SocketReceiver.ServeConnectionReassembling | daceiver/DataReceiver.py:146-161 | corrected loop: the queue receives every record of the whole received stream in order, however it was cut into reads, the log holds each addition followed by its confirmation when on, and the pending bytes are the stream's unterminated rest |
| Reassembly.SplitAllConserves | daceiver/DataReceiver.py:150-159 | the corrected framer loses and invents no byte |
| Reassembly.SplitAllFree | daceiver/DataReceiver.py:150-159 | no record of the corrected framer, nor its rest, contains the end character |
| Reassembly.SplitAllAppend | daceiver/DataReceiver.py:150-159 | splitting `x + y` is splitting `x`, then splitting its rest followed by `y` |
| Reassembly.FrameAllIsSplitOfStream | daceiver/DataReceiver.py:146-161 | the corrected loop over any reads yields the records and rest of the concatenated stream |
| Reassembly.StepAgrees | daceiver/DataReceiver.py:150-159 | with a one-byte end character, pending bytes without it and a chunk holding it at most once, the iteration as written splits off what the corrected framer does |
| Reassembly.FrameAgreesOnOneRecordPerChunk | daceiver/DataReceiver.py:146-161 | under those conditions on every read, the loop as written yields exactly the corrected framer's records and rest |
| Scenarios.TwoMessagesWithConfirmation | tests/TestDaceiver.py:57-70 | a fresh receiver with confirmation on starts empty; `hello`, sent with the end character, is added and then confirmed, and the queue read after that holds `[hello]`; then `hello there` likewise, and the queue holds both in order |
| Scenarios.SplitReadIsReassembled | daceiver/DataReceiver.py:150-159 | `he` then `llo` with the end character yield the one record `hello` |
| Scenarios.TwoMessagesInOneChunkAsWritten | daceiver/DataReceiver.py:150-155 | a read holding two terminated messages adds only the first; the second, end character included, stays pending |
| Scenarios.TwoMessagesInOneChunkCorrected | daceiver/DataReceiver.py:150-155 | the corrected framer splits both messages off such a read |
| Scenarios.MergedRecordAsWritten | daceiver/DataReceiver.py:150-159 | reads `hello\x03world\x03` then `x\x03` give the records `hello` and `world\x03x` |
| Scenarios.MergedRecordCorrected | daceiver/DataReceiver.py:150-159 | the corrected framer gives `hello`, `world` and `x` on those reads |
| Scenarios.SplitEndCharacterAsWritten | daceiver/DataReceiver.py:151 | a two-byte end character split across two reads completes no record |
| Scenarios.SplitEndCharacterCorrected | daceiver/DataReceiver.py:151 | the corrected framer completes the record on those reads |

## Variant lines

Each member of the table above cites daceiver/DataReceiver.py. The same
operations sit at these lines of the other two variants:

| member | src/daceiver/daceiver.py | daceiver.py |
|---|---|---|
| DataQueue.DataReceiver.constructor | 21-25 | 19-23 |
| DataQueue.DataReceiver.Add | 33-35 | 31-33 |
| DataQueue.DataReceiver.PeakAll | 37-38 | 35-36 |
| DataQueue.DataReceiver.PeakRight | 40-41 | 38-39 |
| DataQueue.DataReceiver.PeakLeft | 43-44 | 41-42 |
| DataQueue.DataReceiver.Clear | 46-48 | 44-46 |
| DataQueue.DataReceiver.PopRight | 50-51 | 48-49 |
| DataQueue.DataReceiver.PopLeft | 53-54 | 51-52 |
| DataQueue.DataReceiver.Len | 56-57 (`len`) | 54-55 (`len`) |
| SocketReceiving.SocketReceiver.constructor | 88-95, confirmation off | not modelled |
| SocketReceiving.SocketReceiver.ReceiveChunk | 116-125 without lines 120 and 122, confirmation off | not modelled |
| SocketReceiving.SocketReceiver.ServeConnection | 112-127 without lines 120 and 122, confirmation off | not modelled |

## Left out

- Threads and locks are not modelled: `Thread`, `join` and the `Lock` around each queue operation. Each operation is one atomic step. The lock calls at src/daceiver/daceiver.py:120 and 122 are left out with them. There `locked()` only queries the lock, so `release()` runs on a lock nobody acquired and raises `RuntimeError` right after the first record is added, ending that variant's reader thread. The model treats that loop as if both calls were absent, so for that variant it describes the loop the code evidently intends rather than one that stops after its first record.
- Sockets are not modelled: `bind`, `listen`, `accept` and `close`. `recv` is the given sequence of chunks; `send` is a `Sent` event in the returned log.
- `start`, `stop` and `is_running` are not modelled. The loop runs once per given chunk, and stopping is the end of that sequence. The src variant never starts its thread (src/daceiver/daceiver.py:106).
- `block_size` and `port` are not modelled, because chunk sizes are whatever the given chunks are.
- `HTTPReceiver` and its Flask and `multiprocessing` plumbing are not modelled.
- The `SocketReceiver` of daceiver.py (lines 83-105) is not modelled, because it is an unfinished UDP/TCP loop that frames nothing.
- `print`, the `__main__` blocks and `DataQueue.__str__` are not modelled.
- A negative `maxlen`, for which the deque raises `ValueError`, is excluded by the type `Option<nat>`.
- Items of any Python type are a type parameter `T` of the queue; records are byte sequences.
- The queue is a field and the event log a result, so the order of an `add` and its `send` is stated through the log's `Added` event, which each method appends right after the `add`; the time at which another thread reads the queue is not modelled.
- SocketReceiving.SocketReceiver.ReceiveChunkReassembling: requires a non-empty end character, because with an empty one the corrected split would never end; the code as written handles that case (see `Framing.EmptyDelimiterEmitsEveryStep`).
- SocketReceiving.SocketReceiver.ServeConnectionReassembling: requires a non-empty end character for the same reason; the loop as written, `SocketReceiving.SocketReceiver.ServeConnection`, covers the empty one.

## Findings

| source | as written | input that shows it | evidently intended | confidence | as-written member | corrected member |
|---|---|---|---|---|---|---|
| daceiver/DataReceiver.py:150-155 | only the first end character of each read is handled; the rest of the read, further end characters included, becomes pending and is never searched again | end character `\x03`, reads `hello\x03world\x03` then `x\x03`: the queue gets `hello` and `world\x03x` | every complete record is added: `hello`, `world`, `x` | high, not executed | Scenarios.MergedRecordAsWritten | Scenarios.MergedRecordCorrected |
| src/daceiver/daceiver.py:116-125 | read without the lock calls at lines 120 and 122 (see "Left out"), the same single search per read, without confirmation | end character `\x03`, one read `m1\x03m2\x03`: only `m1` is added, and `m2\x03` stays pending | both `m1` and `m2` are added | high, not executed | Scenarios.TwoMessagesInOneChunkAsWritten | Scenarios.TwoMessagesInOneChunkCorrected |
| daceiver/DataReceiver.py:151 | only the new read is searched, never the pending bytes joined to it | end character `\r\n`, reads `hi\r` then `\n`: no record | the record `hi` | high, not executed | Scenarios.SplitEndCharacterAsWritten | Scenarios.SplitEndCharacterCorrected |

The corrected framer, `Reassembly.SplitAll` run by `Reassembly.FrameAll`, has these proved properties:

- It loses nothing (`Reassembly.SplitAllConserves`).
- Its records hold no end character (`Reassembly.SplitAllFree`).
- It does not depend on how the stream is cut into reads (`Reassembly.FrameAllIsSplitOfStream`).

`SocketReceiving.SocketReceiver.ServeConnectionReassembling` runs it against the queue.

The loop as written gives the same result when the end character is one byte and no read holds it twice (`Reassembly.FrameAgreesOnOneRecordPerChunk`). That is the case the test suite exercises.
