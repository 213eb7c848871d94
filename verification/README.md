# A verified model of a small threaded HTTP server

The server accepts TCP connections in a non-blocking loop and hands each one to
a fixed-size thread pool as a job. A job reads one request line and classifies
it by exact match. It then reads a file and writes back
`status line CRLF "Content-Length: " n CRLF CRLF body`.

This project models two sequential cores of that server and proves properties
about them:

- **Request dispatch and response framing** (`handle_connection` in
  `src/main.rs`). It is modelled as pure functions over strings and byte
  sequences.
  - `Bytes` covers ASCII encoding and decimal formatting.
  - `Framing` covers the response serialiser and a parser for it.
  - `Dispatch` covers the classifier and the connection handler.
- **The accept loop** (`main` in `src/main.rs`). Each iteration sees one event:
  the shutdown flag set, a connection, "would block", or another error. The
  loop decides to stop, submit one job, or continue. This is module `Acceptor`.
- **The thread-pool lifecycle** (`src/lib.rs`). It is an immutable-record state
  machine in module `ThreadPool`:
  - an `Option` sender slot;
  - workers, each with an id, an `Option` join-handle slot and a status;
  - a job channel: the jobs sent, a count of jobs received, and a closed flag.

  The operations are `New`, `Execute`, a single `WorkerStep`, `JoinWorker` and
  `Drop`. `RunSchedule` applies an arbitrary interleaving of worker steps.
- **`main` end to end** (`Server.Serve`): a pool of four workers, the accept
  loop, any schedule of worker turns, then the drop.

Jobs are opaque ids. A worker turn that receives a job appends its id to
`taken`, so `taken` is the order in which jobs leave the queue.

The pool invariant `ThreadPool.Valid` holds after every operation. It says:

- the size is positive;
- the ids are `0..size-1`, in order;
- the channel is closed exactly when the sender slot is empty;
- `taken` is exactly the jobs received so far, in send order, so no job is taken twice
  and none is re-queued;
- a join-handle slot is empty only once the sender has been retired and that
  worker has exited.

## Model

| member | source | states |
|---|---|---|
| Dispatch.Classify | src/main.rs:72-79 | `GET / HTTP/1.1` and `GET /sleep HTTP/1.1` both give (`HTTP/1.1 200 OK`, `hello.html`). Every other line gives (`HTTP/1.1 404 NOT FOUND`, `404.html`). The status is 200 exactly when the file is `hello.html`, and exactly when the line is one of the two recognised forms. |
| Dispatch.HandleConnection | src/main.rs:57-88 | A read error or end of stream gives no response and a non-error return. A missing file gives an error return and no response. Otherwise the written bytes are the framed response for the route's status line and the file's bytes. They parse back to that status line, a declared length equal to the file's byte length, and the file's bytes. |
| Dispatch.StatusBytes | src/main.rs:73-86 | The bytes of a status line are its characters one for one, each below 128, so both status lines are ASCII. They contain neither CR nor LF. |
| Framing.Response | src/main.rs:82-84 | The response starts with the status line and ends with the file contents. Its length is the sum of the parts. |
| Framing.SeparatorIsFirstBlankLine | src/main.rs:84 | The first `CRLF CRLF` in a response is the one after the length header, even when the body contains blank lines. |
| Framing.ResponseRoundTrip | src/main.rs:82-84 | Parsing a response gives back the status line, a `Content-Length` equal to the body's byte length, and the body. |
| Framing.HeadRoundTrip | src/main.rs:84 | Parsing the header block of a response gives back the status line and the body's byte length. |
| Framing.ParsedHeadIsHead | src/main.rs:84 | A header block parses only if it is exactly the status line, CRLF and `Content-Length: ` with the length as `{}` writes it. |
| Framing.ParsedIsResponse | src/main.rs:82-84 | Converse of the round trip: bytes that parse to a status line, a declared length equal to the body's length, and the body are exactly the response written for that status line and body. No other spelling of the header is accepted. |
| Bytes.Decimal | src/main.rs:82-84 | The formatted length is a non-empty run of digits. It has no CR or LF and no leading zero. |
| Bytes.DecimalRoundTrip | src/main.rs:82-84 | Reading the formatted length back as a decimal number gives exactly the length. |
| Bytes.DecimalInjective | src/main.rs:82-84 | Two lengths format alike exactly when they are equal. |
| Bytes.ParseDecimal | src/main.rs:84 | Reading a length back accepts exactly the numerals `{}` can write: a non-empty run of digits with no leading zero unless it is `0` itself. |
| Bytes.CanonicalIsDecimal | src/main.rs:82-84 | Every numeral the reader accepts is the formatting of the number it denotes. |
| Bytes.ParseDecimalCanonical | src/main.rs:82-84 | Converse of the decimal round trip: a numeral read back as `n` is exactly the formatting of `n`. |
| Acceptor.Decide | src/main.rs:29-51 | The flag seen set stops the loop. An accepted connection submits that connection. Would-block and other errors continue. |
| Acceptor.AcceptLoop | src/main.rs:29-51 | The loop stops exactly when some iteration sees the flag, and it stops at the first such iteration. Without the flag it consumes every event. The jobs submitted are the accepted connections before the stop, in order. |
| Acceptor.RunAppend | src/main.rs:34-49 | Iterations without the flag never end the loop. The loop carries on with the following events. |
| Acceptor.ShutdownIsFinal | src/main.rs:30-32 | After the flag is seen set, no later event is accepted or submitted. |
| Acceptor.AcceptSubmitsOne | src/main.rs:35-49 | An accepted connection submits exactly one job, at its place in the order. Would-block and failed accepts submit nothing and do not end the loop. |
| ThreadPool.New | src/lib.rs:21-35 | Requires `size > 0`. Gives exactly `size` workers with ids `0..size-1` in order, each holding a handle and running. The sender is present, the queue is empty and the invariant holds. |
| ThreadPool.Execute | src/lib.rs:37-49 | With the sender present and a worker still running, the job is appended to the queue. With the sender absent, or every receiver gone, the pool is unchanged. The result tells the cases apart, and the invariant is kept. |
| ThreadPool.WorkerStep | src/lib.rs:73-93 | A received job is the head of the queue; it leaves the queue, is recorded as taken and the worker stays alive. A lock error, or a closed and empty channel, makes the worker exit. An idle worker whose lock succeeds blocks, with no change, exactly when the channel is open and empty. A worker reports not running exactly when it has exited, and an exited worker never steps again. Other workers and the sent jobs are untouched. |
| ThreadPool.RunSchedule | src/lib.rs:73-93 | Any interleaving of worker steps keeps the invariant. It never changes the sender or the jobs sent, and an exited worker stays exited. |
| ThreadPool.JoinWorker | src/lib.rs:59-60 | Joining with the sender retired leaves that worker exited and changes no other worker. Joining a running worker drains the queue. |
| ThreadPool.OccupiedExactly | src/lib.rs:56-62 | The joined ids are exactly the workers still holding a handle. They are strictly increasing, so no worker is joined twice. |
| ThreadPool.OccupiedEmpty | src/lib.rs:59 | With every slot empty, nothing is joined. |
| ThreadPool.OccupiedFull | src/lib.rs:56-62 | With every slot occupied, every worker is joined, in creation order. |
| ThreadPool.WorkerActions | src/lib.rs:56-62 | The drop loop announces every worker once, in creation order. It joins exactly the occupied slots, in the same order, and contains no retire. |
| ThreadPool.DropWorkers | src/lib.rs:56-62 | Every visited slot ends empty with its worker exited. Earlier workers, the sender and the jobs sent are untouched. |
| ThreadPool.VisitSlot | src/lib.rs:59-61 | A handle still in its slot is taken out and joined; an empty slot is passed over. Only that slot changes, and it ends empty with its worker exited. Visiting a running worker drains the queue, and visiting an exited one leaves the channel unchanged. |
| ThreadPool.DropWorkersDrainsQueue | src/lib.rs:56-62 | If some worker the drop loop has yet to visit is still running, every queued job has been taken when the loop ends. |
| ThreadPool.DropWorkersKeepsChannel | src/lib.rs:56-62 | If every worker the drop loop has yet to visit has exited, the loop receives no job. |
| ThreadPool.DropWorkersDrains | src/lib.rs:56-62 | If a worker the drop loop visits was still running, every queued job has been taken when the loop ends. If none was running, the channel is unchanged. |
| ThreadPool.DropTrace | src/lib.rs:53-62 | When a sender is present it is retired first, and nothing else retires it. The visit and join orders are as in `WorkerActions`, and every join comes right after the announcement of the same worker. |
| ThreadPool.JoinFollowsVisit | src/lib.rs:56-62 | The drop loop prints and joins one worker at a time: every join comes right after that worker's announcement. |
| ThreadPool.Retired | src/lib.rs:54 | Dropping the sender empties its slot and closes the channel. The workers, the queue and the jobs taken are unchanged, and the invariant holds. |
| ThreadPool.Drop | src/lib.rs:52-64 | Afterwards the sender is gone, every slot is empty and every worker has exited. If a worker was still running, every job sent before the drop has been taken from the queue exactly once, in send order. |
| ThreadPool.DropTwiceJoinsNothing | src/lib.rs:54-61 | A second drop retires nothing, joins nothing and leaves the pool unchanged. |
| ThreadPool.ExecuteAfterDropIsNoOp | src/lib.rs:46-48 | Submitting after the drop leaves the pool unchanged and reports the missing sender. |
| ThreadPool.OpenChannelKeepsWorkers | src/lib.rs:73-93 | While the sender is present, a worker whose lock succeeds only takes jobs or blocks. No running worker exits, whatever the interleaving. |
| ThreadPool.DropAfterSchedule | src/lib.rs:52-93 | After any interleaving of worker turns with every lock succeeding, the drop still leaves every job sent taken from the queue exactly once, in send order. |
| Server.SubmitAll | src/main.rs:36-40 | Submitting to a live pool appends the jobs in order. With the sender gone, or every worker exited, nothing changes. |
| Server.Loaded | src/main.rs:27-41 | Once the loop has stopped, the pool has four workers, each holding a handle and running. The sender is present, and one job is queued per accepted connection, in accept order. |
| Server.Worked | src/lib.rs:52-93 | Whatever turns the workers take after the last submission, with every lock succeeding, every slot still holds its handle and the sender is present. At least one worker is still running to drain the queue at the drop, and the jobs sent are the accepted connections, in accept order. |
| Server.Serve | src/main.rs:27-54 | Defined only for runs where the loop stops at a shutdown flag, since the pool is dropped only after that `break`. Whatever turns the workers take before the drop, every connection accepted before shutdown is taken from the queue exactly once, in accept order, by the time the pool is dropped. The sender is retired first, and all four workers are joined once, in creation order. |
| Server.ShutdownStopsServing | src/main.rs:29-32 | Seeing the shutdown flag ends the loop, and connections that arrive after it are never served. |

## Left out

- Sockets are not modelled. This covers binding, `set_nonblocking`, `accept` and
  stream reads and writes. The request-line read is an input, and so are the
  accept outcomes. A failed `write_all` is not modelled; `Responded` carries the
  bytes handed to it.
- `fs::read_to_string` is an input map from file name to contents. A name
  missing from the map is a failed read; invalid UTF-8 is one such failure.
- Sleeps are not modelled: the 100 ms poll interval and the 5-second delay of
  `/sleep`. They are timing, not logic.
- The `ctrlc` handler and the `AtomicBool` memory ordering are not modelled. The
  flag is read once per iteration, as the `ShutdownSeen` event.
- Real threads, mutex poisoning, `mpsc` internals and the blocking of `join` are
  not modelled. Whether a lock succeeds is an input to `WorkerStep`.
- ThreadPool.JoinWorker: joining is modelled as the joined worker taking every
  queued job, then seeing the disconnect. This is one legal schedule. The worker
  is assumed to acquire its lock each time, and a panicking job is not modelled.
- ThreadPool.VisitSlot: Rust takes the handle out of the slot before joining
  it. The model joins first and empties the slot after. Nothing observable
  happens in between.
- A worker's turn receives its job and records it as taken in one step. The
  closure runs after the lock is released, so jobs on different workers
  overlap: a `/sleep` request accepted first can finish after a `/` request
  accepted second. `taken` is the receive order only. The model says nothing
  about when jobs start or finish relative to each other.
- Server.Serve: a run of events on which the loop never sees the flag has no
  teardown, since `main` is then still polling. Serve requires the loop to
  stop.
- Server.Serve: workers take their turns after the last submission and before
  the drop. Turns interleaved with the submissions are covered step by step by
  `WorkerStep` and `RunSchedule`, not end to end. Every lock is taken to
  succeed: the lock is held only around `recv`, so no panic can poison it.
- Logging (`println!`, `eprintln!`) is not modelled. The diagnostics of
  `execute` appear only as its result value.
- `usize` width is not modelled. Lengths and ids are unbounded naturals, since no
  in-memory length reaches the bound.
- `Execute` has a second failure path. `send` returns an error once every
  worker thread has exited, because the receiver the threads share is then
  dropped. The model follows the code here with `SendFailed`.
