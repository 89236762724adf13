# A verified model of a Rust worker pool and its HTTP front ends

The repository is a small HTTP server written while learning Rust. This
project models two parts of it in Dafny:

- **The thread pool** of `src/lib.rs`. `ThreadPool::new` spawns a fixed
  number of workers, named `worker-0`, `worker-1`, and so on. They share the
  receiving end of one channel. `execute` sends a `NewJob` message. Each
  worker loops: it takes the next message, runs the job, and stops on
  `Terminate`. `drop` first sends one `Terminate` per worker and only then
  joins the workers one by one. The model treats this as a sequential state
  machine. The `Pool.ThreadPool` class holds the worker array, the channel's
  queue and the log of executed jobs, and its methods change them in place.
  Each method is proved against the pure state machine in `PoolSpec`.
  Running threads become a scheduler's choice of which running worker takes
  the next message. Jobs are opaque ids. A job runs on the worker that
  receives its message, so "the order jobs run" below means the order in
  which they are received (started); when jobs on different workers finish
  is not modelled.
- **Request routing** in the two `handle_connection` functions. The one in
  `src/main.rs` answers only `GET /`. The one in `src/bin/main.rs` also
  answers `GET /sleep`. Both read the request into a zeroed 512-byte buffer
  and pick a `(status, filename)` pair by byte-prefix matching. The response
  is the status line followed by the file's contents. Modules `Http`,
  `BasicServer` and `SleepServer` model this pure part.

Files: `format.dfy` (decimal rendering used in worker names),
`pool_spec.dfy` (state machine and its lemmas), `pool.dfy` (the class),
`http.dfy` (shared routing pieces), `basic_server.dfy` (`src/main.rs`),
`sleep_server.dfy` (`src/bin/main.rs`).

The main results:

- **Invariant** (`PoolSpec.Inv`, kept by every step). The dequeued messages
  followed by the queue are exactly the sent messages. So messages are
  consumed in FIFO order, and each is consumed at most once. The executed log
  is the jobs among the consumed messages, in order. A worker has stopped
  exactly when it consumed a `Terminate`, and it consumes nothing after that.
- **Drain theorem.** Start with every worker running and a queue of k jobs
  followed by one `Terminate` per worker. Then any schedule that empties the
  queue has received each job exactly once, in submission order, and stops
  every worker. While draining, some worker runs for as long as messages
  remain. This is the
  deadlock-avoidance argument in the comment at `src/lib.rs:109-111`. The
  opposite case is proved too: joining right after one `Terminate` can block
  forever.
- **`Drop`** is proved to terminate, for any choice the scheduler makes,
  including workers taking messages between the `Terminate` sends.
  Afterwards every worker has stopped and every handle has been taken.
  Every job queued before the drop has been received exactly once, in
  submission order.

Where the comments disagree with the code, the model follows the code. The
doc comment on `new` says it panics on size 0, but the code returns
`Err(PoolCreationError)`. The error's display text says "Size must be > 1",
but the code rejects only 0, so a pool of one worker is accepted.

## Model

| member | source | states |
|---|---|---|
| `PoolSpec.Create` | src/lib.rs:82-93 | size 0 gives `Err(PoolCreationError)`. Otherwise there are exactly `size` workers. The i-th is named `WorkerName(i)`, is running and holds its handle. The queue and the executed log are empty. The state satisfies `Inv` and `Serving`. |
| `Pool.ThreadPool.New` | src/lib.rs:82-93 | Returns `Err` exactly when size is 0. Otherwise it returns a fresh pool whose state is `Create(size)`. |
| `Pool.ThreadPool.Spawned` | src/lib.rs:86-92 | The `for` loop fills a fresh array of `size` workers with `Spawn(0)` … `Spawn(size-1)`, in order. The channel starts empty. |
| `Format.NatToString` | src/lib.rs:90 | `format!("{}", i)` gives at least one character, all of them decimal digits, with no leading zero. |
| `Format.ParseNatToString` | src/lib.rs:90 | Parsing the decimal rendering of n gives n back. |
| `Format.NatToStringInjective` | src/lib.rs:90 | Different numbers render differently. |
| `PoolSpec.WorkerNameIndex` | src/lib.rs:90 | `WorkerName(i)`, the name `format!("worker-{}", i)`, is `worker-` followed by digits from which i is read back. |
| `PoolSpec.Spawn` | src/lib.rs:32-65 | A new worker is named `WorkerName(i)`, is running and holds its thread handle (`thread: Some(thread)` at src/lib.rs:61-64). |
| `PoolSpec.WorkerNamesDistinct` | src/lib.rs:89-90 | Workers `worker-i` and `worker-j` have different names whenever i ≠ j. |
| `PoolSpec.SendAll` | src/lib.rs:100 | Sending appends the messages at the back of the queue and to the sent log. Earlier queued messages, the workers, the deliveries and the executed log are unchanged. `Inv` is preserved. |
| `PoolSpec.Execute` | src/lib.rs:95-101 | The queue and the sent log each grow by exactly one `NewJob(job)` at the back, and nothing else changes. `Inv` and `Serving` are preserved. |
| `Pool.ThreadPool.Send` | src/lib.rs:100 | The object's new state is `SendAll(old state, [m])`. |
| `Pool.ThreadPool.Execute` | src/lib.rs:95-101 | The object's new state is `PoolSpec.Execute(old state, job)`: one `NewJob(job)` joins the back of the queue, and a serving pool stays serving. |
| `PoolSpec.Step` | src/lib.rs:35-47 | A step takes only the head of the queue. The delivery log records which worker took it. The step never changes the number of workers, their names, their handles, other workers or the sent log. A stopped worker stays stopped. A stopped worker, or an empty queue, changes nothing. |
| `Pool.ThreadPool.WorkerStep` | src/lib.rs:35-47 | One pass of the run loop moves the object to `Step(old state, w)`. It keeps `Valid`. |
| `PoolSpec.TakeKeepsLog` | src/lib.rs:36-41 | Taking the head of the queue keeps "delivered messages followed by the queue = sent messages", and the executed log stays the jobs of the delivered messages. |
| `PoolSpec.TakeKeepsStops` | src/lib.rs:42-45 | After a take, a worker has stopped exactly when it received a `Terminate`, and no worker receives anything after its `Terminate`. |
| `PoolSpec.StepPreservesInv` | src/lib.rs:35-47 | Every step keeps `Inv`. The queue stays FIFO and at-most-once. A job is logged when its message is dequeued. A `Terminate` stops exactly the worker that took it. |
| `PoolSpec.RunPreservesInv` | src/lib.rs:35-47 | Any schedule of steps keeps `Inv`. |
| `PoolSpec.StepPreservesServing` | src/lib.rs:35-47 | Before `drop`, a step keeps every worker running with its handle and only jobs queued. |
| `PoolSpec.RunPreservesServing` | src/lib.rs:35-47 | Any schedule of steps before `drop` keeps the pool serving. |
| `PoolSpec.RunExtendsHistory` | src/lib.rs:36 | Later receives only extend the delivery log, so no message is received twice. The sent log and the worker count do not change. Stopped workers stay stopped. |
| `PoolSpec.ConsumedInSendOrder` | src/lib.rs:36 | FIFO: the k-th receive took the k-th message sent. The queue holds the later messages in order. |
| `PoolSpec.ServeAlone` | src/lib.rs:35-47 | A worker's loop run on its own never changes the number of workers. |
| `PoolSpec.ServeAloneRunsUntilTerminate` | src/lib.rs:35-47 | A running worker left alone runs the queued jobs in order up to the first `Terminate`. It takes that `Terminate` and stops, and the messages after it stay queued. If no `Terminate` is queued, it runs every job and then blocks on the empty queue, still running. |
| `Pool.ThreadPool.Serve` | src/lib.rs:35-47 | The `loop` moves the object to `ServeAlone(old state, w)`. |
| `PoolSpec.SignalAll` | src/lib.rs:107-112 | The first loop of `drop` with no worker scheduled in between appends exactly `|workers|` `Terminate` messages behind the queued jobs, to the queue and to the sent log. Nothing else changes. |
| `PoolSpec.SignalAllStartsDrain` | src/lib.rs:107-112 | From a serving pool, once every `Terminate` has been sent, the state has the draining shape with none left to send: the pending jobs, then one `Terminate` per running worker. |
| `PoolSpec.SignalDuringQuiet` | src/lib.rs:107-112 | When no worker steps in any round, the interleaved first loop of `drop` just appends one `Terminate` per round. |
| `PoolSpec.SignalAllIsQuietSignalDuring` | src/lib.rs:107-112 | `SignalAll` is exactly the interleaved first loop with every round empty, so the quiet case is an instance of the general one. |
| `PoolSpec.ShutdownBegins` | src/lib.rs:104-107 | When `drop` starts on a serving pool, the state has the draining shape with one `Terminate` per worker still to send. |
| `PoolSpec.SendTerminateKeepsDraining` | src/lib.rs:108 | Sending one `Terminate` keeps the draining shape with one fewer left to send. |
| `PoolSpec.StepKeepsDraining` | src/lib.rs:35-47 | While draining, each step either receives the next job or, once no job is left, stops one worker on a queued `Terminate`. This holds whether or not `drop` has finished sending. |
| `PoolSpec.DrainingMakesProgress` | src/lib.rs:109-111 | While draining, messages are never left with nobody to take them: a non-empty queue means some worker is running. Once every `Terminate` is sent, a running worker is never blocked. |
| `PoolSpec.DrainingDone` | src/lib.rs:115-120 | When draining ends (empty queue, or no running worker), every pending job has been received exactly once, in submission order, and every worker has stopped. |
| `PoolSpec.RunKeepsDraining` | src/lib.rs:35-47 | Any schedule keeps `Inv` and the draining shape. |
| `PoolSpec.DrainTheorem` | src/lib.rs:107-120 | n running workers and a queue of k jobs followed by n `Terminate`s: any schedule that empties the queue logs exactly those k jobs, in submission order, and stops all n workers. |
| `PoolSpec.SignalDuring` | src/lib.rs:107-112 | The first loop of `drop` with a round of worker steps before each send never changes the number of workers. |
| `PoolSpec.SignalRoundKeepsDraining` | src/lib.rs:107-112 | A round of worker steps followed by one send keeps `Inv` and the draining shape, with one fewer `Terminate` left to send. |
| `PoolSpec.SignalDuringKeepsDraining` | src/lib.rs:107-112 | Any rounds of worker steps interleaved with the sends keep `Inv` and the draining shape. |
| `PoolSpec.ShutdownRunsEveryJob` | src/lib.rs:104-121 | Whatever steps workers take between `drop`'s sends, any later schedule that empties the queue has received every job queued before `drop`, once each and in submission order, and every worker has stopped. |
| `PoolSpec.RunBlocked` | src/lib.rs:36 | With an empty queue, no schedule changes anything: every running worker waits in `recv`. |
| `PoolSpec.EarlyJoinDeadlocks` | src/lib.rs:109-111 | Two running workers, one `Terminate` meant for worker 0: worker 1 may take it. Worker 0 then runs under every later schedule, so joining it right after one send never returns. |
| `Pool.ThreadPool.DrainStep` | src/lib.rs:35-47 | During shutdown, a step by a running worker with a message queued shrinks the queue and keeps `Valid` and the draining shape. Handles and the sent log do not change, and stopped workers stay stopped. |
| `Pool.ThreadPool.LetWorkersRun` | src/lib.rs:107-112 | Between two sends of `drop`, the scheduler may let running workers take any number of messages. This keeps `Valid` and the draining shape and changes no handle and no sent message. |
| `Pool.ThreadPool.SendTerminate` | src/lib.rs:108 | One round of the first loop of `drop`: worker steps, then one `Terminate` is sent. Afterwards one fewer is left to send, and the sent log has grown by exactly that `Terminate`. |
| `Pool.ThreadPool.SignalEveryWorker` | src/lib.rs:107-112 | The first loop of `drop` sends exactly `workers.Length` `Terminate`s, with worker steps interleaved. Afterwards the state has the draining shape with none left to send, and every handle is still held. |
| `Pool.ThreadPool.TakeHandle` | src/lib.rs:117 | `take()` reports whether there was a handle and leaves none. No other field and no running flag changes. |
| `Pool.ThreadPool.AwaitStop` | src/lib.rs:118 | `join` waits while the scheduler runs any workers. It needs a `Terminate` queued for every running worker, and it returns once worker i has stopped. It keeps `Valid` and the draining shape. Handles are unchanged, and stopped workers stay stopped. |
| `Pool.ThreadPool.Join` | src/lib.rs:115-120 | Afterwards worker i has no handle. If it had one, the worker has stopped. If it had none, nothing changed. Other handles are unchanged. |
| `Pool.ThreadPool.JoinEveryWorker` | src/lib.rs:115-120 | The second loop of `drop` joins the workers in order. Afterwards every worker has stopped and has no handle, and no message was sent. |
| `Pool.ThreadPool.Drop` | src/lib.rs:104-121 | Ends for every schedule, including worker steps between the sends. Exactly `workers.Length` `Terminate`s are sent, all before the first join. Afterwards the queue is empty. Every job queued before the drop has been received exactly once, in submission order. Every worker has stopped and kept its name, and its handle has been taken. |
| `Pool.ServeTwoConnections` | src/bin/main.rs:8-20 | A pool of 4 given one job for each of two connections, with a worker taking the first job before the second is queued, and then dropped as `main` returns: all 4 workers have stopped with no handle, the queue is empty, and the jobs received are exactly `[0, 1]`, in that order. |
| `Http.FillBuffer` | src/main.rs:15-16 | The buffer has 512 bytes. They are the bytes the one `stream.read` call returned (possibly fewer than the client sent), up to 512, then zeros. |
| `Http.FillBufferStartsWith` | src/bin/main.rs:23-24 | For a request line with no zero byte, the zero-filled buffer starts with it exactly when the bytes the one `read` call returned do. A short read never matches. |
| `Http.StartsWithWithin` | src/bin/main.rs:29-31 | A prefix test of at most n bytes depends only on the first n bytes. |
| `Http.Respond` | src/bin/main.rs:40 | The response is the status line followed by the contents, unchanged. So the status is a prefix of the response. |
| `BasicServer.Route` | src/main.rs:19-25 | The reply is always (`HTTP/1.1 200 OK \r\n\r\n`, `index.html`) or (`HTTP/1.1 400 Not found \r\n\r\n`, `404.html`). |
| `BasicServer.RouteClassifies` | src/main.rs:19-25 | The 200/`index.html` reply comes exactly when the buffer starts with `GET / HTTP/1.1\r\n`. Any other buffer gets 400/`404.html`, and so does a buffer starting `GET /sleep HTTP/1.1\r\n`. |
| `BasicServer.RouteReadsFirst16Bytes` | src/main.rs:15-20 | Two 512-byte buffers that agree on their first 16 bytes get the same reply. |
| `BasicServer.HandleConnection` | src/main.rs:14-27 | If the bytes the one `stream.read` call returned start with `GET / HTTP/1.1\r\n`, the response is the 200 status followed by `index.html`. Otherwise it is the 400 status followed by `404.html`. |
| `SleepServer.Route` | src/bin/main.rs:29-38 | The reply is always the 200/`index.html` pair or the 400/`404.html` pair. |
| `SleepServer.RequestLinesExclusive` | src/bin/main.rs:27-31 | No buffer starts with both `GET / HTTP/1.1\r\n` and `GET /sleep HTTP/1.1\r\n`, because they differ at byte 5. So the order of the two tests cannot matter. |
| `SleepServer.RouteClassifies` | src/bin/main.rs:29-38 | The 200/`index.html` reply comes exactly when the buffer starts with either request line. Every other buffer gets 400/`404.html`. |
| `SleepServer.RouteReadsFirst21Bytes` | src/bin/main.rs:23-31 | Two 512-byte buffers that agree on their first 21 bytes get the same reply. |
| `SleepServer.ExtendsBasicServer` | src/bin/main.rs:29-38 | This server replies as the one in `src/main.rs` does, except on `GET /sleep`. It serves that request, and the other server rejects it. |
| `SleepServer.HandleConnection` | src/bin/main.rs:22-40 | If the bytes the one `stream.read` call returned start with either request line, the response is the 200 status followed by `index.html`. Otherwise it is the 400 status followed by `404.html`. |

## Left out

- Threads, the `Arc<Mutex<Receiver>>` and blocking `recv`: one atomic dequeue by a running worker the scheduler picks stands for them. The lock being held only for the dequeue (src/lib.rs:49-59) is about overlapping job runs in time and is not modelled.
- Job bodies: a job is an id, logged when its message is dequeued, since it runs to completion on that worker before its next receive. A job that panics and kills its worker is not modelled.
- The `unwrap` panics on `send`, `recv`, `lock` and `join`: the model assumes all of them succeed.
- Logging (`println!`) and the `Display` text of `PoolCreationError`.
- Pool.ThreadPool.Drop: modelled only from a serving pool (every worker running, only jobs queued). Rust runs `drop` once, after the last `execute`, and only `drop` sends `Terminate`.
- Pool.ThreadPool.TakeHandle, Pool.ThreadPool.AwaitStop: `take()` and `join()` are modelled in the source's order. The join wait is the scheduler running workers until the joined one stops. The OS handle itself is a flag.
- Networking and file I/O: binding the listener, the accept loop of `src/main.rs` (it never ends, and it serves connections one at a time on the main thread, without a pool), the sockets accepted by the loop of `src/bin/main.rs` (each job is a number standing for its connection), `stream.read`/`write`/`flush`, and `fs::read_to_string`. The file system is a parameter `readFile: string -> string`, and the response is a string (its UTF-8 encoding on write is not modelled).
- `thread::sleep(Duration::from_secs(5))` on the `/sleep` route: timing only.
- HTTP conformance: the status lines are the literal strings of the source and are not checked against the HTTP/1.1 grammar.
