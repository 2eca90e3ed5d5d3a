# Request queue, admission policies and request classification of a small threaded web server

This project models, in Dafny, the core of a small multi-threaded HTTP
server written in C. An acceptor thread puts each new connection into a
fixed-capacity circular buffer of `Request` records (descriptor and arrival
time), and worker threads take them out. When the buffer is full, a
scheduling policy named on the command line (`block`, `dt`, `dh`, `random`)
decides what happens to the new connection. A worker hands each dequeued
connection to `requestHandle`. That function contains the URI
classification: a file under `./public/`, the CGI arguments, and the choice
between static serving and running a CGI program. The worker passes a NULL
statistics pointer (server.c:56), so `requestHandle` returns at
request.c:197-200 before it reads the request. The classification is
therefore modelled as `requestHandle` past that early return, a path the
server as written never takes.

- `ring.dfy` (module `Ring`): the queue's data fields as a value
  (`RingState`), one function per queue operation, and the lemmas: the ring
  invariant, FIFO order, and what a random drop does.
- `queue.dfy` (module `Queue`): the queue as a class over an `array<Request>`.
  Its methods update `front`, `rear`, `size` and the slots in place. Each
  method is proved to perform exactly the transition of the matching
  `Ring` function.
- `server.dfy` (module `Server`): the acceptor's admission step and the
  worker's guarded dequeue, both as written. Lemmas cover each policy.
  There is also a corrected admission step (see Findings).
- `requests.dfy` (module `Requests`): `strstr` with its meaning proved,
  `requestParseURI`, `requestGetFiletype`, `isStaticRequest`, the "REAL"
  test of `getRequestType`, and the static/dynamic choice of
  `requestHandle`.
- `wrappers.dfy`: an `Option` type.

The buffer's ring invariant is `0 <= size <= capacity`,
`0 <= front < capacity`, and `(rear + 1) % capacity == (front + size) % capacity`.
The logical contents are the `size` slots counted from `front`, wrapping
around the end of the buffer. Two code paths break this invariant: a random
drop, and an enqueue into a full buffer. For that reason the operations only
require the weaker `WellFormed` bounds, and the model follows the program
into the broken states.

## Model

| member | source | states |
|---|---|---|
| `Ring.Enqueue` | queue.c:20-24 | enqueue keeps the buffer bounds whatever the size, even past capacity |
| `Ring.Dequeue` | queue.c:26-35 | dequeue on a non-empty buffer keeps the buffer bounds |
| `Ring.DropRandom` | queue.c:56-64 | the random drop keeps the buffer bounds |
| `Ring.Head` | queue.c:31 | the request `dequeue` returns is the oldest of the contents |
| `Ring.ShiftedLeft` | queue.c:60-62 | after the shift loop, the slots below the start are unchanged, each slot from the start up to the end takes its right neighbour's value, and the slots from the end on are unchanged |
| `Ring.DropAt` | queue.c:56-64 | the corrected drop keeps the bounds, the capacity and `front`, and shrinks a non-empty buffer by one |
| `Ring.EnqueueAppends` | queue.c:20-24 | with room in the buffer, enqueue appends the request to the contents and keeps the ring invariant |
| `Ring.EnqueueOnFullOverwritesHead` | queue.c:20-24 | enqueue into a full buffer overwrites the oldest request; size becomes capacity + 1 and the contents are new, old tail, new |
| `Ring.DequeueTakesHead` | queue.c:26-35 | dequeue yields the oldest request, the contents become the old tail, and the ring invariant is kept |
| `Ring.DropRandomAtFrontZero` | queue.c:56-64 | when `front` is 0, the drop removes exactly the request at position `rand() % size` and keeps the rest in order |
| `Ring.DropRandomBreaksRing` | queue.c:56-64 | the drop never moves `rear`, so with more than one slot it always breaks the ring invariant |
| `Ring.DropRandomWrappedDuplicates` | queue.c:56-64 | on wrapped contents a, b, c the drop leaves b, b: it is not a removal |
| `Ring.DropAtKeepsRing` | queue.c:56-64 | the corrected drop moves `rear` back and keeps the ring invariant |
| `Ring.DropAtRemovesOne` | queue.c:56-64 | the corrected drop removes exactly the request at logical position `rand() % size`, keeps the others in order, and keeps the ring invariant wherever `front` is |
| `Ring.EnqueueAll` | queue.c:20-24 | repeated enqueues keep the bounds and add one to the size per request |
| `Ring.DrainAll` | queue.c:26-35 | repeated dequeues until empty yield as many requests as the size |
| `Ring.EnqueueAllAppends` | queue.c:20-24 | enqueues that fit append the requests to the contents in order and keep the ring invariant |
| `Ring.DequeueDropsFirst` | queue.c:26-35 | in every well-formed state, over-full and broken ones included, a dequeue removes exactly the first of the contents and keeps the rest in order |
| `Ring.DrainAllYieldsContents` | queue.c:26-35 | in every well-formed state, over-full and broken ones included, dequeuing until empty yields exactly the contents, oldest first |
| `Ring.FifoOrder` | queue.c:20-35 | requests enqueued into an empty buffer come out in the order they went in |
| `Queue.RequestQueue.constructor` | queue.c:5-18 | `initQueue`: capacity as given, size 0, front 0, rear -1, empty contents, ring invariant holds |
| `Queue.RequestQueue.Enqueue` | queue.c:20-24 | the in-place enqueue has exactly the effect of `Ring.Enqueue`; it changes no slot other than the new `rear` |
| `Queue.RequestQueue.Dequeue` | queue.c:26-35 | on an empty buffer it takes the error exit and changes nothing; otherwise it returns the slot at `front` and has the effect of `Ring.Dequeue` |
| `Queue.RequestQueue.IsFull` | queue.c:38-40 | true exactly when the contents fill the capacity |
| `Queue.RequestQueue.IsEmpty` | queue.c:42-44 | true exactly when the contents are empty |
| `Queue.RequestQueue.DropRandom` | queue.c:56-64 | the in-place shift loop has exactly the effect of `Ring.DropRandom`; front and rear are untouched |
| `Server.AdmitStep` | server.c:92-121 | the admission step keeps the buffer bounds and the capacity; the request is admitted unless the buffer is full under `block` or `dt`, and a request that is not admitted leaves the queue unchanged |
| `Server.Admit` | server.c:92-121 | the in-place admission step has exactly the effect and outcome of `AdmitStep` |
| `Server.WorkerTake` | server.c:45-49 | a worker waits on an empty queue; otherwise it takes the head, never reaching the error exit of `dequeue` |
| `Server.AdmitWithRoomAppends` | server.c:95-119 | when the buffer is not full, every policy appends the request at the tail and keeps the ring invariant |
| `Server.AdmitBlockWaits` | server.c:96-100 | `block` on a full buffer: the acceptor waits and the queue is unchanged |
| `Server.AdmitBlockAfterDequeue` | server.c:96-100 | `block`: after a worker's dequeue, the retried admission appends the request behind the survivors |
| `Server.AdmitDropTail` | server.c:102-107 | `dt` on a full buffer: the request is rejected and the queue is unchanged |
| `Server.AdmitDropHead` | server.c:108-110 | `dh` on a full buffer: the oldest request goes, the new one is appended, and the buffer stays full and consistent |
| `Server.AdmitRandomTakesHeadSlot` | server.c:112-114 | `random` on a full buffer: the new request lands in the head slot and is served first; with two or more slots the ring invariant is broken |
| `Server.AdmitRandomScrambles` | server.c:112-114 | with two slots holding a, b, a random drop of index 0 and then c leave c, b |
| `Server.AdmitUnknownPolicyOverfills` | server.c:95-119 | any other policy string on a full buffer falls through to enqueue: size becomes capacity + 1 and the contents are new, old tail, new |
| `Server.DropTailExample` | server.c:102-107 | `dt` with one slot and requests a, b: a is kept and b is rejected |
| `Server.DropHeadExample` | server.c:108-110 | `dh` with two slots and requests a, b, c: the queue ends up holding b, c |
| `Server.DropHeadScenario` | server.c:108-119 | on the queue object, `dh` with two slots admits a, b, c, and the workers then take b and c |
| `Server.ParsePolicy` | server.c:96-112 | reading the policy string yields a policy exactly for the four known names, and that policy's name is the string |
| `Server.ParsePolicyRoundTrip` | server.c:96-112 | each policy's name reads back as that policy |
| `Server.AdmitFixed` | server.c:95-119 | the corrected admission never fills the buffer past its capacity; it admits unless the buffer is full under `block` or `dt`, and a request that is not admitted leaves the queue unchanged |
| `Server.AdmitFixedKeepsRing` | server.c:95-119 | the corrected admission keeps the ring invariant under every policy; an admitted request is appended behind the survivors in FIFO order |
| `Requests.Find` | request.c:67 | `strstr`: the result is the first occurrence of the pattern, or none when the pattern does not occur |
| `Requests.Contains` | request.c:72 | `strstr(...) != NULL` holds exactly when the pattern occurs somewhere |
| `Requests.FindChar` | request.c:81 | `index(uri, '?')`: the result is the first '?', or none when there is no '?' |
| `Requests.ParseUri` | request.c:64-92 | every filename starts with "./public/"; the result is dynamic exactly when the URI contains "cgi" and not ".." |
| `Requests.ParseUriDotDot` | request.c:67-70 | a ".." URI gives "./public/home.html" and static; cgiargs and the URI are untouched |
| `Requests.ParseUriPlain` | request.c:72-78 | without ".." or "cgi": empty cgiargs, static, filename "./public/" + URI, plus "home.html" exactly when the URI ends in '/' |
| `Requests.ParseUriCgi` | request.c:80-91 | a CGI URI is cut at its first '?': prefix + "?" + cgiargs gives back the URI, and the filename is "./public/" + prefix; without '?' cgiargs is empty |
| `Requests.Filetype` | request.c:97-106 | first match in the order .html, .gif, .jpg, defaulting to text/plain, each case in both directions |
| `Requests.FiletypeHtmlBeforeGif` | request.c:98-99 | a name containing both ".gif" and ".html" is text/html |
| `Requests.IsStaticRequest` | request.c:172-178 | true exactly when the URI contains one of .html, .jpg, .png, .gif, .css, .js |
| `Requests.IsVipLine` | request.c:190 | true exactly when the first request line contains "REAL" |
| `Requests.Dispatch` | request.c:243-269 | a missing file is a 404; otherwise the extension test, not the parser's return value, picks static or dynamic, on the parser's filename and cgiargs |
| `Requests.DotDotServedDynamic` | request.c:244-260 | a ".." URI without a static extension is parsed as static but run as a CGI program: home.html, with the caller's untouched argument buffer |

## Findings

| source | as written | input that shows it | evidently intended | confidence | as-written member | corrected member |
|---|---|---|---|---|---|---|
| queue.c:56-64 | `dropRandomRequest` shifts the physical slots 0..size-1 and never moves `rear`. The next `enqueue` (server.c:119) therefore writes into the head slot. | capacity 2 holding a, b with front 0, `rand()` = 0, new request c: the queue holds c, b and serves c, then b (serving order by `Ring.DrainAllYieldsContents`) | remove the request at a random logical position, keep the others in order, and append the new one behind them (b, c) | high; not executed | `Server.AdmitRandomScrambles` | `Ring.DropAtRemovesOne` |
| server.c:95-119 | a policy string other than `block`, `dt`, `dh`, `random` falls through to `enqueue` on a full buffer | schedalg "fifo", capacity 1 holding a, new request b: size becomes 2 and the queue yields b, then b again (serving order by `Ring.DrainAllYieldsContents`); a is lost | an unknown policy is refused, and a full buffer is never written past | medium; not executed | `Server.AdmitUnknownPolicyOverfills` | `Server.AdmitFixedKeepsRing` |

## Left out

- Threads, the queue mutex, the `not_empty`/`not_full` condition variables and `stat_lock` are not modelled. Each admission and each worker take is one atomic step, as it is under the mutex. A `block` wait is the outcome `MustWait` with the queue unchanged: the acceptor retries after a dequeue.
- The worker's infinite loop and thread creation are left out. `worker_thread` is modelled only as its guarded dequeue.
- Socket and file I/O are left out: `Accept`, `Open_listenfd`, `Close`, the `Rio_*` calls, `requestReadhdrs`, `requestError`, `requestServeStatic` (mmap) and `requestServeDynamic` (fork/execve), with the response headers they write. `Dispatch` stops at the choice of action.
- `stat` is the set `files` of existing file names.
- `rand()` is a parameter `rnd >= 0`, of which the model takes `rnd % size` as the code does. `gettimeofday` values are opaque `TimeVal` records.
- `initQueue`'s allocation failure exit and `destroyQueue` are left out.
- `getargs` (argument count check, `atoi`) is left out. `Queue.RequestQueue.constructor` requires a positive capacity, because with 0 every `%` in the code divides by zero.
- `requestHandle`'s early returns are left out: a NULL statistics pointer, which the worker always passes (server.c:56), a non-positive descriptor, and a failed read. The GET check is left out too. Statistics are never counted in this code, so none are modelled.
- `Requests.Dispatch`: as written, the server never reaches this choice. The worker passes a NULL statistics pointer (server.c:56), so `requestHandle` returns at request.c:197-200 and every connection is closed without a response. `Dispatch` and the parsing it uses model `requestHandle` as if that early return were not taken.
- `getRequestType` is never called from server.c, so only its "REAL" test on the line text is modelled; its socket read is left out.
- The admission step compares the policy string against four names only (server.c:96-112); `Server.ParsePolicy` recognises exactly those.
- The `isStaticRequest(int fd)` prototype in request.h disagrees with the definition. The model follows the definition, which takes the URI.
- Fixed-size C buffers (`MAXLINE`) and the overflow of `sprintf`/`strcpy` into them are not modelled. Strings are unbounded.
- `size` is an unbounded integer. Repeated overfilling under an unknown policy would eventually overflow the C `int`, and the model does not capture that.
- `Ring.DropRandom` requires `size <= capacity`, because the shift loop would otherwise read past the buffer. The admission step only drops from an exactly full buffer.
- `Requests.ParseUri` requires a non-empty URI, because the branch without "cgi" reads `uri[strlen(uri) - 1]`.
