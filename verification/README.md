# complex-fibonacci: job intake and result reconciliation

A model of the core of a small distributed Fibonacci calculator. An HTTP
server accepts a Fibonacci index. It writes a placeholder for that index into
the Redis hash `values`, publishes the index on the Redis channel `insert`,
and appends it to the Postgres table `values`. A worker subscribed to the
channel parses each payload, computes `fib` of it, and overwrites the
placeholder with the result.

The three backends are the fields of one class, `Stores.Backends`:
- `table: map<int, Value>` is the Redis hash. Its fields hold `Placeholder` (the text `"Nothing yet!"`) or `Computed(n)`.
- `published: seq<string>` is every payload published on `insert`, in order.
- `log: seq<int>` is the rows of the Postgres table.

Each Redis or Postgres command is one method of that class. The server's
handler `Server.Submit` and the worker's handler `Worker.Handle` are methods
that call those commands in the source's order. Each is proved against a
function of the old state (`Server.Decide`/`Server.AfterSubmit`,
`Worker.AfterHandle`), and the protocol's properties are lemmas about those
functions.

Go details that are modelled explicitly:
- `strconv.Atoi` accepts an optional sign and one or more decimal digits, and only values in the 64-bit range (`Strconv.Atoi`).
- The Redis client sends an `int` argument as its decimal text (`Strconv.Itoa`), so the worker receives a string and parses it back.
- Go's `int` is 64 bits and `+` wraps around. `Kernel.Fib64` is the worker's `fib` in that arithmetic. `Kernel.Fib` is the same recursion over unbounded integers.

Behaviour of the code that the model keeps:
- Negative indices are accepted. Only `index > 40` is refused (server/main.go:164), and `fib` of a negative index is 1.
- The intake writes the placeholder, then publishes, then inserts the log row (server/main.go:170-172).
- The log column is a Postgres `int`, which is 32 bits (server/main.go:194). An accepted index below -2^31 gets its placeholder and its notification. Its `INSERT` then fails, the error is ignored, and no row is added (`Server.AcceptedButNotLogged`).
- A non-numeric index makes the handler panic (server/main.go:161-163). `net/http` recovers the panic and the request ends with no backend call. The model returns `Rejected(InvalidIndex)` with the state unchanged.
- A payload that does not parse makes the worker's goroutine panic (worker/main.go:70-72). In Go that ends the whole worker process, not only the one handler. The model keeps only the effect on the backends: nothing is written.

## Model

| member | source | states |
|---|---|---|
| GoInt.Wrap | worker/main.go:16 | the result of Go `int` arithmetic is always within the 64-bit range |
| GoInt.WrapAdd | worker/main.go:16 | wrapping after each addition gives the same result as wrapping once at the end |
| Strconv.Atoi | server/main.go:160 | a parsed index always fits in a Go `int` |
| Strconv.AtoiExamples | server/main.go:160-163 | `"abc"`, `""`, `"-"`, `" 5"` and `"4_0"` are refused; `"+7"` and `"007"` give 7; `"-3"` gives -3 |
| Strconv.Itoa | server/main.go:171 | the text the Redis client sends for an `int`: a leading `-` exactly for negative values, then the digits of the magnitude with no leading zero |
| Strconv.AtoiItoa | worker/main.go:69 | the payload the server publishes for `n` parses back to exactly `n` for every 64-bit `n`, and to an error outside that range |
| Kernel.Fib | worker/main.go:12-17 | the reference sequence over unbounded integers; every term is at least 1 |
| Kernel.Fib64 | worker/main.go:12-17 | the worker's `fib` always returns a 64-bit `int` |
| Kernel.FibValues | worker/main.go:12-17 | fib(0) = fib(1) = fib(-5) = 1, fib(10) = 89, fib(20) = 10946, fib(40) = 165580141 |
| Kernel.FibMonotone | worker/main.go:12-17 | i <= j implies fib(i) <= fib(j) |
| Kernel.Fib64Wraps | worker/main.go:12-17 | the 64-bit recursion equals the true term wrapped to 64 bits |
| Kernel.NoOverflowUpTo40 | worker/main.go:12-17 | for every index up to 40 the term lies in [1, 165580141], so the worker's 64-bit result is the true term |
| Kernel.ComputeFib | worker/main.go:12-17 | an iterative two-accumulator loop returns the same value as the recursive `fib` for every index |
| Stores.Render | server/main.go:170 | the text a hash field holds is the placeholder text exactly when the field holds the placeholder, since no number is spelled `"Nothing yet!"` |
| Stores.RenderDistinguishes | server/main.go:170 | the placeholder text `"Nothing yet!"` does not parse as a number, and a stored result parses back to itself |
| Stores.Backends.HSet | server/main.go:170 | `HSET` upserts one field of the hash and changes nothing else |
| Stores.Backends.Publish | server/main.go:171 | `PUBLISH` appends one payload to the channel and changes nothing else |
| Stores.Backends.Insert | server/main.go:172 | `INSERT` appends one row to the log when the value fits the 32-bit column, and otherwise fails with the log unchanged; the hash and the channel never change |
| Server.Submit | server/main.go:143-179 | the handler's outcome is the decision for the request, and the backends end as that decision prescribes |
| Server.AcceptsExactly | server/main.go:160-167 | a POST whose index parses to n is accepted exactly when n <= 40, so every negative index is accepted |
| Server.RejectionHasNoEffect | server/main.go:160-178 | a request that is not a POST, an index that does not parse, or an index above 40 is rejected for that reason, and the hash, the channel and the log are all unchanged |
| Server.AcceptanceEffects | server/main.go:169-172 | accepting n sets field n to the placeholder and leaves the other fields unchanged; it appends one payload, which parses to n; it appends the log row n unless n is below the 32-bit column range, in which case the log is unchanged |
| Server.AcceptedButNotLogged | server/main.go:164-172 | every 64-bit index below -2^31 is accepted, gets its placeholder and its notification, and leaves the log unchanged |
| Server.LogRecordsAcceptedRequests | server/main.go:172 | after any sequence of decisions the log has grown by exactly the accepted indices that fit the column, in order |
| Server.ChannelCarriesAcceptedRequests | server/main.go:171 | after any sequence of decisions the channel has grown by the spelling of each accepted index, in order, one payload per accepted request |
| Server.LogCountsAcceptedRequests | server/main.go:164-172 | when no accepted index is below the column range, N accepted requests add exactly N log rows |
| Server.FetchAll | server/main.go:82-90 | the listing returns exactly the log rows, in stored order |
| Worker.Handle | worker/main.go:63-80 | the handler leaves the backends as the handling function prescribes for its payload |
| Worker.HandleEffects | worker/main.go:69-79 | a payload parsing to n sets field n to the worker's fib(n) and leaves other fields, the channel and the log unchanged; an unparsable payload changes nothing |
| Worker.HandleIdempotent | worker/main.go:75-79 | handling the same payload twice gives the same state as handling it once |
| Worker.HandlersCommute | worker/main.go:62-80 | two handlers give the same final state in either order of completion |
| Protocol.EmptyConsistent | server/main.go:193-198 | empty backends satisfy the consistency invariant |
| Protocol.SubmitPreservesConsistent | server/main.go:169-172 | every request keeps the invariant: every payload is the spelling of an index of at most 40, every log row and hash field has its payload published, and every hash field holds the placeholder or the true term |
| Protocol.HandlePublishedPreservesConsistent | worker/main.go:69-79 | handling any payload the server published keeps the invariant, so the live view never shows a wrong or overflowed value |
| Protocol.SubmitThenHandle | worker/main.go:63-80 | after an accepted submission of n and handling of the payload it published, the hash holds fib(n) for n |
| Protocol.DuplicateSubmissionsConverge | worker/main.go:75-79 | submitting n twice gives two notifications (and two log rows when n fits the column), and handling both leaves fib(n) in the hash |

## Left out

- HTTP routing, `ListenAndServe`, CORS, `helloWorldHandler` and the writing of responses are I/O. The model's outcome stands in for the response.
- Reading the request body and JSON decoding and encoding are not modelled. The `index` field of the body is the model's input. A missing field decodes to `""`, which `Atoi` refuses.
- `fetchRedisDataHandler` only serializes the whole hash as JSON. Its result is the `table` field.
- Creating the Redis and Postgres clients, their pools, environment configuration and `setupPostgres` are foreign libraries and environment. The backends start empty (`Stores.Backends.constructor`).
- Errors returned by `HSET`, `PUBLISH` and `INSERT` are ignored by the source. Apart from an `INSERT` of a value outside the 32-bit column, which fails for every such value (`Stores.Backends.Insert`), the model assumes every backend call succeeds. It leaves out connection loss and other outages.
- An error from the log query is ignored by the source. A `Scan` failure panics. The model reads the rows without failure.
- Goroutines, channels and the subscription loop are not modelled. Neither are broadcast delivery to several workers, payloads dropped when no worker is subscribed, and races between handlers. Each handler runs as one atomic step. `published` records every payload whether or not a worker receives it. `Worker.HandlersCommute` covers the order in which two handlers finish. A worker handling its payload before the server's placeholder write is not covered.
- The worker's type assertions on the Redis reply array are a wire-format detail. The handler receives the payload string directly.
- Anyone may publish on `insert`, so a payload need not come from the server. `Worker.Handle` accepts any payload and at once stores the 64-bit `fib`, which wraps around above index 91. The source's recursive `fib` takes exponential time, so in practice it does not return for indices much above 60. For very large indices it exhausts the goroutine stack, a fatal error that ends the worker. The model does not capture running time or stack depth. The consistency lemmas cover only payloads the server published.
