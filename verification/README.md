# dnsutils in Dafny

A model of the core of `dnsutils`, a Go library for bulk DNS resolution.
Names and the record types to ask for are queued as resolution tasks.
Workers take rate-limited servers from a pool and run one query per step.
Each task becomes a `Result` once every type has an answer.

The model is sequential and functional:

- `outcomes.dfy` (`Outcomes`): `Option`, `Result` with an error, `Min`, `Max`.
- `text.dfy` (`Text`): the parts of Go's `strings` and `fmt` the code uses.
  These are `Count`, `Split`, `Join` and `Trim` for a one-character
  separator, decimal printing, and the lower-case hex digit table.
- `sorting.dfy` (`Sorting`): Go's string order and the sort `sort.Strings` performs.
- `net.dfy` (`Net`): `net.IP` as a byte sequence, `To4`, and the dotted-quad text of an IPv4 address.
- `utils.dfy` (`Utils`): `PTR` and `Subdomains`.
- `dns.dfy` (`Dns`): `Query` covers the empty-name check, the trailing-dot
  normalisation, the type tag check against the table of eight types, the
  exchange, and the per-type extraction switch. It also has `getAddr`. The
  network exchange is a function parameter: it maps the request and the
  endpoint to either a list of typed records or a transport error.
- `pool.dfy` (`Pools`): the server pool. The `ready` channel is a bounded FIFO
  of server indices. `NewPool` checks its arguments, raises the capacity to
  the floor and deals the initial slots round-robin. `fill` is given its
  random offsets. `Take` pops the oldest slot and reports an empty buffer
  (where Go would block) as `None`. `Server.Query` counts every query.
- `resolver.dfy` (`Resolver`): the task state machine:
  - `add`, `qtype`, `setAnswer` and `done`;
  - `do` as one step against a pool, returning retry, result, crash or blocked,
    with `qtype`'s guard exactly as written;
  - `Result.SortAnswers` and `Result.IsEmpty`.

Panics become error values:
- `NewPool`'s panics are a `PoolError`.
- The crash in `qtype` is an `Outcome.Crash`. Its reason says which check
  failed: the guard, or the slice read the guard lets through.

The job queue that retries tasks and hands results back is not modelled. The
lemmas about a run of several steps (`ResolveDistinct` and `ResolveRepeated`)
therefore drive a task by feeding it successful replies directly.

Where the code and its own documentation disagree, the model follows the code:

- `Subdomains` returns the most specific name first, as `utils_test.go`
  expects. The order is `a.b.c.base.com`, `b.c.base.com`, `c.base.com`. The
  doc comment at `utils.go:37` lists them the other way round.
- The host-name answers (NS, MX, SRV, CNAME, PTR) lose every leading and
  trailing dot, because `strings.Trim` is used, not only the final one.
- A query that fails because the name is empty or the type is unknown is still
  just a failed query to `do`. The task is handed back for a retry unchanged.
  Nothing makes it fail fast.
- The pool has no release or pacing operation. `do` never gives a taken server
  back, so slots come back only through the once-a-second `fill`.
- `NewResolver` passes the worker count as the pool's capacity.

## Model

| member | source | states |
|---|---|---|
| Resolver.Add | resolver.go:210-218 | A new task has no answers and index 0, and carries the name, types and metadata exactly as given. It is already `done` exactly when the type list is empty. |
| Resolver.SetAnswer | resolver.go:50-53 | The type maps to the new answer. Every other type keeps its key and its answer. The index goes up by exactly one. Name, types and metadata are untouched. |
| Resolver.DoneProgress | resolver.go:36-38 | `done` counts answered types: answering a new type brings the count one closer to the number of types, while answering a type again changes nothing, and `done` holds afterwards exactly when the count reaches it. |
| Resolver.QTypeAsWritten | resolver.go:41-47 | With the guard as written, a read succeeds exactly when the index is in range. An index equal to the length slips past the guard and fails on the slice bound instead. |
| Resolver.QTypeGuardOffByOne | resolver.go:42 | A task for `["A", "A"]` after both answers is not done, since it has one answer key, and its index equals the list length. That index gets past the guard and crashes on the bounds check. |
| Resolver.QType | resolver.go:41-47 | With the corrected guard, the current type is returned exactly when the index is in range. Every other index is refused by the guard itself. |
| Resolver.QTypeCorrectionAgrees | resolver.go:41-47 | The corrected guard and the guard as written succeed on the same tasks with the same type. They differ only at the index equal to the length: the corrected guard refuses it, the written one crashes on the read. |
| Resolver.Continue | resolver.go:164-182 | A failed query hands the task back unchanged with the error and no result. A successful one records the answer. It then retries if the task is not done, and otherwise emits the name, all answers and the metadata. |
| Resolver.Do | resolver.go:155-182 | One step with an empty buffer blocks and changes nothing. Otherwise it takes the oldest slot, never gives it back, and the queried server's counter rises by one. It crashes exactly when the index is out of range, and otherwise continues with what the query returned. With the guard as written, the crash at the index equal to the length is the slice read's index error, and only larger indices hit the guard. The pool's capacity and rate never change, and a crash leaves every server's counter as it was. The pool stays valid. |
| Resolver.Recorded | resolver.go:50-53 | After answers to the first k types, the answer keys are exactly those k types. |
| Resolver.SnapshotDone | resolver.go:36-38 | With distinct types, `done` holds exactly when every type is answered. With a repeated type it never holds. |
| Resolver.ResolveDistinct | resolver.go:155-182 | For non-empty, pairwise distinct types, fewer successful steps than types retry, at index k, holding exactly the first k types, with the index still readable. The step for the last type emits the name, the metadata and an answer for every type, each the reply to it. |
| Resolver.ResolveRepeated | resolver.go:36-47 | With a repeated type, one successful step per type leaves the task retried and not done, with the index at the end of the list. The next step passes the guard and crashes on the slice read. |
| Resolver.EmptyQtypesCrash | resolver.go:161-162 | A task with no types counts as done, yet its first step reads index 0 and crashes before `done` is checked. Index 0 passes the guard, so the crash is the slice read's index error. |
| Resolver.FailureLeavesTask | resolver.go:164-167 | When the exchange fails, the step hands back the identical task with the error. |
| Resolver.SortAnswers | resolver.go:74-78 | Name, metadata and answer keys are unchanged. Every answer list comes out sorted and is a permutation of the original. |
| Resolver.SortAnswersIdempotent | resolver.go:74-78 | Sorting the answers a second time changes nothing. |
| Resolver.IsEmpty | resolver.go:81-89 | The result is true exactly when every answer list is empty, which includes the empty map. |
| Sorting.Sort | resolver.go:76 | The sorted list is ordered by Go's string order and is a permutation of the input. |
| Sorting.SortIdempotent | resolver.go:76 | Sorting a sorted list returns it unchanged. |
| Sorting.HeadLeast | resolver.go:76 | The first element of a sorted list is at most every element of the list. |
| Sorting.SortedUnique | resolver.go:76 | Two sorted lists with the same elements are equal, so the sorted answers do not depend on which correct sort produced them. |
| Utils.PTR | utils.go:12-34 | For an IPv4 address, or an IPv4-mapped IPv6 one, with octets a.b.c.d, the name is `d.c.b.a.in-addr.arpa` in decimal. Otherwise it has four characters per byte, last byte first: low nibble, dot, high nibble, dot. Every nibble character comes from the hex table, and `ip6.arpa` follows. |
| Utils.ReverseNibbles | utils.go:20-29 | The nibble part has length four times the byte count, and character i is the one its position calls for. |
| Utils.ReverseNibblesRoundTrip | utils.go:23-29 | Reading the nibble characters back gives the original bytes. |
| Utils.PTRIPv6RoundTrip | utils.go:19-33 | The nibble part of an `ip6.arpa` name decodes back to the address bytes. |
| Utils.Subdomains | utils.go:38-56 | The result is empty exactly when `sub` has no more dots than `base`. Otherwise it has one entry per extra dot. |
| Utils.SubdomainsEntry | utils.go:48-53 | Entry i is the suffix of `sub` right after its i-th dot, with i fewer dots than `sub`. The last entry has exactly one dot more than `base`. |
| Utils.SubdomainsExample | utils_test.go:11-18 | `Subdomains("a.b.c.base.com", "base.com")` is `a.b.c.base.com`, `b.c.base.com`, `c.base.com`, in that order. |
| Net.To4 | dns.go:157 | An address has an IPv4 form exactly when it is 4 bytes long, or 16 bytes with the `::ffff` prefix. That form is its last four bytes. |
| Net.String | utils.go:15 | An address with no IPv4 form prints as the text it carries. An IPv4 address prints as four dot-separated decimal octets of its IPv4 form. |
| Net.StringOctets | utils.go:15 | The printed pieces of an IPv4 address read back as the last four bytes of the address, in order. |
| Net.DottedQuad | utils.go:15 | Splitting the dotted text of four octets on dots gives back the four decimal octets. |
| Text.Split | utils.go:48 | The number of pieces is one more than the number of separators, and no piece contains a separator. |
| Text.JoinSplit | utils.go:51 | Joining the pieces of a split gives back the original string. |
| Text.JoinSplitSuffix | utils.go:51 | Joining the pieces from the i-th on gives the suffix of the string after its i-th separator. |
| Text.SplitJoin | utils.go:51 | Splitting the join of a non-empty list of separator-free pieces gives back the pieces. |
| Text.CountConcat | utils.go:41-42 | The count of a separator in two strings joined is the sum of the counts. |
| Text.CountMultiset | utils.go:41-42 | The count of a character is its multiplicity in the string. |
| Text.Trim | dns.go:113 | The result is no longer than the input and neither starts nor ends with the cut character. |
| Text.TrimShape | dns.go:113 | The result is a contiguous middle part of the input. Everything cut away on both sides is the cut character. |
| Text.TrimIdempotent | dns.go:113 | Trimming twice is trimming once. |
| Text.DecimalRoundTrip | dns.go:159 | Reading back the decimal text of a number gives the number. |
| Text.HexDigitsRoundTrip | utils.go:9 | Every entry of the hex table reads back as its own index. |
| Dns.TypesAllAreTheMapKeys | dns.go:26-51 | The list of all types and the keys of the type table are the same eight tags. |
| Dns.Fqdn | dns.go:61-63 | The name keeps its text and ends in a dot, gaining at most that one character. A name already ending in a dot is unchanged. |
| Dns.FqdnIdempotent | dns.go:61-63 | Qualifying a name twice is qualifying it once. |
| Dns.Request | dns.go:73-85 | The question asks for recursion in class IN. Its name is the qualified name, so it starts with the given name and ends in a dot. Its type code is the table's code for the requested tag and belongs to no other tag. |
| Dns.Query | dns.go:55-154 | An empty name fails with the error text `empty name` before anything else. An unknown type then fails with the text `invalid Query type`. Otherwise a transport error is passed back as the error with no result, and an answer always succeeds. A success is the extraction of the answer records of the exchange for the qualified name and the type's code. |
| Dns.InputErrorsPrecedeExchange | dns.go:57-71 | An empty name or an unknown type gives the same error whatever the exchange would have done. |
| Dns.Matching | dns.go:97-101 | The records kept are among the answers and are all of the queried type, and every answer of the queried type is kept. |
| Dns.MatchingConcat | dns.go:97-101 | Records are kept in received order: the matches of two lists joined are the matches of the first followed by those of the second. |
| Dns.ExtractSingles | dns.go:94-151 | For every type but TXT there is one string per record of that type, in received order. Each string is the address, or the host name with its dots trimmed. Other records are skipped, and no match gives an empty list. |
| Dns.ExtractTrimmed | dns.go:110-150 | For NS, MX, SRV, CNAME and PTR, no string starts or ends with a dot. |
| Dns.ExtractTXT | dns.go:124-129 | A lone TXT record gives all its segments in order. Extracting from only the TXT records that `Matching` keeps gives the same strings as extracting from all the answers, so records of other types contribute nothing. |
| Dns.ExtractTXTMembers | dns.go:124-129 | A string is returned for a TXT query exactly when it is a segment of some TXT record received. |
| Dns.ExtractConcat | dns.go:92-153 | The strings returned for two lists of records joined are those of the first list followed by those of the second, for every type. |
| Dns.PickSingle | dns.go:94-151 | For each supported type except TXT, a record yields its one table value exactly when it is of that type, and nothing otherwise. |
| Dns.GetAddr | dns.go:156-163 | The endpoint starts with a bracket exactly when the address has no IPv4 form. |
| Dns.GetAddrRoundTrip | dns.go:156-163 | Split at its last colon, the endpoint gives back the server's address text and port `53`. A non-IPv4 host loses its brackets. |
| Pools.NewPool | pool.go:68-100 | The rate is checked first, then for an empty list. A bad rate is refused with the rate it was given. An empty list is refused with the panic text `empty ips`. A pool is built exactly when the rate is positive and there are addresses. The capacity is the larger of the requested one and rate times the server count. The servers are the addresses in order with zero counters. The buffer holds rate times n slots, slot i naming server i mod n. |
| Pools.RoundRobinFair | pool.go:90-92 | The initial slots name each server exactly `rate` times and nothing else. |
| Pools.NewPoolFair | pool.go:86-92 | In a fresh pool each server occurs exactly `rate` times in the buffer. |
| Pools.Take | pool.go:130-132 | An empty buffer yields nothing. Otherwise the oldest slot is removed and names a real server, the rest stay in order, and the pool stays valid. |
| Pools.Round | pool.go:139-144 | One round appends the rotation from the offset to the buffer, cut off where the buffer is full, and keeps what was there. |
| Pools.Fill | pool.go:135-146 | Existing slots stay in place and the round-robin schedule is appended, cut off where the buffer is full. The new length is the smaller of the capacity and the old length plus rate times n. Servers, capacity and rate are unchanged, and the pool stays valid. |
| Pools.RotationOnce | pool.go:139-144 | One round of `fill` offers every server exactly once. |
| Pools.ScheduleFair | pool.go:137-145 | All rounds together offer every server exactly `rate` times, which is what a fill adds when the buffer has room. |
| Pools.ServerQuery | pool.go:26-39 | The server's counter goes up by exactly one, whether or not the query fails. Every other server, the buffer, the capacity and the rate are unchanged. The reply is that of `Query` against the server's address. |

## Left out

- The network exchange, with miekg/dns messages, the 3-second client timeout and the random message Id, is a function parameter.
- Records carry their fields as strings. The text of an A or AAAA answer is taken as given.
- What `net.IP.String` prints for an address with no IPv4 form is carried with the address and not computed.
- The job queue (`jobq`) is left out: `Add`, `Next`, `Wait`, `Close`, `Group`, the worker count, retry scheduling and delivery order. It is concurrent library code that is not available.
- `Pool.Start` and `Pool.Close` are left out: the ticker goroutine and closing the channel. `fill` is modelled as one call, given its random offsets.
- A receive that blocks on an empty buffer is reported as `Blocked`, with no waiting. Receiving from a closed channel is not modelled.
- `Server.Rate`, the creation and last-use times, and `Speed` and `Progress` are wall-clock and floating-point values.
- The panic on a task of the wrong dynamic type in `do` cannot arise in the typed model.
- The metadata values are strings here, where Go has `interface{}`. They are only copied.
- Pools.NewPool: does not model Go's 64-bit `int`. `rate * len(ips)` can wrap around, and `make(chan, capacity)` panics when the capacity is too large (pool.go:78-84). The model promises `rate * |ips|` slots for every positive rate, which Go only delivers while that product and the buffer fit in memory.
- Sorting.Sort: Go strings are byte strings, while the model's strings are sequences of characters. Names or TXT segments that are not valid UTF-8 cannot be represented. `Sorting.LessEq` compares characters, which agrees with Go's byte-wise order of the UTF-8 encodings only for valid UTF-8 text.
- `PTR` on a byte slice that is neither 4 nor 16 bytes long follows the same code path as IPv6, as in the source. Its output is stated, but it is not a valid reverse name.
- The tests that need live DNS are left out, as are the timing bounds of the pool test. That test also calls `pool.Stop`, which does not exist; the method is `Close`.

## Findings

| source | as written | input that shows it | evidently intended | confidence | as-written member | corrected member |
|---|---|---|---|---|---|---|
| resolver.go:42 | The guard `qtypeIdx > len(Qtypes)` lets the index equal to the length through to `Qtypes[qtypeIdx]`. That read then panics with Go's index-out-of-range error, not the guard's own message. The step `Resolver.Do` keeps the guard as written; `Resolver.QTypeCorrectionAgrees` shows the corrected guard accepts the same tasks and only changes which error is raised. | A task with types `["A", "A"]` after two answers: it is at index 2 with one answer key, so it is not done and is retried, and the next step reads index 2. The lemma `Resolver.QTypeGuardOffByOne` states this input. | `qtypeIdx >= len(Qtypes)`, so every unreadable index is caught by the guard. | not executed | Resolver.QTypeAsWritten (counterexample Resolver.QTypeGuardOffByOne) | Resolver.QType |
