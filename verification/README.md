# db-auth-gateway: a Dafny model

db-auth-gateway is an HTTP and gRPC proxy that authenticates requests, balances them over backends and can
mirror their bodies. This project models the parts of it whose correctness spans many calls, goroutines or
inputs, and proves what those parts guarantee.

| files | part of the gateway |
|---|---|
| `Mirror`, `MirrorInvariant`, `MirrorTheorems`, `MirrorTee`, `MirrorBuffer` | the fan-out buffer that feeds a request body to its mirrors |
| `NamedHeap`, `LeastInflight` | the least-inflight host provider and its indexed heap |
| `BoundedLoadStats`, `BoundedLoadEvents`, `BoundedLoadLedger`, `BoundedLoadPeriods`, `BoundedLoadPicker`, `BoundedLoadSearch` | the bounded-load gRPC balancer |
| `ByteStrings`, `PathEscaping`, `AuthCodec`, `AuthRoundTrip`, `AuthGrammar`, `AuthHeaders` | parsing, printing and forwarding of authentication results |
| `ForwardAuth` | the forward-auth result cache |
| `RoutePatterns`, `RouteMatching`, `RoutesMatcher`, `MimirOverrides` | route matching and the request-blocking decision |
| `ClientIP` | client address selection in X-Forwarded-For |
| `ConnectionTTL`, `ConnectionRaces`, `RequestLimiter`, `HealthChecker` | connection tracking, in-flight limiting, health checks |

How the models are built:

- Code that works under locks and atomics (mirror buffer, connection tracker, request limiter, load-balancer
  statistics, auth cache) is a machine whose steps are the locked sections and atomic accesses. A run is any
  sequence of enabled steps, so a statement about runs covers every interleaving. Except for the request limiter,
  the same code is also given as classes with mutable fields, whose methods are proved against those steps.
- Go strings are byte sequences. Split, join, TrimSpace (with the UTF-8 forms of all Unicode white space),
  IndexByte, PathEscape, PathUnescape, CanonicalHeaderKey, QuoteMeta and the heap operations of container/heap
  are written out. Wrapping 64-bit and 32-bit counters, truncating division and signed remainders are explicit.
- Functions of other libraries are parameters: PromQL selector validity, net.SplitHostPort, net.ParseIP, the
  Retry-After sanitiser, hashes, clocks and the answers of the authentication service.

Where the code falls short of a law, the code is kept as it is and the exact limit is proved:

- Mirror buffer. Delivery is exact in runs whose Writes are all safe, that is, with no live cursor past the end
  of the buffer (`RunsAreSafe`). An unsafe Write takes a buffer that was closed, drained and reset while some
  reader had yet to find out (`UnsafeMeansReset`); it always leaves a live reader at EOF before its bytes
  (`UnsafeWriteDeprives`, `UnsafeWriteHappens`), and a second one can make that reader skip a segment, so that what
  it has read is no prefix of what was written (`UnsafeWritesSkip`). What the primary request gets is unaffected.
- A mirror that nobody closed and that is told EOF has read the whole body when the end of the body is what first
  closed the buffer and no bytes came after it, whoever closes the buffer later (`EndMeansWholeBody`). A Close
  before the end can cost it the rest (`EarlyCloseLosesBytes`): it misses exactly what was written after the last
  segment it took (`EndMeansWholeBodyExactly`).
- A reclaim hands the pool a segment whose bytes a live reader still has pending exactly when that reader's cursor
  is the least one its scan loaded (`PooledWhilePending`, `PooledWhilePendingHappens`); the delivery theorems
  therefore treat segments as values, which is what a nil pool gives.
- A reader's finish() that falls between its own Read's cursor load and increment leaves a cursor of 0 that pins
  the buffer for good, and nothing else does (`RaceLeavesMark`, `FreedUnlessRaced`, `RacedLeaksForever`,
  `RaceHappens`); delivery is unaffected.
- calculateTTL documents a value between the minimum and the maximum. Go's remainder of a negative int64 breaks
  this; `TTLRange` gives the exact hashes that stay in range.
- The balancer's in-flight counts are meant to be the open RPCs of each backend. A backend that loses its last
  connection while an RPC to it is open gets a count that is too low when it is tracked again
  (`ReconnectForgets`), and one that wraps once that RPC ends (`ReconnectWraps`). `CountIsExactWithinPeriod` has
  the exact condition, for every order of events: every RPC that is open to the backend, and every RPC to it that
  ended in the current tracking period, had its OutHeader in that period. A round of Pick can skip a connection
  when its 32-bit counter wraps; `CoversAllExactly` says when. The file comment says a backend is excluded when its
  count is greater than the threshold; the code excludes it at the threshold, and the model follows the code.
- In a route with a parameter, a literal segment that contains the placeholder text is treated as a parameter
  (`PlaceholderLiteralMatchesAnything`); static routes are compared as they are. `RoutesMatcher.SegmentwiseExactly`
  shows that, for routes whose parameters are whole segments, nothing else breaks segment-wise matching.
- What the gateway forwards is decided by the AuthResult, and not by any stripped header of the client, exactly
  when extra headers that share a canonical key carry equal values (`ClientCannotInfluence`); for others the
  iteration order of a Go map decides (`CollidingExtras`). Client keys in a non-canonical spelling survive the
  stripping, for tenants and for policies (`TenantsComeFromResult`, `PoliciesComeFromResult`).
- A connection is counted as closed once too often exactly when a request's removal comes after another goroutine
  took that connection out (`QuietCountersAreExact`, `RaceMisses`).
- Cache keys collide exactly for scopes where one ends with a bar and the other (`KeysCollideExactly`); the
  gateway's scopes have no bar.

## Model

| member | source | states |
|---|---|---|
| Mirror.Least | pkg/util/proxy/mirror.go:335-347 | the least cursor other than -1, none exactly when all are -1 |
| MirrorInvariant.NextKeeps | pkg/util/proxy/mirror.go:295-505 | every step of writer, readers, closes and reclaim keeps the invariant relating cursors, offset, slice indices, pool and delivered bytes |
| MirrorInvariant.RunKeeps | pkg/util/proxy/mirror.go:295-505 | the invariant holds after every interleaving |
| MirrorInvariant.AdvanceKeeps | pkg/util/proxy/mirror.go:414-493 | a Read step keeps the reader's invariant, and its slice index is in range |
| MirrorInvariant.ReclaimKeepsShared | pkg/util/proxy/mirror.go:349-378 | reclaiming keeps buffered and pooled segments exactly the two parts of what was written, and never slices out of range |
| MirrorInvariant.ReclaimKeepsReader | pkg/util/proxy/mirror.go:327-379 | reclaiming, by shift or by reset, keeps every reader's invariant |
| MirrorTheorems.ReturnedIsDelivered | pkg/util/proxy/mirror.go:488-492 | in every run the bytes the Reads of a reader returned, one after the other, are the history the invariant speaks of |
| MirrorTheorems.AnswerIsFront | pkg/util/proxy/mirror.go:488-492 | in every run a Read returns the front of the pending data, as many bytes as its caller asked for or all of it, and keeps the rest |
| MirrorTheorems.ReadsAreAnswered | pkg/util/proxy/mirror.go:414-493 | a Read is over exactly with an answer, bytes or EOF |
| MirrorTheorems.EndIsReported | pkg/util/proxy/mirror.go:434-486 | EOF exactly for a reader found closed before it looks or sleeps, for a cursor that is gone, or after its own finish() |
| MirrorTheorems.FinishingBegins | pkg/util/proxy/mirror.go:466-486 | a Read finishes its reader exactly when the closed buffer has nothing more for it or its Close wakes it |
| MirrorTheorems.OpenUntilClosed | pkg/util/proxy/mirror.go:495-505 | in every run a reader is closed exactly after a Close of it |
| MirrorTheorems.MirrorsSeePrefix | pkg/util/proxy/mirror.go:295-505 | in every run what the Reads of a mirror returned is a prefix of the bytes written |
| MirrorTheorems.LiveReadersAreExact | pkg/util/proxy/mirror.go:414-493 | what a live reader's Reads returned plus its pending data is exactly the segments before its cursor |
| MirrorTheorems.EndMeansEverything | pkg/util/proxy/mirror.go:447-469 | EOF for a reader nobody closed means the buffer is closed, the reader finished, and everything written before the Close was returned, reset or not |
| MirrorTheorems.SleepersHaveEverything | pkg/util/proxy/mirror.go:443-486 | no lost wake-up: a live reader blocked on the current channel has been returned everything written |
| MirrorTee.WrittenIsWrites | pkg/util/proxy/mirror.go:295-325 | what a run has written is its Write events in order |
| MirrorTee.ClosedAtFirstClose | pkg/util/proxy/mirror.go:327-392 | while some reader is open or has yet to finish only Close ends the stream, at its first call, never a reclaim |
| MirrorTee.SafeUntilClose | pkg/util/proxy/mirror.go:295-392 | until the first Close every Write is safe |
| MirrorTee.TeeRunKeeps | pkg/util/proxy/mirror.go:270-281 | in every interleaving, with unsafe Writes too, the primary request has got every result of the underlying reader in order, errors included, and the buffer every byte of them but those of a Read yet to write |
| MirrorTee.PrimaryGoesOn | pkg/util/proxy/mirror.go:270-281 | whatever the mirrors have done, the primary request's Read can take its next step whenever the buffer's lock is free |
| MirrorTee.MirrorsFollowPrimary | pkg/util/proxy/mirror.go:270-281 | in every run of the tee the primary request gets the results unchanged and, if the Writes were safe, each mirror reads a prefix of those very bytes |
| MirrorTee.EndMeansWholeBody | pkg/util/proxy/mirror.go:193-286 | a mirror nobody closed that is told EOF has read the whole body, when other Closes come after the one at the end of the body and no bytes follow that end |
| MirrorTee.EndMeansWholeBodyExactly | pkg/util/proxy/mirror.go:270-286 | in general it has read the whole body if and only if nothing was written after the last segment it took and nothing waits to be written |
| MirrorTee.EarlyCloseLosesBytes | pkg/util/proxy/mirror.go:283-286 | a run in which a Close before the body has such a mirror told EOF and miss all of it |
| MirrorTheorems.PoolGetsPassedSegments | pkg/util/proxy/mirror.go:327-379 | segments reach the pool once, in write order, only behind every live cursor; offset and cursors bound each other until the reset |
| MirrorTheorems.PooledWhilePending | pkg/util/proxy/mirror.go:335-378 | a reclaim pools the segment a live reader has pending if and only if that reader's cursor is the least the scan has loaded |
| MirrorTheorems.PooledWhilePendingHappens | pkg/util/proxy/mirror.go:366-378 | a run in which a live reader's unread segment is recycled |
| MirrorTheorems.CursorsInRange | pkg/util/proxy/mirror.go:336-347 | every cursor the scan of reclaimBuffer loads is -1 or within the buffer's ends, whatever readers store meanwhile |
| MirrorTheorems.OpenMeansWriteSafe | pkg/util/proxy/mirror.go:311-324 | until the buffer is closed no live cursor is past its end |
| MirrorTheorems.UnsafeWriteDeprives | pkg/util/proxy/mirror.go:310-319 | a Write leaves a live reader at EOF before its bytes if and only if a live cursor was past the end |
| MirrorTheorems.UnsafeMeansReset | pkg/util/proxy/mirror.go:349-364 | that is so exactly for a nil buffer after a reset, hence after a Close, with some reader still live |
| MirrorTheorems.UnsafeWriteHappens | pkg/util/proxy/mirror.go:349-364 | a run with a Write after Close and reset that does so |
| MirrorTheorems.UnsafeWritesSkip | pkg/util/proxy/mirror.go:310-319 | a run with two such Writes in which a live reader skips a segment and reads the next |
| MirrorTheorems.RunsAreSafe | pkg/util/proxy/mirror.go:295-325 | the runs of the delivery theorems are exactly those whose Writes were all safe |
| MirrorTheorems.RaceLeavesMark | pkg/util/proxy/mirror.go:404-457 | in every run a finished reader is left with a cursor of 0, or about to be, if and only if its finish() fell between its own Read's cursor load and increment |
| MirrorTheorems.FreedUnlessRaced | pkg/util/proxy/mirror.go:327-412 | when the last finish() completes everything is free if and only if that happened to no reader in the run |
| MirrorTheorems.RacedLeaksForever | pkg/util/proxy/mirror.go:404-412 | after such a race nothing is freed by any continuation |
| MirrorTheorems.RaceHappens | pkg/util/proxy/mirror.go:445-457 | a run with such a race, and the cursor of 0 it leaves |
| MirrorBuffer.MultiReaderBuffer.Write | pkg/util/proxy/mirror.go:295-325 | appends a copy, wakes readers, returns 0 when closed |
| MirrorBuffer.MultiReaderBuffer.Close | pkg/util/proxy/mirror.go:381-392 | takes the close step |
| MirrorBuffer.MultiReaderBuffer.MinMaxCursor | pkg/util/proxy/mirror.go:335-347 | the scan finds the least live cursor and whether there is one |
| MirrorBuffer.MultiReaderBuffer.ReclaimBuffer | pkg/util/proxy/mirror.go:327-379 | takes the reclaim step for the readers' current cursors |
| MirrorBuffer.MultiReaderBuffer.Finish | pkg/util/proxy/mirror.go:404-412 | once only: cursor -1, no data, buffer reclaimed; the protocol's three steps |
| MirrorBuffer.MultiReaderBuffer.CloseReader | pkg/util/proxy/mirror.go:495-505 | closes the reader and finishes it |
| MirrorBuffer.MultiReaderBuffer.Read | pkg/util/proxy/mirror.go:414-493 | pending data first, then the segment at the cursor, EOF or a block on the current channel; data, cursor and buffer afterwards; the same as the protocol's steps one after the other |
| MirrorBuffer.MultiReaderBuffer.TeeRead | pkg/util/proxy/mirror.go:270-281 | the primary gets the underlying reader's count and error unchanged, the buffer gets the same bytes and is closed exactly at EOF |
| NamedHeap.RootIsMinimum | pkg/util/proxy/dnslb/least_inflight.go:96-101 | heap order makes the root a minimum of the whole heap |
| NamedHeap.NamedMinHeap.Swap | pkg/util/proxy/dnslb/least_inflight.go:131-135 | keeps the slot map the exact inverse of the names, and every count |
| NamedHeap.NamedMinHeap.Up | pkg/util/proxy/dnslb/least_inflight.go:103-111 | sift-up restores the order and keeps the counts |
| NamedHeap.NamedMinHeap.Down | pkg/util/proxy/dnslb/least_inflight.go:83-84 | sift-down leaves the order whole, or broken at most above an unmoved entry, and keeps the counts |
| NamedHeap.NamedMinHeap.Fix | pkg/util/proxy/dnslb/least_inflight.go:84-93 | repairs one changed entry, counts unchanged |
| NamedHeap.NamedMinHeap.Push | pkg/util/proxy/dnslb/least_inflight.go:137-144 | adds one name with its count |
| NamedHeap.NamedMinHeap.Pop | pkg/util/proxy/dnslb/least_inflight.go:146-153 | removes the last entry's name from both structures |
| NamedHeap.NamedMinHeap.RemoveAt | pkg/util/proxy/dnslb/least_inflight.go:113-119 | middle removal keeps order and bijection and drops exactly that name |
| NamedHeap.NamedMinHeap.Inc | pkg/util/proxy/dnslb/least_inflight.go:78-85 | refines adding 1 in the plain map |
| NamedHeap.NamedMinHeap.Dec | pkg/util/proxy/dnslb/least_inflight.go:87-94 | refines subtracting 1 in the plain map, nothing for an unknown name |
| NamedHeap.NamedMinHeap.Min | pkg/util/proxy/dnslb/least_inflight.go:96-101 | returns a name with the least count of all |
| NamedHeap.NamedMinHeap.Add | pkg/util/proxy/dnslb/least_inflight.go:103-111 | refines insertion at 0, nothing for a known name |
| NamedHeap.NamedMinHeap.Remove | pkg/util/proxy/dnslb/least_inflight.go:113-119 | refines deletion from the plain map |
| NamedHeap.NamedMinHeap.Len | pkg/util/proxy/dnslb/least_inflight.go:123-125 | the number of names |
| LeastInflight.Provider.StartHost | pkg/util/proxy/dnslb/least_inflight.go:35-44 | the default when there are no hosts, otherwise a least-loaded host, which is counted up |
| LeastInflight.Provider.EndHost | pkg/util/proxy/dnslb/least_inflight.go:46-50 | counts the host down, if it is known |
| LeastInflight.Provider.InstanceAdded | pkg/util/proxy/dnslb/least_inflight.go:56-60 | adds the host at 0 unless present |
| LeastInflight.Provider.InstanceRemoved | pkg/util/proxy/dnslb/least_inflight.go:62-66 | removes the host |
| LeastInflight.TrackedWhileAdded | pkg/util/proxy/dnslb/least_inflight.go:56-66 | in every run a host is tracked exactly from an addition that found it absent until its removal |
| LeastInflight.CountIsStartsMinusEnds | pkg/util/proxy/dnslb/least_inflight.go:35-50 | in every run a host's value is StartHost answers minus EndHost calls since that addition |
| LeastInflight.StartsKeepBalance | pkg/util/proxy/dnslb/least_inflight.go:35-44 | StartHost calls alone never widen the spread beyond 1 or what it was |
| BoundedLoadStats.StatsHandler.HandleRPC | pkg/util/proxy/grpc_bounded_load_balancer.go:252-348 | takes the OutHeader or End step, or none |
| BoundedLoadStats.StatsHandler.HandleConn | pkg/util/proxy/grpc_bounded_load_balancer.go:361-403 | takes the ConnBegin or ConnEnd step, or none |
| BoundedLoadStats.TotalIsSum | pkg/util/proxy/grpc_bounded_load_balancer.go:252-403 | for every order of events the total is the sum of the counts modulo 2^64 |
| BoundedLoadEvents.ConnectionsAreBalance | pkg/util/proxy/grpc_bounded_load_balancer.go:361-403 | for every order of events a backend's connection count is its ConnBegins minus its ConnEnds modulo 2^64, and it is tracked from a ConnBegin to the ConnEnd that brings that to 0 |
| BoundedLoadEvents.TrackedWhileConnected | pkg/util/proxy/grpc_bounded_load_balancer.go:361-403 | with matched ConnEnds a backend is tracked if and only if that difference is positive |
| BoundedLoadEvents.OpenIsRemembered | pkg/util/proxy/grpc_bounded_load_balancer.go:277-337 | the RPCs remembered are those opened and not ended, with the address of the header that opened them |
| BoundedLoadEvents.CountIsSince | pkg/util/proxy/grpc_bounded_load_balancer.go:252-403 | for every order of events a count is the RPCs opened minus the RPCs ended in the backend's current tracking period, modulo 2^64 |
| BoundedLoadLedger.LedgerHolds | pkg/util/proxy/grpc_bounded_load_balancer.go:252-403 | the ledger of counted and stale RPCs explains all counts after every order of events |
| BoundedLoadLedger.CountIsCountedMinusStale | pkg/util/proxy/grpc_bounded_load_balancer.go:277-337 | a count is its counted open RPCs minus its stale ends modulo 2^64, and is the number of RPCs open to that backend if and only if all of these are counted and no end was stale |
| BoundedLoadPeriods.CountIsExactWithinPeriod | pkg/util/proxy/grpc_bounded_load_balancer.go:252-403 | after every order of events a count is the number of open RPCs if and only if each RPC open to that backend, and each that ended in the current tracking period, had its OutHeader in that period |
| BoundedLoadEvents.TrackedSinceMeans | pkg/util/proxy/grpc_bounded_load_balancer.go:361-403 | a period begins at the ConnBegin that found the backend untracked and lasts while it is tracked |
| BoundedLoadEvents.PeriodIsConnected | pkg/util/proxy/grpc_bounded_load_balancer.go:361-403 | with matched ConnEnds it begins with the first connection and lasts while there is one |
| BoundedLoadPeriods.RpcLawHolds | pkg/util/proxy/grpc_bounded_load_balancer.go:277-337 | which RPCs are open, to which backend, and counted in the current period, from the events |
| BoundedLoadPeriods.StaleLawHolds | pkg/util/proxy/grpc_bounded_load_balancer.go:325-337 | the current period has a stale end exactly when an RPC opened before it ended in it |
| BoundedLoadLedger.OrderlyCountsAreExact | pkg/util/proxy/grpc_bounded_load_balancer.go:252-403 | with matched connections that outlive their RPCs nothing wraps, exactly the connected backends are tracked, each count is the open RPCs to that backend, the total all open RPCs |
| BoundedLoadLedger.ReconnectForgets | pkg/util/proxy/grpc_bounded_load_balancer.go:380-398 | OutHeader, last ConnEnd, ConnBegin leaves a count of 0 with one RPC open and no stale end |
| BoundedLoadLedger.ReconnectWraps | pkg/util/proxy/grpc_bounded_load_balancer.go:329-331 | OutHeader, last ConnEnd, ConnBegin, End wraps count and total |
| BoundedLoadPicker.Picker.NextRoundRobinConnection | pkg/util/proxy/grpc_bounded_load_balancer.go:180-187 | the next counter value modulo 2^32, then modulo the number of connections |
| BoundedLoadPicker.Picker.Pick | pkg/util/proxy/grpc_bounded_load_balancer.go:151-178 | with statistics that may change between the threshold and each try: stops at the first connection in round-robin order that its try finds not overloaded, or after one round |
| BoundedLoadPicker.ThresholdAboveAverage | pkg/util/proxy/grpc_bounded_load_balancer.go:227-231 | the threshold times the number of backends exceeds the total |
| BoundedLoadPicker.ThresholdIsLeast | pkg/util/proxy/grpc_bounded_load_balancer.go:213-232 | the threshold is the least integer not below factor times total over backends, and 0 without a total or for a factor of at most 1 |
| BoundedLoadPicker.OverloadedMeans | pkg/util/proxy/grpc_bounded_load_balancer.go:213-240 | a backend is overloaded if and only if it has at least factor times the average in flight |
| BoundedLoadPicker.PickBounds | pkg/util/proxy/grpc_bounded_load_balancer.go:151-178 | each backend Pick skipped had at least factor times the average in flight, and the one it returns before its last try had less |
| BoundedLoadPicker.SomeoneIsBelow | pkg/util/proxy/grpc_bounded_load_balancer.go:213-240 | with unwrapped counts and a positive total some backend is not overloaded |
| BoundedLoadPicker.CoversAllExactly | pkg/util/proxy/grpc_bounded_load_balancer.go:163-187 | one round tries every connection if and only if it meets no harmful counter wrap |
| BoundedLoadPicker.PickAvoidsOverloaded | pkg/util/proxy/grpc_bounded_load_balancer.go:151-187 | some backend is below the threshold, and Pick returns one not overloaded at its try, within the threshold after its RPC starts, unless every tracked backend was overloaded when tried |
| BoundedLoadPicker.StillPickAvoidsOverloaded | pkg/util/proxy/grpc_bounded_load_balancer.go:151-187 | with statistics that stand still the pick is not overloaded |
| BoundedLoadSearch.OrderlyPickAvoidsOverloaded | pkg/util/proxy/grpc_bounded_load_balancer.go:151-240 | in every orderly run, with events falling between the tries, the pick is not overloaded unless an RPC was started during the search on each backend that was below the threshold |
| ByteStrings.SplitOfJoin | pkg/auth/authenticator.go:153-154 | several values split like the one value that joins them |
| ByteStrings.JoinOfSplit | pkg/auth/authenticator.go:192-193 | joining the pieces gives the string back |
| ByteStrings.TrimTrims | pkg/auth/authenticator.go:155-155 | trimming leaves no white space at either end and changes nothing that has none |
| ByteStrings.TrimCuts | pkg/auth/authenticator.go:155-155 | what trimming cuts off is white space at both ends, all of it and nothing else |
| ByteStrings.SpaceRunes | pkg/auth/authenticator.go:155-155 | the white space it looks for is exactly the UTF-8 forms of the code points with Unicode's White_Space property |
| PathEscaping.UnescapeEscape | pkg/auth/authenticator.go:142-167 | unescaping undoes escaping for every byte string |
| PathEscaping.UnescapesExactly | pkg/auth/authenticator.go:167-167 | text unescapes to exactly the bytes its pieces encode, bytes or hex in either case; anything else is malformed |
| PathEscaping.EscapeIsPlain | pkg/auth/authenticator.go:142-142 | escaped text has no comma, white space or non-ASCII byte |
| PathEscaping.EscapesExactly | pkg/auth/authenticator.go:142-142 | which bytes stay as they are: unreserved ones and the reserved ones but slash, semicolon, comma and question mark |
| AuthCodec.ParseTenantIDs | pkg/auth/authenticator.go:186-208 | all trimmed entries in order, or the first fault; more than one header is a fault |
| AuthCodec.ParseLabelPolicies | pkg/auth/authenticator.go:150-181 | all entries of all values in order, or the first fault |
| AuthCodec.FieldLinesMayBeJoined | pkg/auth/authenticator.go:150-181 | repeated field lines parse like the comma-joined line, faults included |
| AuthGrammar.TenantsAccepted | pkg/auth/authenticator.go:186-208 | accepted as these tenants if and only if they are the trimmed entries of at most one field line, all valid and all different |
| AuthGrammar.TenantsRejected | pkg/auth/authenticator.go:186-208 | otherwise the fault is that of a second field line or of the first entry that is empty, malformed or a repetition |
| AuthGrammar.PoliciesAccepted | pkg/auth/authenticator.go:150-181 | accepted as these policies if and only if each entry in order reads tenant, colon, escaped valid selector |
| AuthGrammar.PoliciesRejected | pkg/auth/authenticator.go:150-181 | otherwise the fault is that of the first entry that has one, and which it is |
| AuthRoundTrip.NewAuthResult | pkg/auth/authenticator.go:89-122 | tenants, then policies, then the cross-tenant check, with the error of the first that fails |
| AuthGrammar.ResultAccepted | pkg/auth/authenticator.go:89-122 | accepted as this result if and only if the headers list its tenants, at least one, denote its policies, and these name only those tenants |
| AuthGrammar.ResultRejected | pkg/auth/authenticator.go:89-122 | otherwise faults of the tenants come first, then their absence, then faults of the policies, then a policy for a tenant not listed |
| AuthRoundTrip.BuiltIsWellFormed | pkg/auth/authenticator.go:53-56 | accepted results have distinct valid tenants, at least one, and only policies of those tenants with valid selectors |
| AuthRoundTrip.TenantsRoundTrip | pkg/auth/authenticator.go:139-139 | the pipe-joined tenants parse back |
| AuthRoundTrip.PoliciesRoundTrip | pkg/auth/authenticator.go:141-143 | the printed policies parse back in order |
| AuthRoundTrip.RoundTrip | pkg/auth/authenticator.go:89-208 | re-parsing the printed headers of any accepted result gives that result |
| AuthRoundTrip.WellFormedIsReachable | pkg/auth/authenticator.go:89-122 | the well-formed results are exactly those some headers produce |
| AuthHeaders.CanonicalIdempotent | pkg/auth/authenticator.go:137-137 | canonical keys are canonical |
| AuthHeaders.CanonicalIgnoresCase | pkg/gateway/api.go:924-927 | spellings that differ in case share one canonical key |
| AuthHeaders.NamesAreGood | pkg/gateway/api.go:913-927 | the header names in the code are canonical and distinct |
| AuthHeaders.AuthResultHeaders | pkg/auth/authenticator.go:134-145 | derived tenant and policy headers replace any spelling among the extras; every other header is an extra |
| AuthHeaders.HeadersParseBack | pkg/auth/authenticator.go:134-208 | the round trip through the header map |
| AuthHeaders.Rewrite | pkg/gateway/api.go:910-932 | the header rewriting of the middleware, whatever the iteration order |
| AuthHeaders.ForwardedAt | pkg/gateway/api.go:893-932 | under each key: the client's Authorization, tenant and policy headers are gone, injected ones are there, for gRPC the tenants under the lower-case key alone, everything else is the client's |
| AuthHeaders.ClientCannotInfluence | pkg/gateway/api.go:913-920 | one AuthResult and requests that agree on every header but those three give identical forwarded headers, if and only if extras that share a canonical key other than the derived ones carry equal values |
| AuthHeaders.CollidingExtras | pkg/auth/authenticator.go:136-138 | two spellings of one extra header for which the result does not decide what is forwarded |
| AuthHeaders.TenantsComeFromResult | pkg/gateway/api.go:913-928 | the tenants sent on are the result's, lower-case key for gRPC, and no other spelling remains if and only if the client sent no non-canonical one |
| AuthHeaders.PoliciesComeFromResult | pkg/gateway/api.go:913-920 | the policies sent on are the result's, none if it has none, and no other spelling remains if and only if the client sent no non-canonical one |
| ForwardAuth.ForwardAuthenticator.LookupCache | pkg/auth/forward.go:79-85 | a hit exactly for a present, unexpired entry when caching is on |
| ForwardAuth.ForwardAuthenticator.Authenticate | pkg/auth/forward.go:78-160 | a live entry answers unchanged, otherwise the service's answer decides result and cache |
| ForwardAuth.ForwardAuthenticator.HandleAnswer | pkg/auth/forward.go:131-159 | status and header handling, and the one case that stores |
| ForwardAuth.JudgeMeans | pkg/auth/forward.go:120-157 | the outcome for no answer, 401, 403, 200 with accepted or rejected headers, and every other status |
| ForwardAuth.KeysCollideExactly | pkg/auth/forward.go:79-79 | when two scopes can share a cache key |
| ForwardAuth.KeysAreInjective | pkg/auth/forward.go:79-79 | keys of bar-free scopes determine Authorization and scope |
| ForwardAuth.HitsAreSound | pkg/auth/forward.go:78-160 | in every run a hit is the result of the latest 200 answer accepted for the same Authorization and scope, within the TTL |
| ForwardAuth.HitsAreComplete | pkg/auth/forward.go:78-160 | and there is a hit exactly while that answer is within the TTL, unless a clean-up ran with a later clock |
| ForwardAuth.EntryIsLatestGrant | pkg/auth/forward.go:131-157 | after every run an entry exists exactly for keys some answer granted, unless a clean-up since the latest grant found it expired, and is that latest one's |
| RoutePatterns.TemplateCompiles | pkg/gateway/routes_matcher.go:40-46 | the expression built for any template compiles, to the atoms of its text |
| RoutePatterns.QuotesSpecial | pkg/gateway/routes_matcher.go:42-43 | exactly the characters special in regular expressions are quoted |
| RouteMatching.AtomsMatchSegments | pkg/gateway/routes_matcher.go:40-60 | the compiled expression matches exactly segment by segment |
| RouteMatching.CompiledSegmentwiseExactly | pkg/gateway/routes_matcher.go:41-44 | that holds for every path if and only if no literal segment contains the placeholder text |
| RoutesMatcher.Matcher.AddRoute | pkg/gateway/routes_matcher.go:34-47 | the matcher holds exactly the added routes, static or compiled |
| RoutesMatcher.Matcher.AddRoutes | pkg/gateway/routes_matcher.go:28-32 | adds all routes in order |
| RoutesMatcher.Matcher.Match | pkg/gateway/routes_matcher.go:49-61 | finds a path exactly when some added route accepts it |
| RoutesMatcher.SegmentwiseExactly | pkg/gateway/routes_matcher.go:34-61 | a route is matched segment-wise on every path if and only if it is static or no literal segment contains the placeholder text |
| RoutesMatcher.PlaceholderLiteralMatchesAnything | pkg/gateway/routes_matcher.go:41-44 | a route with such a literal and one parameter that accepts another first segment |
| RoutesMatcher.FoundSegmentwise | pkg/gateway/routes_matcher.go:34-61 | for such routes with whole-segment parameters a path is found exactly when some route has as many segments, equal literals and non-empty parameters |
| MimirOverrides.Validate | pkg/gateway/mimir_overrides.go:112-148 | accepts exactly settings with 4xx or 5xx codes and sane Retry-After values, and which error comes first |
| MimirOverrides.Wrap | pkg/gateway/mimir_overrides.go:206-239 | answers for the first category switched on, by tenant or else globally, with a matching route, with a 4xx or 5xx status for loaded settings; forwards otherwise |
| MimirOverrides.BlocksByField | pkg/gateway/mimir_overrides.go:212-236 | for each category, on the fields: switched on for the tenant, or globally and not set for the tenant, and a route of that category matches |
| MimirOverrides.AnswersByField | pkg/gateway/mimir_overrides.go:226-236 | the tenant's settings of that category answer if its own switch is set, else the global ones |
| ClientIP.GetClientIP | pkg/middleware/clientip/xff_client_ip_extractor.go:30-69 | the normalised entry with that many entries to its right, exactly when it and those are addresses |
| ClientIP.ExtractsExactly | pkg/middleware/clientip/xff_client_ip_extractor.go:38-69 | an address is returned if and only if it is the normalised entry with exactly that many entries to its right and it and those are addresses |
| ClientIP.RefusesExactly | pkg/middleware/clientip/xff_client_ip_extractor.go:31-69 | when each of the three errors comes |
| ClientIP.NormaliseMeans | pkg/middleware/clientip/xff_client_ip_extractor.go:53-62 | the host part, else the trimmed entry, without its brackets if it stands in brackets |
| ClientIP.LeftEntriesAreIgnored | pkg/middleware/clientip/xff_client_ip_extractor.go:47-51 | entries further left change neither address nor error |
| ClientIP.PrependedValuesAreIgnored | pkg/middleware/clientip/xff_client_ip_extractor.go:38-51 | nor do field lines put in front |
| ClientIP.PrependedTextIsIgnored | pkg/middleware/clientip/xff_client_ip_extractor.go:38-51 | nor does text put in front of a value |
| ClientIP.FieldLinesMayBeJoined | pkg/middleware/clientip/xff_client_ip_extractor.go:31-41 | repeated field lines and their comma-joined line give the same answer |
| ConnectionTTL.TTLRange | pkg/gateway/connection_limiter_middleware.go:136-142 | congruent to the signed hash modulo the range's width, no overflow, distance from the minimum at most the width, and exactly when the value is in range |
| ConnectionTTL.TTLBelowMinimum | pkg/gateway/connection_limiter_middleware.go:134-142 | a hash that gives a TTL below the minimum and below zero |
| ConnectionTTL.RunBalanced | pkg/gateway/connection_limiter_middleware.go:105-165 | in every interleaving opened minus closed, plus updates owed and removals that missed, is the number tracked |
| ConnectionTTL.QuietCounters | pkg/gateway/connection_limiter_middleware.go:105-165 | at quiescence opened minus closed is at most the number tracked, and equal if and only if no removal missed |
| ConnectionRaces.MissesAreRaces | pkg/gateway/connection_limiter_middleware.go:105-165 | in every interleaving no removal missed if and only if none came after a Remove or Sweep that took its connection out since that request's touch, with no touch in between |
| ConnectionRaces.TakenAtMeans | pkg/gateway/connection_limiter_middleware.go:105-165 | which event that is: the one that took the connection out and after which no request touched it |
| ConnectionRaces.TrackedIsTouched | pkg/gateway/connection_limiter_middleware.go:145-165 | in every run a tracked connection has the TTL and creation time of the request that began its tracking and was last seen at the latest request on it |
| ConnectionRaces.SweepsIdle | pkg/gateway/connection_limiter_middleware.go:105-116 | a sweep drops exactly the connections whose latest request is longer ago than the maximum TTL |
| ConnectionRaces.QuietCountersAreExact | pkg/gateway/connection_limiter_middleware.go:105-165 | at quiescence opened minus closed is the number tracked if and only if there was no such race |
| ConnectionTTL.SerialNeverMisses | pkg/gateway/connection_limiter_middleware.go:120-132 | one request at a time never misses |
| ConnectionTTL.RaceMisses | pkg/gateway/connection_limiter_middleware.go:127-130 | two requests that both count one expired connection as closed |
| ConnectionTTL.ConnectionLimiter.ConnectionState | pkg/gateway/connection_limiter_middleware.go:145-165 | refreshes or starts tracking, counters exact: the machine's touch and count steps |
| ConnectionTTL.ConnectionLimiter.RemoveExpiredConnection | pkg/gateway/connection_limiter_middleware.go:120-132 | removes exactly an expired connection, counters exact: the machine's steps of one whole request |
| ConnectionTTL.ConnectionLimiter.RemoveIdleExpiredConnections | pkg/gateway/connection_limiter_middleware.go:105-116 | keeps exactly the connections seen within the maximum TTL, counters exact: the machine's sweep and count steps |
| RequestLimiter.RunKeeps | pkg/gateway/request_limiter_middleware.go:30-46 | in every interleaving the counter is the number of requests between the two additions and at most the limit are let in |
| RequestLimiter.AtMostLimitInside | pkg/gateway/request_limiter_middleware.go:30-46 | at most the limit are inside at once, and the counter is zero when none is under way |
| RequestLimiter.TurnedAwayOnlyWhenFull | pkg/gateway/request_limiter_middleware.go:36-43 | whatever happens between its arrival and its decision, a request is turned away if and only if the limit was reached by others as it arrived |
| HealthChecker.Checker.RecordSuccess | pkg/gateway/healthcheck/checker.go:235-253 | status and counts follow the history |
| HealthChecker.Checker.RecordFailure | pkg/gateway/healthcheck/checker.go:255-275 | status and counts follow the history |
| HealthChecker.Checker.IsHealthy | pkg/gateway/healthcheck/checker.go:278-283 | false exactly when the trailing run of failures is non-empty and longer than the retries |
| HealthChecker.UnhealthyMeans | pkg/gateway/healthcheck/checker.go:255-275 | unhealthy if and only if the latest retries + 1 results of the endpoint, and at least one, are all failures |
| HealthChecker.Checker.Iteration | pkg/gateway/healthcheck/checker.go:131-159 | starts exactly the checks that are due |
| HealthChecker.ChecksExactly | pkg/gateway/healthcheck/checker.go:131-149 | every endpoint is checked at the first tick, and after a check next at the first tick at least its interval later |
| HealthChecker.CheckSpacing | pkg/gateway/healthcheck/checker.go:131-149 | successive checks start at least the interval and less than the interval plus one tick gap apart |

## Left out

- BoundedLoadPicker.Threshold: uses real numbers for float64, so rounding and the conversion of values beyond 2^64 are not modelled.
- BoundedLoadLedger.CountIsCountedMinusStale: assumes OutHeader events carry a non-empty remote address; an RPC with an empty one is counted again by a repeated header, which CountIsSince covers. The statements about exactness are for runs of fewer than 2^64 events.
- BoundedLoadPicker.Picker.Pick: the statistics change freely while it searches, but no other Pick advances the shared counter meanwhile; with concurrent Picks one may try a connection twice, as the source comment says, and the statements about a covered round do not apply.
- AuthCodec.ParseTenantIDs: takes tenant validity from the cases the source's tests list; the library function behind it is not part of this model.
- AuthRoundTrip.NewAuthResult: takes PromQL selector validity as a parameter.
- RoutesMatcher.Matcher.Match: works on bytes; for templates that are valid UTF-8 this is the same language, since literals are whole segments between slashes.
- RouteMatching.AtomsMatchSegments: covers templates whose parameters are whole segments; a parameter next to literal text in one segment is compiled but not given a segment-wise reading.
- ConnectionTTL.TTLRange: takes the FNV hash of the address as an arbitrary 64-bit value.
- MimirOverrides.Wrap: is stated for routes whose parameters are whole segments and that, if they have one, have no literal with the placeholder text, as all Mimir routes do; the lookup of a tenant's settings is a parameter.
- HealthChecker.Checker.IsHealthy: assumes unique endpoint names; endpoints that share a name share their counts and timestamps in the source. The filtering of disabled endpoints is not modelled.
- ConnectionTTL.ConnectionLimiter.ConnectionState: takes the bounds after the constructor has clamped negative ones and rejected a minimum above the maximum.
- RequestLimiter.AtMostLimitInside: takes the limit after its conversion to 32 bits, and assumes fewer than 2^31 concurrent requests and a positive limit; other limits disable the limiter.
- LeastInflight.CountIsStartsMinusEnds: counts are unbounded; overflow of a 64-bit count is not modelled.
- MirrorTheorems.EndMeansEverything: blocked readers wake by a step that is not enabled while they sleep; that a woken goroutine is eventually scheduled is not modelled. Overlapping Reads on one reader are not modelled.
- Byte copies between segments and pooled arrays: segments are values, so overwriting a recycled array is described only by the statement that a pending segment can be in the pool.
- Which mirrors a request selects, timeouts and in-flight limits of mirroring.
- Transports, TLS, gRPC dialing, DNS discovery and reverse-proxy wiring; the round-robin host provider, whose argument is the picker's and simpler.
- Metrics, logging, tracing, flags, YAML decoding and configuration reload.
- Stripping of the auth response's transport headers, the request sent to the auth service, health-check URLs and HTTP calls, Retry-After formatting.
- Route tables, client-IP extractor priority, error mapping and OpenTSDB conversion.
