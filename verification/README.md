# emicro, verified

A Dafny model of the parts of the emicro microservice framework in which state, interleaving or byte
layout make the code hard to judge by reading: its load balancers, its rate limiters, its RPC wire
format with the server loop on top, and its broadcast fan-out. Check it with
`dafny verify dfyconfig.toml` (Dafny 4.11).

## How the model is laid out

- `Prelude`: 32-bit wrap-around, sums over selected indices.
- `SmoothWeights`, `SmoothWeights32`, `WeightPicker`, `WeightPickerRuns`: the smooth weighted round
  robin. First the algorithm, with one definition for integers and for `uint32`; then how far the two
  agree; then the code on objects; then any interleaving of picks and callbacks, with a step for each
  point at which another goroutine may act.
- `LeastActive`, `FixWindow`: the lock-free picker and limiter as atomic steps, plus the code as it runs
  when nothing interferes. The two views are proved equal (`AloneIsPick`, `AloneIsAllow`).
- `SlideWindow`, `RedisSlideWindow`, `RedisFixWindow`: the other limiters against what a full history
  says.
- `Wire`, `RequestCodec`, `ResponseCodec`, `Framing`, `RpcServer`: messages, streams of messages, and
  the connection loop.
- `P2C`, `P2CStats`, `BroadcastAll`, `WeightedRandom`: the latency-aware picker, its statistics, the
  fan-out protocol, the random picker.

State machines have a `Step` datatype, `Enabled` and `Apply`; `Run` follows a list of steps, and a
theorem over `Run` is a theorem over every interleaving. In-place code is methods over arrays or
objects, each proved equal to a function of the old state; the theorems are about that function. `None`
stands for a Go panic in the codecs and for `ErrNoSubConnAvailable` in the pickers.

## Where the code and its intent differ

The model follows the code. These are results, each with the condition under which the intent holds:

- The weighted picker's weights are `uint32` and go below zero on purpose. For small weights the code
  follows the algorithm for ever exactly when the algorithm never compares a negative weight in its
  first W picks (`AgreeForEverIff`). For equal weights that means at most three of them
  (`EqualAgreeForEverIff`): of four or more connection 0 is chosen 2^32/(n*w)+1 times in a row
  (`StickEndsIff`). Two candidates never violate it (`TwoCandidatesAgree`).
- The failure guard of the `Done` callback tests the initial weight, so a connection that keeps failing
  ends with the largest weight there is (`FailuresEndOnTop`, `DoneIsGradualIff`).
- `AddUint32(&active, -1)` does not compile as written; it is modelled as the decrement it means.
- The fixed window's clock is the nanosecond within the second. At any point of a run the
  window can still reopen exactly when its end lies below the largest reading (`ReopensIff`): one of 500
  ms that starts at 600 ms never does, nor one of a second or more (`LongWindowsNeverReopen`), although
  the limiter's own test expects it to. The bound of twice the rate per interval survives the clock's
  return to 0 (`TwicePerInterval`); the rate itself is kept only by windows that never reopen and in
  degenerate cases (`KeepsRateIff`).
- The sliding window compares with `>` and admits one request more than `maxRate` (`BurstAdmitsOneMore`,
  `AtMostOneMore`). It reads the time before it takes the lock; if requests come late by up to a lag, that
  bound holds exactly of intervals shorter than the window by the lag (`AtMostOneMoreIff`). The limit itself holds exactly in the runs whose requests already keep it, in which
  the limiter rejects nothing (`LimitHoldsIff`).
- The Redis sorted set stores one member per millisecond, so its threshold bounds milliseconds, not
  requests (`ThresholdHolds`, `BurstIsMerged`). It bounds requests exactly when it is 0 or 1
  (`BoundsRequestsIff`), and in runs with at most one request a millisecond (`SpacedRequestsAreBounded`).
- When picks are more than a second apart the P2C picker always takes the busier connection
  (`SparseTrafficPicksHeavier`); no connection starves exactly when they are not (`NobodyStarvesIff`).
- The Redis fixed window may admit 2*limit-1 requests around the end of a key's life, and never more
  (`LessThanTwicePerWindow`, `LessThanTwiceIsAttained`). So it keeps its limit only if that is at most 1
  (`KeepsLimitIff`).
- A failed dial in the fan-out sends outside the `select` and blocks for ever if the receiver is gone
  (`CanCloseIff`, `EndsClosedIff`).
- A request longer than 2^32-1 bytes panics or silently loses data (`RoundTripIff`).

## Model

| member | source | states |
|---|---|---|
| SmoothWeights.LeaderIsFirstMax | loadbalance/roundrobin/weight_picker.go:66-82 | the scan ends without a candidate iff the filter rejects all, and otherwise with the first connection of largest weight |
| SmoothWeights.PickKeepsBalance | loadbalance/roundrobin/weight_picker.go:68-84 | an integer pick keeps the weights' sum at W and every weight above -W, and its choice had a positive weight to give |
| SmoothWeights.Ledger | loadbalance/roundrobin/weight_picker.go:30-84 | after t picks a connection holds its initial weight, plus t grants, minus W for each time it was chosen |
| SmoothWeights.RejectedUntouched | loadbalance/roundrobin/weight_picker.go:69-71 | a connection the filter rejects keeps its weight and is never chosen |
| SmoothWeights.Smoothness | loadbalance/roundrobin/weight_picker.go:68-84 | at every prefix of a run no connection runs ahead of its share by two picks, nor lags by as many as there are accepted connections |
| SmoothWeights.Period | loadbalance/roundrobin/weight_picker.go:23-85 | W picks from Build's state restore every weight |
| SmoothWeights.ExactShareOfAnyCycle | loadbalance/roundrobin/weight_picker.go:61-85 | any W consecutive picks, whenever they start, restore the state and choose each accepted connection exactly as often as its weight |
| SmoothWeights.ExactShare | loadbalance/roundrobin/weight_picker.go:23-85 | k*W picks from Build choose connection i exactly k*weight times, in any node order and under any fixed filter |
| SmoothWeights32.WrappingRefinesExact | loadbalance/roundrobin/weight_picker.go:73-84 | while every compared integer fits in uint32 the code makes the integer picker's choices and holds its weights modulo 2^32 |
| SmoothWeights32.NegativeMisleads | loadbalance/roundrobin/weight_picker.go:73-84 | with (n+2)*W <= 2^32 for n accepted connections, the first pick at which the algorithm compares a negative weight is one where the code chooses differently |
| SmoothWeights32.AgreeIffNoneNegative | loadbalance/roundrobin/weight_picker.go:73-84 | with (n+2)*W <= 2^32 for n accepted connections, code and algorithm agree on a prefix of the run iff no weight compared in it is negative |
| SmoothWeights32.CodeDealsExactShares | loadbalance/roundrobin/weight_picker.go:23-85 | if the first W picks stay in range, the uint32 code gives exact shares for ever |
| SmoothWeights32.AgreeForEverIff | loadbalance/roundrobin/weight_picker.go:73-84 | with (n+2)*W <= 2^32 for n accepted connections, the code follows the algorithm for ever iff the first W picks compare no negative weight |
| SmoothWeights32.TwoCandidatesAgree | loadbalance/roundrobin/weight_picker.go:61-85 | with at most two candidates and W < 2^31 code and algorithm agree at every pick |
| SmoothWeights32.LightFleetDiverges | loadbalance/roundrobin/weight_picker.go:73-84 | with (n+2)*W <= 2^32, if no weight reaches a third of the total the second pick is already another one |
| SmoothWeights32.EqualWeightsStick | loadbalance/roundrobin/weight_picker.go:73-84 | n >= 4 equal weights w with n*w < 2^32: pick t is connection 0 for every t with t*n*w <= 2^32 |
| SmoothWeights32.StickEndsIff | loadbalance/roundrobin/weight_picker.go:73-84 | with n*w < 2^32 and q = 2^32/(n*w) the first q+1 picks are connection 0; the next is connection 1 iff (q+1)*n*w - 2^32 <= (q+3)*w, which (n-3)*n*w <= 2^32 implies, and otherwise connection 0 again |
| SmoothWeights32.EqualInTurn | loadbalance/roundrobin/weight_picker.go:61-85 | on integers, equal weights are dealt out in turn: pick t is connection t mod n |
| SmoothWeights32.EqualAgreeForEverIff | loadbalance/roundrobin/weight_picker.go:61-85 | n equal weights w with n*w < 2^32: the code follows the algorithm for ever iff n is 1, or n is 2 or 3 and (n+1)*w < 2^32 |
| SmoothWeights32.RoomIsNeeded | loadbalance/roundrobin/weight_picker.go:73-84 | three weights of 2^30 never compare a negative value, yet the third pick differs: without room AgreeIffNoneNegative is false |
| WeightPicker.DoneIsGradualIff | loadbalance/roundrobin/weight_picker.go:122-134 | a report moves the efficient weight by at most one in its own direction iff it is not a failure of a weighted connection at 0 |
| WeightPicker.FailuresEndOnTop | loadbalance/roundrobin/weight_picker.go:124-131 | w failures in a row fade a weight w to 0, and the next makes it 2^32-1 |
| WeightPicker.SuccessesRaise | loadbalance/roundrobin/weight_picker.go:124-133 | k successes in a row raise any efficient weight by exactly k, up to 2^32-1 |
| WeightPicker.RecoversIff | loadbalance/roundrobin/weight_picker.go:124-134 | when a success undoes a failure and a failure a success, for every pair of weights |
| WeightPicker.WeightConn.Done | loadbalance/roundrobin/weight_picker.go:89-135 | only the efficient weight changes: up by one for a success below 2^32-1, down by one for a failure of a weighted connection above 0, to 2^32-1 for one at 0, and not otherwise |
| WeightPicker.Picker.Build | loadbalance/roundrobin/weight_picker.go:23-49 | distinct connections whose three weights are all the configured one |
| WeightPicker.Picker.Scan | loadbalance/roundrobin/weight_picker.go:65-79 | the in-place scan computes the increased weights, their total modulo 2^32 and the first maximum |
| WeightPicker.Picker.Pick | loadbalance/roundrobin/weight_picker.go:61-137 | the objects after Pick and its answer are those of PickOnce; efficient weights are untouched |
| WeightPickerRuns.Conserved | loadbalance/roundrobin/weight_picker.go:68-85 | in every interleaving of picks, filters and callbacks the current weights sum, modulo 2^32, to the initial ones plus what picks under way have added |
| WeightPickerRuns.EfficientCounts | loadbalance/roundrobin/weight_picker.go:89-135 | in every interleaving an efficient weight is the initial one plus the successes and, for a weighted connection, minus the failures reported of calls that had chosen it, while that stays in range |
| WeightPickerRuns.Exclusion | loadbalance/roundrobin/weight_picker.go:72-78 | a connection's mutex names exactly the one call that is inside its section |
| WeightPickerRuns.SectionUndisturbed | loadbalance/roundrobin/weight_picker.go:72-78 | no step of another call changes a connection's weights while a call is inside its section |
| WeightPickerRuns.SoloIsPickOnce | loadbalance/roundrobin/weight_picker.go:61-137 | from any state with free mutexes, the steps of an uninterrupted call add up to PickOnce, whatever its filter; it fails iff PickOnce chooses nothing |
| LeastActive.CountsOutstanding | loadbalance/leastactive/picker.go:70-86 | in every interleaving a counter is, modulo 2^32, the number of calls given to its connection and not finished |
| LeastActive.SpreadBound | loadbalance/leastactive/picker.go:59-86 | in every interleaving of picks and callbacks, with at most k picks under way and fewer than 2^32 picks in all, a counter exceeds another by at most k plus the calls the other has finished |
| LeastActive.SpreadBoundAttained | loadbalance/leastactive/picker.go:59-86 | for every k >= 1 and f with 2f+k < 2^32 some run over two connections finishes f calls of one and leaves the other k+f above it |
| LeastActive.SpreadAtMostK | loadbalance/leastactive/picker.go:59-80 | so until the first callback no two counters differ by more than k |
| LeastActive.SpreadAttained | loadbalance/leastactive/picker.go:59-80 | for every k below 2^32 some interleaving makes one counter exactly k larger than all others |
| LeastActive.AloneIsPick | loadbalance/leastactive/picker.go:59-80 | the atomic steps of an uninterrupted pick, begun in any state, choose the first smallest accepted counter and increase only that: what Picker.Pick promises |
| LeastActive.AloneIsRun | loadbalance/leastactive/picker.go:59-80 | those steps extend any run |
| LeastActive.Picker.Pick | loadbalance/leastactive/picker.go:55-80 | without interference the first accepted connection with the smallest counter is chosen and only its counter grows; none iff all accepted counters are at their maximum |
| LeastActive.Picker.Done | loadbalance/leastactive/picker.go:83-85 | the callback takes one off the counter of its connection |
| FixWindow.AdmittedBound | ratelimit/fix_window.go:44-65 | in every interleaving at most maxRate*(1 + T/(interval+1)) requests are admitted when no clock reading exceeds T |
| FixWindow.BoundIsAttained | ratelimit/fix_window.go:44-65 | that bound is exact: for every interval, positive rate and clock limit some run admits that many and rejects none |
| FixWindow.OneByOneIsRun | ratelimit/fix_window.go:44-65 | requests one after the other, whatever the clock reads, are a run of the interleaved steps, with the same words and admissions |
| FixWindow.LongWindowsNeverReopen | ratelimit/fix_window.go:44-57 | with an interval that no reading exceeds (any of a second or more) the start never moves and exactly the first maxRate requests are admitted |
| FixWindow.ReopensIff | ratelimit/fix_window.go:44-57 | after any run, with any requests under way, some continuation moves the window iff start + interval is below the largest reading |
| FixWindow.AloneIsAllow | ratelimit/fix_window.go:44-65 | the atomic steps of an uninterrupted request add up to Allow |
| FixWindow.AdmittedIff | ratelimit/fix_window.go:44-65 | of requests made one at a time exactly the first maxRate of every window are admitted, where a window ends with the first reading more than an interval beyond its start |
| FixWindow.TwicePerInterval | ratelimit/fix_window.go:44-65 | requests one at a time, at times that do not go back: any span of one interval of real time admits at most 2*maxRate, also across seconds, where the reading starts again at 0 |
| FixWindow.TwiceIsAttained | ratelimit/fix_window.go:44-65 | for every positive rate and every interval below the largest reading 2*maxRate are admitted within one nanosecond |
| FixWindow.KeepsRateIff | ratelimit/fix_window.go:44-65 | every span of one interval admits at most maxRate of the requests made one at a time iff the interval is 0 or no reading exceeds it, or maxRate is at most 0 or at least 2^63-1 |
| FixWindow.FixWindowLimiter.Intercept | ratelimit/fix_window.go:42-67 | start, counter and verdict after a request are those of Allow |
| RequestCodec.MetaSizeAnyOrder | rpc/message/request.go:137-144 | the size of the metadata does not depend on which pair is taken first |
| RequestCodec.MetaTextSize | rpc/message/request.go:66-75 | every iteration order writes the same number of bytes |
| RequestCodec.WholeMap | rpc/message/request.go:108-125 | scanning the pairs restores the map, whatever order they were written in |
| RequestCodec.DecodedIsClean | rpc/message/request.go:97-125 | whatever bytes are decoded, names hold no newline, keys no newline or carriage return, values no newline |
| RequestCodec.RoundTripIff | rpc/message/request.go:40-150 | measure, encode, decode gives the request back iff the delimiters stay out of names, keys and values and the message is shorter than 2^32 bytes, for every iteration order and any data |
| RequestCodec.WireLayout | rpc/message/request.go:41-77 | the bytes of an encoded request: three big-endian words, three single bytes, the names and pairs with their delimiters, the data |
| RequestCodec.DecodesIff | rpc/message/request.go:80-132 | the decoder survives exactly the bytes with a header of the announced length, at least 15, that reads as two lines and any number of pairs, followed by anything without a newline |
| RequestCodec.DecodedMeans | rpc/message/request.go:80-132 | what it returns for them, with later pairs over earlier ones of the same key |
| RequestCodec.Message.CalculateHeaderLength | rpc/message/request.go:134-146 | the loop over the map sets the header size modulo 2^32 and nothing else |
| RequestCodec.Message.CalculateBodyLength | rpc/message/request.go:148-150 | sets the body length modulo 2^32 and nothing else |
| RequestCodec.EncodeReq | rpc/message/request.go:40-78 | the buffer filled in place is Encoded for the order the map was walked in; a panic happens only if the header exceeds the buffer |
| RequestCodec.PutMeta | rpc/message/request.go:66-75 | the loop over the map writes every pair once, in some order, directly behind the names, and leaves the rest of the buffer alone |
| RequestCodec.DecodeReq | rpc/message/request.go:80-132 | the object filled field by field is Decoded of the bytes, and a panic is exactly where Decoded is None |
| RequestCodec.ThereAndBack | rpc/message/request_test.go:83-90 | the calls in that order return an equal message iff the old message is clean and fits |
| ResponseCodec.RoundTripIff | rpc/message/response.go:27-84 | measure, encode, decode gives the response back iff it is shorter than 2^32 bytes; error and data may hold any bytes |
| ResponseCodec.WireLayout | rpc/message/response.go:27-52 | the bytes of an encoded response |
| ResponseCodec.EncodeOfDecoded | rpc/message/response.go:27-76 | bytes of the announced length below 2^32 that decode are what encoding the result gives back |
| ResponseCodec.Message.CalculateHeaderLength | rpc/message/response.go:78-80 | 15 plus the error's length, modulo 2^32 |
| ResponseCodec.EncodeResp | rpc/message/response.go:27-52 | the buffer filled in place is Encoded, and panics exactly where Encoded is None |
| ResponseCodec.DecodeResp | rpc/message/response.go:54-76 | the object is Decoded of the bytes, and panics exactly where Decoded is None |
| Framing.RequestIsFrame | rpc/message/request.go:41-45 | an encoded request announces its own length in its first eight bytes |
| Framing.ResponseIsFrame | rpc/message/response.go:28-32 | an encoded response announces its own length in its first eight bytes |
| Framing.PrefixFree | rpc/tcp/read.go:5-6 | no message is a proper beginning of another |
| Framing.SplitOfJoin | rpc/tcp/read.go:5-6 | a concatenation of messages splits back into exactly those messages |
| Framing.JoinOfSplit | rpc/tcp/read.go:5-6 | splitting a stream loses no byte and yields messages only |
| Framing.StreamDeterminesRequests | rpc/message/request.go:40-132 | equal byte streams carry the same requests in the same order, whatever the iteration orders were |
| RpcServer.ResponseBelongs | rpc/server.go:119-131 | on every path the response echoes message id, version, compressor and serializer and never has both error and data |
| RpcServer.PanicsIff | rpc/server.go:202-222 | a request panics the server iff its method exists and a codec it needs is not registered |
| RpcServer.AnswerIff | rpc/server.go:193-244 | with the codecs registered: the response is blank but for data d if uncompress, decode, the method, encode and compress succeed in that order and yield d, blank but for error e if e is the first failure among them, and one of the two is the case |
| RpcServer.UnknownIs | rpc/server.go:119-131 | the response for an unknown service or method |
| RpcServer.CallerSees | rpc/server.go:202-243 | with codecs that read back what they write, a caller who encoded an argument gets the method's error, or data that uncompresses and decodes to the method's result |
| RpcServer.SilentIff | rpc/server.go:97-104 | a request that does not bring the server down is left unanswered iff its metadata hold true under one-way |
| RpcServer.FateIff | rpc/server.go:80-92 | the connection is served while every event is an end of stream or a message that does not crash; it is closed iff the first other event is a read error |
| RpcServer.Invoke | rpc/server.go:193-244 | the response object filled step by step is Invoked of the request |
| RpcServer.HandleConn | rpc/server.go:80-116 | what the loop writes and how it ends is Served of the events: an end of stream keeps it running, another error ends it |
| RpcServer.OneResponseEachIff | rpc/server.go:80-130 | for any requests the connection stays up and the messages written are exactly one response per request that is not one-way, in order, each belonging to its request, iff no request panics the server and each wanted response is shorter than 2^32 bytes; the bytes then split back into those messages |
| SlideWindow.VerdictIsReference | ratelimit/slide_window.go:32-59 | for requests in time order the queue with its path that does not trim gives the verdict of the full history |
| SlideWindow.ServedIsHistory | ratelimit/slide_window.go:32-59 | so for requests in time order the times the code lets through are the reference history |
| SlideWindow.PassesIff | ratelimit/slide_window.go:32-59 | a request in time order passes iff the closed window that ends with it holds at most maxRate of those let through before |
| SlideWindow.QueueIsTail | ratelimit/slide_window.go:34-57 | the queue is the sorted end of the history, and everything it forgot is older than every later window |
| SlideWindow.QueueIsShort | ratelimit/slide_window.go:34-57 | the queue never holds more than maxRate+1 times |
| SlideWindow.AtMostOneMore | ratelimit/slide_window.go:52-57 | for requests in time order no closed interval as long as the window holds more than maxRate+1 that the code lets through |
| SlideWindow.AtMostOneMoreIff | ratelimit/slide_window.go:32-57 | for requests that reach the queue up to lag late: that bound holds of every closed interval of length u, in every run, iff u <= interval - lag, or u <= interval if maxRate is 0 |
| SlideWindow.QueueIsServedTail | ratelimit/slide_window.go:34-57 | in whatever order requests come, the queue is the end of what was let through, and some request came more than an interval after each time it forgot |
| SlideWindow.OutOfOrderAdmitsMore | ratelimit/slide_window.go:32-57 | an instance: interval 10, a lag of 14, rate 1, and three requests of one window pass |
| SlideWindow.LimitHoldsIff | ratelimit/slide_window.go:32-59 | for requests in time order at most maxRate are admitted in every window iff at most maxRate are made in every window, and then every request is admitted |
| SlideWindow.LateIsRejected | ratelimit/slide_window.go:32-57 | out of time order a request is rejected in a run whose windows all keep the limit |
| SlideWindow.BurstAdmitsOneMore | ratelimit/slide_window.go:35-57 | a burst of k requests at one instant admits exactly min(k, maxRate+1) |
| SlideWindow.SlideWindowLimiter.Intercept | ratelimit/slide_window.go:32-59 | queue and verdict after a request are those of Admit |
| RedisSlideWindow.ExpiryIsInvisible | ratelimit/lua/slide_window.lua:21-24 | with and without PEXPIRE the script gives the same answers for ever, for any threshold and window |
| RedisSlideWindow.SetIsWindow | ratelimit/lua/slide_window.lua:11-15 | before each decision the set is exactly the admitted milliseconds of (now-window, now] |
| RedisSlideWindow.LetThroughIff | ratelimit/lua/slide_window.lua:11-26 | a call is let through iff fewer than threshold distinct admitted milliseconds lie in (now-window, now], for every threshold and window |
| RedisSlideWindow.ThresholdHolds | ratelimit/lua/slide_window.lua:15-22 | at most threshold distinct milliseconds of any window see an admission |
| RedisSlideWindow.ThresholdIsReached | ratelimit/lua/slide_window.lua:15-22 | for every threshold up to the window, threshold milliseconds in a row are let through, and the next one of that window is not |
| RedisSlideWindow.BurstIsMerged | ratelimit/lua/slide_window.lua:17-22 | requests of one millisecond are all admitted iff the threshold is at least two; otherwise only the first is |
| RedisSlideWindow.BoundsRequestsIff | ratelimit/lua/slide_window.lua:15-22 | threshold bounds the admitted requests of every window in every run iff it is 0 or 1, or not negative with an empty window |
| RedisSlideWindow.SpacedRequestsAreBounded | ratelimit/lua/slide_window.lua:15-22 | in a run with at most one request a millisecond it bounds the admitted requests of every window |
| RedisSlideWindow.Redis.Eval | ratelimit/lua/slide_window.lua:4-27 | key and answer after the commands are those of Script |
| RedisFixWindow.CountsItsLifetime | ratelimit/lua/fix_window.lua:1-21 | a key's counter is the number of requests admitted since the call that created it, never above the limit, and it expires one window after that call |
| RedisFixWindow.CounterIsHonest | ratelimit/lua/fix_window.lua:1-21 | whenever a key exists there is such a creating call |
| RedisFixWindow.LimitedIff | ratelimit/lua/fix_window.lua:1-21 | a call is limited iff the limit is below 1 or the lifetime it falls in has already admitted limit requests, and fails iff there is a limit but no positive window |
| RedisFixWindow.LessThanTwicePerWindow | ratelimit/lua/fix_window.lua:1-21 | any half-open span of one window, and any closed one if keys live through their expiry millisecond, admits at most 2*limit-1 requests, across key lifetimes; none if the limit is below 1 |
| RedisFixWindow.LessThanTwiceIsAttained | ratelimit/lua/fix_window.lua:1-21 | for every limit and every window of two milliseconds or more that many are admitted within one millisecond |
| RedisFixWindow.KeepsLimitIff | ratelimit/lua/fix_window.lua:1-21 | every span of one window admits at most limit requests, in every run, iff the limit is at most 1 or the window is not positive |
| RedisFixWindow.TiesAdmitMore | ratelimit/lua/fix_window.lua:1-21 | if a key may expire before or after a call of its expiry millisecond, limit 2 lets 5 requests into a closed window of 2 |
| RedisFixWindow.Redis.Eval | ratelimit/lua/fix_window.lua:1-21 | key and answer after the commands are those of Script |
| P2C.PenaltyIff | loadbalance/p2c/picker.go:246-258 | the product is zero iff the count of calls is -1; from zero calls on the load is the product and at least 1 |
| P2C.TakenWithinTwoIff | loadbalance/p2c/picker.go:123-142 | a connection that has waited over forcePick is certain to be taken at this pick or the next, whatever the loads, iff the next comes within forcePick or the other has not waited so long |
| P2C.SecondTakenIff | loadbalance/p2c/picker.go:129-141 | of two connections that have not waited over forcePick the lighter is taken, the first on a tie; of two that have, the heavier; and one that alone has, whatever the loads |
| P2C.ChoiceByWaits | loadbalance/p2c/picker.go:129-141 | at any pick of a run the heavier one is taken iff it has itself waited over forcePick |
| P2C.LivelyTrafficPicksLighter | loadbalance/p2c/picker.go:123-142 | as long as no pick comes over forcePick after the last picks before the run, every pick takes the lighter one |
| P2C.NobodyStarvesIff | loadbalance/p2c/picker.go:123-142 | no connection waits over forcePick at the second or a later pick iff no two picks are further apart than that, whatever the loads |
| P2C.SparseTrafficPicksHeavier | loadbalance/p2c/picker.go:129-141 | with picks more than forcePick apart every pick takes the connection with the heavier load |
| P2C.Picker.Choose | loadbalance/p2c/picker.go:123-142 | which of two connections is taken, by their latency, calls under way and waits; only its pick time changes |
| P2C.Picker.DrawPair | loadbalance/p2c/picker.go:102-114 | the pair drawn first with a success above 500 on both, or the third; always two different connections |
| P2C.PartnerReachesOthers | loadbalance/p2c/picker.go:104-108 | every other index is drawn as the second by exactly one number |
| P2C.Picker.Pick | loadbalance/p2c/picker.go:90-121 | none iff there are no connections; with two, or a drawn pair, the one that is due by latency, calls under way and waits; only the chosen one gains a call |
| P2C.Conn.Done | loadbalance/p2c/picker.go:149-181 | after a callback that runs alone latency and success are the means of old and new values with weight w on the old, cut to integers; a first callback sets them to the sample and to 1000 or 0 |
| P2C.MixedMonotone | loadbalance/p2c/picker.go:174-181 | the mean moves from the new to the old value as w grows from 0 to 1 |
| P2C.LatencySettles | loadbalance/p2c/picker.go:164-174 | with a constant sample l and factor w < 1 the distance to l after t callbacks is w^t times the first, plus truncations of less than 1/(1-w) |
| P2C.FailureIsUnhealthyIff | loadbalance/p2c/picker.go:175-181 | a failed call leaves a connection healthy iff w times its success is at least 501 |
| P2CStats.StatisticsInBounds | loadbalance/p2c/picker.go:144-181 | in every interleaving inflight is the number of calls under way, success is in 0..1000, latency is at most the slowest sample |
| P2CStats.AloneIsCompleted | loadbalance/p2c/picker.go:149-181 | the six atomic steps of an uninterrupted callback, after any run, make its connection's statistics Completed of the old ones and change no other |
| P2CStats.PenaltyNeverPaid | loadbalance/p2c/picker.go:246-258 | the two reads of load, any number of steps apart, never make the product zero |
| BroadcastAll.Safe | cluster/broadcastall/cluster.go:42-75 | in every interleaving no panic, no instance received twice, close only after all have finished, and then with every instance received unless cancelled |
| BroadcastAll.DialDecides | cluster/broadcastall/cluster.go:49-66 | a goroutine is stuck on a dial error only if its own dial failed, calls only if it succeeded, and dials once |
| BroadcastAll.RunsAreFinite | cluster/broadcastall/cluster.go:42-75 | every run has at most 4n+3 steps |
| BroadcastAll.NeverStuck | cluster/broadcastall/cluster.go:45-75 | while the receiver drains, some step is possible until the channel is closed |
| BroadcastAll.DrainedExactlyOnce | cluster/broadcastall/cluster.go:42-75 | a completed run with a draining receiver and no cancellation has closed the channel after exactly one response per instance |
| BroadcastAll.FailedDialLeaks | cluster/broadcastall/cluster.go:49-53 | a goroutine with a dial error and no receiver waits for ever and the channel stays open |
| BroadcastAll.CanCloseIff | cluster/broadcastall/cluster.go:49-75 | once cancelled and without a receiver, the fan-out can still close iff no goroutine is stuck on a dial error |
| BroadcastAll.EndsClosedIff | cluster/broadcastall/cluster.go:49-75 | every run that can go no further, cancelled and without a receiver, has closed the channel iff no goroutine is stuck on a dial error |
| WeightedRandom.AlwaysSelects | loadbalance/random/weight_picker.go:68-86 | a draw up to the total selects someone iff the filter accepts someone, even if the total wrapped |
| WeightedRandom.SelectedIffHit | loadbalance/random/weight_picker.go:69-83 | connection k is selected by exactly the draws above the weights before it, up to those with its own |
| WeightedRandom.DrawCounts | loadbalance/random/weight_picker.go:61-83 | with a total below 2^32 the first candidate is selected by w+1 draws and every other by w |
| WeightedRandom.Pick | loadbalance/random/weight_picker.go:57-87 | the two loops select what Select says for the draw, and fail iff the filter rejects all |

## Left out

- gRPC dialing, resolver, client and interceptor plumbing; etcd registry, Prometheus, OpenTelemetry, the fastest picker: libraries and network services.
- Plain round robin, plain random, hash pickers, token and leaky bucket, method limiter: stateless, a table lookup, one atomic counter, or a Go channel fed by a ticker.
- rpc/client.go: reflection and connection pooling; it also never sets a request's data.
- The body of ReadMsg is a stub in rpc/tcp/read.go; `Framing.Split` models cutting a stream at the announced lengths. `RpcServer.HandleConn` takes a finite prefix of what the connection delivers.
- JSON, protobuf, gzip, reflection and the parsing of a deadline are parameters of `RpcServer.Server`. A method may answer differently at each turn but does not see the others' state.
- A nil and an empty map, and a nil and an empty slice, are one value in the codecs, and a buffer's capacity is its length.
- Filters are pure: a pick is given the filter's verdict for each connection.
- SmoothWeights32.NegativeMisleads: for (n+2)*W <= 2^32 with n accepted connections, so that a wrapped negative lies above every other value.
- SmoothWeights32.AgreeIffNoneNegative: under the same condition, without which it is false (`RoomIsNeeded`); the direction of `WrappingRefinesExact` needs no room.
- SmoothWeights32.AgreeForEverIff: under the same condition, for the same reason.
- SmoothWeights32.LightFleetDiverges: under the same condition.
- LeastActive.SpreadBound: fewer than 2^32 picks in all; a counter that has wrapped after 2^32 adds is outside it.
- FixWindow.AdmittedBound: fewer than 2^63 requests, so that the counter does not wrap.
- SlideWindow.VerdictIsReference: the time is read before the lock is taken, so goroutines may reach the queue out of time order; the statement is for those in order. For the others `AtMostOneMoreIff` says what is left of the bound.
- SlideWindow.LimitHoldsIff: in time order too, without which it is false (`LateIsRejected`).
- Redis keys are gone after their expiry time; at the very millisecond both behaviours are covered. Members of the sorted set are exact integers.
- P2C: IEEE rounding, the log statistics and the random source; arithmetic is over the reals with truncation, and the two indices are parameters. The compare-and-swap in `choose` runs under the picker's lock and succeeds.
- BroadcastAll: what a response contains (the error sent is the dial's, not the call's), the variable `err` that the goroutines share, and the path on which ListServices fails.
