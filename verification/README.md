# Verification of ketamarouter

ketamarouter answers one kind of request: a client sends a key as protocol lines, the key is hashed with MD5,
the hash is looked up on a consistent-hash ring, and the reply names a server. This project models that request
path in Dafny and proves what each part promises, over all inputs and all runs.

- **MD5** (`Md5Spec`, `Md5Values`, `Md5Example`, `Md5Rounds`, `Md5Mixing`, `Md5`). `Md5Spec` is sections 3.1 to 3.5
  of RFC 1321 on whole messages; `Md5Values` says what its functions compute bit by bit and as numbers, and
  `Md5Example` carries one value of the RFC's test suite through all 64 steps. The class `Md5.State` is the streaming code: two-word counter, register file, partial block. For
  every way of cutting a message, init, append and finish give the digest of the specification.
- **Ring** (`Ring`, `Continuum`, `Ketama`). A linear scan says who owns a hash. The binary search finds the same
  owner within floor(log2(n+1))+1 passes; the arcs partition the 2^32 hashes; a new server moves only the keys
  it answers for. `Continuum` says which points a server table contributes; every point and key hash is a word
  of the final MD5 state, which joins the two models.
- **Sliding window** (`Window`, `CountQueue`). A log of events is the specification; the linked queue of pooled
  buckets is proved to count what is left of the log in the window.
- **Pool** (`Pool`). The two linked lists implement a small abstract pool, whose safety is proved over all runs.
- **Line protocol** (`Text`, `Protocol`, `Session`, `Messages`). Printers, parsers, the message state machine
  and the line loop are functions on values; the imperative decoder and message are proved against them, with a
  ledger that accounts for every pooled object and every row buffer.
- **Router** (`Router`). Clients, the line loop with its replies and the two commands, for every stream of bytes,
  those that make the program fail included. `Router.Serve` joins the parts: from a server list and a stream of
  GET messages to the addresses of the ring owners.
- **Replies** (`Replies`). What is written for every form of line, byte for byte.
- **Workers** (`Workers`). The clients of one worker, which share its pools. `Workers.Work` covers every
  interleaving of their events; `Workers.OwnReadsDecide` says that a connection depends on its own reads alone.
- **Admission** (`Admission`). The accept thread reads the worker counters one at a time while workers close
  connections in between; the connection cap is proved for every interleaving.

`Common` and `Arithmetic` hold what several of these share.

Some promises hold only under a condition. The code is modelled as it is and the condition is proved exact:

- command_GET reads its first parameter without looking whether there is one (src/command_func.c:8-9), so a
  stream makes the program fail if and only if some line between two messages announces a GET and waits for no
  parameter (`Router.FailingLine`, `Router.AnsweredToTheEnd`). Such a line is `+GET`, or `+GET ` and a count
  that is a multiple of 65536 but not zero (`Router.BareGet`, with `+GET 65536` in `Router.FailingRows`). Every
  method of the router and of the workers says whether the program fails and what it has written by then.
- The sum of the two ends of the ring search fits an int for every hash if the ring has less than 2^30 points,
  and for the hashes above its last point only then (`Ketama.Ketama.Search`). Runs and the router are proved
  for rings within that bound; a build allocates up to twice as many points.
- The whole key is hashed if and only if an int holds its length (`Ketama.HashedWhole`).
- The buffer of every row goes back exactly once if and only if no line is rejected: the buffer of a rejected
  line is never freed (src/server.c:252-274), and what is outstanding when all clients have left is one buffer
  for each of them (`Workers.Work`, `Workers.NothingLeft`).
- The sliding count equals the events in the window if and only if no expired bucket has reached 2^32 events
  (`Window.ExactWhenBucketsFit`); `CountQueue.OverflowRun` is a run that counts 2^32 events where there are none.
- The total is the sum of the bucket counters if and only if no bucket, live or expired, has reached 2^32 events
  (`CountQueue.CountQueue.CountIsBucketSum`); `Window.OverflowEmptiesBucket` is a live bucket that forgets.
- Printed messages decode to themselves if and only if each is well-formed (`Session.StreamRoundTrip`). Part of
  that is the count of parameters: any accepted row followed by as many parameters as it announces is dispatched
  with them if and only if the count is below 65536 (`Session.AnnouncedCountKept`; `Protocol.CountLost` is a row
  that loses its count).
- The connection cap holds over all runs if and only if the maximum is at most the number of workers times
  2^32 - 1 (`Admission.CapHoldsExactly`, which builds the run that breaks any larger maximum).
- A comment in the ring code (src/ketama.c:213) promises 160 points a server. In exact arithmetic a ring of n
  servers has all 160*n if and only if 40*n times each weight is a multiple of the total weight
  (`Continuum.FullBudget`), and each server has its own 160 if and only if all weights are equal
  (`Continuum.EvenBudget`); weights 1 and 2 give 316 points instead of 320 (`Continuum.OneToTwo`).
- In exact arithmetic a newcomer leaves a server's share as it is if and only if the newcomer's weight is the
  average of the old ones (`Continuum.AverageKeepsShare`).

`dafny verify dfyconfig.toml` checks the whole project.

## Model

| member | source | states |
|---|---|---|
| Md5.DigestOfChunks | src/md5.c:312-381 | for every cutting of a message into appends, empty ones included, the digest is the one-shot digest of the bytes |
| Md5.State.constructor | src/md5.c:312-320 | the initial state stands for the empty message |
| Md5.State.Append | src/md5.c:322-358 | the run invariant (registers are the fold of the compression over all full blocks, the buffer the tail, the counter the bit length mod 2^64) is kept and the message grows by exactly the given bytes |
| Md5.State.UpdateLength | src/md5.c:328-337 | the two-word counter with its carry counts bits mod 2^64 |
| Md5.CounterCarries | src/md5.c:333-337 | comparing the wrapped low word with an operand finds the carry of the 64-bit sum, for all words |
| Md5.State.FillFromCounter | src/md5.c:327 | the buffer fill is read off the low word correctly although the counter wraps |
| Md5.State.TopUp | src/md5.c:339-349 | a partial block is filled and is compressed exactly when it is complete |
| Md5.State.ProcessBlocks | src/md5.c:351-353 | full blocks are absorbed in order and fewer than 64 bytes are left, the right ones |
| Md5.State.Take | src/md5.c:339-357 | the three parts of an append together absorb all whole blocks and keep the tail |
| Md5.State.LengthBytes | src/md5.c:372-374 | the saved bytes are the 64-bit length, low-order byte first (section 3.2 of RFC 1321) |
| Md5.State.PadCount | src/md5.c:363-376 | the bytes taken from the pad array are exactly the padding of section 3.1 of RFC 1321 |
| Md5.PadPrefix | src/md5.c:376 | the masked count formula gives the one admissible padding for every length |
| Md5.State.DigestBytes | src/md5.c:379-380 | the digest is the four registers, low-order byte first |
| Md5.State.Finish | src/md5.c:360-381 | finishing absorbs the padded message and delivers the digest of the message |
| Md5.State.Process | src/md5.c:131-310 | one call is one table-driven compression, for every state and block |
| Md5Rounds.Quad | src/md5.c:203-214 | four SETs with rotating registers are four steps of the table of section 3.4 of RFC 1321 |
| Md5Rounds.SetIsTurn | src/md5.c:197-205 | the shift-or rotation and the order of the additions in SET compute the step of RFC 1321 |
| Md5Rounds.Round1 | src/md5.c:199-223 | the 16 unrolled SETs of round 1 are steps 1 to 16 of the table |
| Md5Rounds.Round2 | src/md5.c:225-249 | the same for steps 17 to 32 |
| Md5Rounds.Round3 | src/md5.c:251-275 | the same for steps 33 to 48 |
| Md5Rounds.Round4 | src/md5.c:277-301 | the same for steps 49 to 64 |
| Md5Mixing.TurnInverse | src/md5.c:203-205 | a SET can be undone when the block word is known, in both orders |
| Md5Mixing.MixInverse | src/md5.c:197-301 | the 64-step mixing is a bijection for each block: running the steps backwards undoes it, and it undoes that |
| Md5Mixing.MixInjective | src/md5.c:197-301 | two register files mixed with one block agree only if they were equal |
| Md5Spec.PaddingUnique | src/md5.c:376 | exactly one count from 1 to 64 brings a length to 56 mod 64 |
| Md5Spec.PadWholeBlocks | src/md5.c:375-378 | padding and length end on a block boundary |
| Md5Spec.PadInjective | src/md5.c:360-378 | distinct messages have distinct padded streams, whatever their lengths |
| Md5Spec.LittleEndianInjective | src/md5.c:373-374 | length bytes determine the length |
| Md5Spec.EncodeDecodeWord | src/md5.c:192 | decoding four bytes undoes the encoding of a word |
| Md5Spec.AbsorbPrefix | src/md5.c:351-353 | what has been absorbed does not depend on what follows |
| Md5Values.FChooses | src/md5.c:202 | F takes the bits of y where x has ones and those of z elsewhere |
| Md5Values.GChooses | src/md5.c:227 | G takes the bits of x where z has ones and those of y elsewhere |
| Md5Values.HIsParity | src/md5.c:253 | H is the parity of the three bits |
| Md5Values.IMeaning | src/md5.c:279 | I differs from y by x where z has ones, and by one elsewhere |
| Md5Values.AddValue | src/md5.c:203-205 | words are added as numbers modulo 2^32 |
| Md5Values.ByteOfValue | src/md5.c:374 | the byte made of a number below 256 has that value |
| Md5Values.DecodeWordValue | src/md5.c:192 | four bytes are decoded into the number they stand for, low-order byte first |
| Md5Values.EncodeWordValue | src/md5.c:380 | a word is encoded into the bytes of its number |
| Md5Values.LittleEndianValue | src/md5.c:373-374 | the length bytes stand for the length as far as they reach |
| Md5Values.WordsValue | src/md5.c:191-192 | word i of a block is the number in its bytes 4i to 4i+3 |
| Md5Values.PadLayout | src/md5.c:363-378 | the padded message is itself, a byte with only its top bit set, zeros, and the bit length mod 2^64 as a number in the last eight bytes of a block |
| Md5Values.OutputOfInitial | src/md5.c:316-319 | the initial registers are the sixteen bytes that section 3.3 of RFC 1321 lists |
| Md5Values.OutputValue | src/md5.c:379-380 | the digest is the numbers of the four registers, one after the other |
| Md5Example.DigestOfAlphabet | src/md5.c:131-381 | MD5 of "abcdefghijklmnopqrstuvwxyz" is the value in appendix A.5 of RFC 1321, which depends on every constant, shift and word order of the 64 steps |
| Ring.SuccessorMeaning | src/ketama.c:151-152 | the scan stops at the first point that is not below the hash |
| Ring.SuccessorUnique | src/ketama.c:161-166 | on a sorted ring the local test of the search, two neighbours around the hash, identifies that point |
| Ring.RoutedIsArc | src/ketama.c:151-178 | each point gets exactly as many of the 2^32 hashes as its arc is long, duplicates and wrap-around included |
| Ring.RoutedToFirst | src/ketama.c:151-178 | the first point gets the hashes above the last point and those up to its own, one arc through zero |
| Ring.ServedByIsArcSum | src/ketama.c:151-178 | a server's share of the hashes is the sum of the arcs of its points |
| Ring.ServedCoversCircle | src/ketama.c:151-178 | the servers' shares add up to 2^32 |
| Ring.OwnerAnswers | src/ketama.c:151-178 | the owner depends only on the multiset of points: nearest at or after, or least of all |
| Ring.MinimalRemapping | src/ketama.c:139-243 | with one server's points added, in any sorted order, a key moves if and only if the new server answers for it |
| Continuum.AddServerRemapping | src/ketama.c:186-244 | the same for whole builds whose old shares do not change |
| Continuum.AverageKeepsShare | src/ketama.c:203-204 | in exact arithmetic a newcomer leaves the share of a server of positive weight as it is if and only if its own weight is the average |
| Continuum.AverageNewcomerRemapping | src/ketama.c:186-244 | in exact arithmetic and for any old weights, a newcomer of average weight moves a key if and only if it answers for it |
| Continuum.EqualWeightsRemapping | src/ketama.c:186-244 | with equal positive weights and exact arithmetic, adding a server moves a key if and only if the new server answers for it |
| Continuum.PointBudget | src/ketama.c:196-239 | the points never exceed 160 a server for any share errors d with 40*n*d below 1, and number at least 156*n, or 156*n+4 when exact |
| Continuum.FullBudget | src/ketama.c:203-213 | in exact arithmetic n servers have all 160*n points if and only if 40*n times each weight is a multiple of the total weight |
| Continuum.EvenBudget | src/ketama.c:203-213 | in exact arithmetic each server has 160 points if and only if all weights are equal |
| Continuum.OneToTwo | src/ketama.c:203-213 | weights 1 and 2 give 316 points, so the promise of 160 fails and the bound 156*n+4 is tight |
| Continuum.FloorKeepsWhole | src/ketama.c:204 | the floor takes nothing from a share if and only if the share is whole |
| Continuum.ShareBounds | src/ketama.c:203-204 | the floor of a share is within the error and less than one below the ideal share |
| Continuum.IdealShareAdds | src/ketama.c:203-204 | ideal shares are additive, so the shares of all weights are 40 a server |
| Continuum.PointsLength | src/ketama.c:200-236 | the loops generate four points for each unit of share |
| Continuum.PointsOrdinal | src/ketama.c:232 | every generated point names a server of the table |
| Continuum.ShareTimesTotal | src/ketama.c:203-204 | an ideal share times the total weight is 40*n times the weight |
| Continuum.BytesValue | src/ketama.c:113 | the bytes that are hashed have the char values of the string |
| Continuum.HashWordValue | src/ketama.c:227-230 | word h of a hash is the number in bytes 4h to 4h+3 of the MD5 digest, low-order byte first |
| Continuum.LabelMeaning | src/ketama.c:217 | a label is the address, a dash and the number k in decimal without leading zeros |
| Continuum.LabelsDiffer | src/ketama.c:217 | the labels of one server are equal only for equal k |
| Continuum.ServerPointAt | src/ketama.c:211-234 | point 4k+h of a server is the number in bytes 4h to 4h+3 of the MD5 digest of its label k |
| Continuum.PointValue | src/ketama.c:200-236 | the same for the points of all servers, position by position: those of a server follow those of the servers before it and name it |
| Ketama.PointIsHashWord | src/ketama.c:227-230 | a decoded point is one word of the final MD5 state of its label |
| Ketama.HashedWhole | src/ketama.c:113 | a whole string is hashed if and only if an int holds its length |
| Ketama.KeyHashValue | src/ketama.c:117-126 | a key hashes to the number in the first four bytes of its MD5 digest, low-order byte first |
| Ketama.Md5Digest | src/ketama.c:108-115 | for every string the digest is that of the one-shot specification, of the part that the conversion of its length to int leaves |
| Ketama.Hashi | src/ketama.c:117-126 | a key hash is the first word of the final MD5 state of that part |
| Ketama.FormatAddress | src/ketama.c:89 | the stored address is a prefix of "addr:port" that fits its buffer, and all of it if and only if all of it fits |
| Ketama.AddressMeaning | src/ketama.c:89 | an address that fits is the given one, a colon and the port in decimal without leading zeros |
| Ketama.Ketama.LabelFits | src/ketama.c:214-219 | the label buffer never truncates a label |
| Ketama.Qsort | src/ketama.c:243 | sorted by point and the same elements; the order of equal points is left open |
| Ketama.Ketama.constructor | src/ketama.c:49-59 | a new object has no servers and no continuum |
| Ketama.Ketama.EnsureRoom | src/ketama.c:77-87 | the first allocation and the doubling keep every stored server and make room for one more |
| Ketama.Ketama.AddServer | src/ketama.c:74-95 | the table, the count and the total weight follow the list of adds; a built continuum is untouched |
| Ketama.Ketama.GeneratePoints | src/ketama.c:211-235 | the inner loops append exactly the server's points, in order, inside the array |
| Ketama.Ketama.NextServer | src/ketama.c:200-236 | one server's points extend those before it and still fit the allocation |
| Ketama.Ketama.CreateContinuum | src/ketama.c:186-244 | the first build with servers yields a sorted permutation of all their points; every other call changes nothing |
| Ketama.Ketama.GetServerAddress | src/ketama.c:128-136 | the address stored by that add, or the empty string for an ordinal out of range |
| Ketama.Ketama.Search | src/ketama.c:146-178 | on every sorted non-empty ring and for every hash the search finds the owner by linear scan, every read in bounds, within floor(log2(n+1))+1 passes; the midpoint sums fit an int if 2*n does, and for hashes above the last point only then |
| Ketama.Ketama.PassHalves | src/ketama.c:155-177 | a pass without a hit keeps the successor inside and halves the interval, or the first point answers |
| Ketama.Log2Meaning | src/ketama.c:155 | the bound on the passes is the integer logarithm to base 2 |
| Ketama.Ketama.GetServerOrdinal | src/ketama.c:139-179 | -1 without a continuum; otherwise the owner by linear scan, every read in bounds, within floor(log2(n+1))+1 passes, and the same bound on the midpoint sums |
| Ketama.Apply | src/ketama.c:74-244 | one operation answers rightly, the build that makes the ring places exactly the servers added before it with its own rounding, and a ring once built never changes |
| Ketama.Run | src/ketama.c:74-244 | over every run of adds, builds and lookups, -1 exactly before the effective build, then one ring answers every lookup with the address its add stored, and it is a sorted permutation of the points of the servers added before that build, with that build's rounding |
| Window.BaseMultiple | src/countque.c:5-8 | bucket starts are multiples of the term, for negative times too |
| Window.BaseMonotone | src/countque.c:5-8 | later times have no earlier bucket |
| Window.BaseContains | src/countque.c:5-8 | a bucket is one term wide and contains its times; before zero the remainder of C puts them below its start |
| Window.BaseUnique | src/countque.c:5-8 | no other multiple of the term does |
| Window.CountAtIsNumber | src/countque.c:93-106 | a bucket's count is the number of the events whose bucket it is |
| Window.CountAfterIsNumber | src/countque.c:34-57 | the window's count is the number of the events whose buckets are later than its edge |
| Window.WindowAge | src/countque.c:16-57 | for clocks that are not negative, every event at most term*(max-1) old is counted and none that is term*max old or older |
| Window.RecordEvent | src/countque.c:83-106 | one event into the last or a new bucket represents the log with that event |
| Window.ExpireFirst | src/countque.c:38-44 | dropping the first bucket moves the window past it and subtracts exactly what 32 bits kept of its events |
| Window.ExpireNone | src/countque.c:38 | nothing between the window's edge and the first bucket is lost |
| Window.FewBuckets | src/countque.c:34-44 | after an adjustment at most tic_max_cnt buckets remain |
| Window.BucketSumExactly | src/countque.c:41-106 | the total is the sum of the bucket counters if and only if no bucket, live or expired, reached 2^32 events |
| Window.OverflowEmptiesBucket | src/countque.c:95 | 2^32 events in a live bucket leave a total of 2^32 and a bucket counter of 0 |
| Window.LossBound | src/countque.c:41 | overflowed buckets never make the total exceed the number of events |
| Window.ExactWhenBucketsFit | src/countque.c:34-57 | the counter equals the events in the window if and only if no expired bucket reached 2^32 events |
| CountQueue.CountQueue.constructor | src/countque.c:59-70 | an empty queue represents the empty log |
| CountQueue.CountQueue.TicInit | src/countque.c:21-27 | the new bucket is one nobody held, counts one event and has no successor, whatever the pooled object held |
| CountQueue.CountQueue.BumpLast | src/countque.c:93-95 | only the last bucket changes |
| CountQueue.CountQueue.Link | src/countque.c:85-102 | the chain grows by one bucket at its end, or starts |
| CountQueue.CountQueue.Adjust | src/countque.c:34-50 | expiry keeps the representation of the log, returns each bucket to the pool and leaves both ends null together |
| CountQueue.CountQueue.Settle | src/countque.c:54-56 | after the adjustment the queue is valid again, its count is what the log says, and at most tic_max_cnt buckets remain |
| CountQueue.CountQueue.TicTime | src/countque.c:78-111 | the event is logged; the result is what the counters keep of the window; at most tic_max_cnt buckets remain |
| CountQueue.CountQueue.Count | src/countque.c:52-57 | the log is unchanged and the result is what the counters keep of the window |
| CountQueue.CountQueue.ExactCount | src/countque.c:52-111 | the count of a valid queue is the events in the window if and only if no expired bucket overflowed |
| CountQueue.CountQueue.CountIsBucketSum | src/countque.c:21-111 | the count of a valid queue is the sum of its bucket counters if and only if no bucket overflowed |
| CountQueue.OverflowRun | src/countque.c:34-111 | 2^32 tics in one second and a count in the next return 2^32 where no event is in the window |
| CountQueue.CountQueue.Free | src/countque.c:113-126 | every bucket returns to the pool and nobody else's object does |
| CountQueue.Run | src/countque.c:34-126 | over every run of tics and counts under a clock that never goes back each result is the filtered log's count and what overflows have lost, equal to the former under the exact condition, and in the end the pool's outstanding objects are as before |
| CountQueue.RightCountAge | src/countque.c:16-111 | the same for the results of a run in which no expired bucket overflowed |
| Pool.PoolState.GetIsSafe | src/pabuf.c:55-81 | an object handed out was held by nobody and is pooled no more |
| Pool.PoolState.BackIsSafe | src/pabuf.c:83-108 | a return keeps the pool valid and pools at most that object |
| Pool.PoolState.NewOrPooled | src/pabuf.c:55-108 | an object is new if and only if nothing is pooled, and a return leaves what is pooled as it is if and only if the pool is full |
| Pool.PoolState.BackThenGet | src/pabuf.c:55-108 | a returned object is the next one handed out unless the pool was full |
| Pool.HonestRun | src/pabuf.c:55-108 | over every run of honest callers the pool stays valid and each object is held exactly as often as handed out and not returned, so never twice |
| Pool.Pool.constructor | src/pabuf.c:115-126 | a new pool is valid and empty |
| Pool.Pool.GetEshell | src/pabuf.c:19-37 | an empty shell is reused or made, in neither list, with its bytes counted |
| Pool.Pool.BackEshell | src/pabuf.c:39-53 | the empty list stays within its maximum and the bytes follow the shells on both lists |
| Pool.Pool.Get | src/pabuf.c:55-81 | the linked lists do what the abstract pool does; count, memory, shell_memory and both maxima are kept; the object was not outstanding |
| Pool.Pool.Back | src/pabuf.c:83-108 | the same for a return |
| Protocol.PrintedLinesFit | src/message.c:95-177 | each printed line with its NUL fits its allocation, and exactly when it fills it |
| Protocol.AtoiOfDecimal | src/decoder.c:34 | the parser reads back the number the printer wrote |
| Protocol.SpaceMeaning | src/decoder.c:34 | the six white-space characters that atoi skips |
| Protocol.AtoiMeaning | src/decoder.c:34 | white space, a sign, digits and anything else are read as the signed number, saturated at 64 bits and narrowed to 32 |
| Protocol.AtoiOfSignedDecimal | src/ketama.c:89 | every int is printed so that atoi reads it back, with a sign exactly if it is negative |
| Protocol.CutAtSeparator | src/decoder.c:61-66 | cutting at the first separator restores two parts if and only if the first has no separator |
| Protocol.PrintedPart | src/message.c:95-104 | what the printer cuts at a NUL and the parser at a separator is whole if and only if there was neither |
| Protocol.CmdRowRoundTrip | src/decoder.c:5-42 | a command survives printing and parsing if and only if its name has no space and no NUL, it is not all empty and its count is below 65536 |
| Protocol.ParamRowRoundTrip | src/decoder.c:44-77 | a parameter survives if and only if it has no NUL and its key no '=' |
| Protocol.ParseCmdMeaning | src/decoder.c:5-42 | the accepted command rows and what they say: "+" and a name, or "+", a name without a space, a space and a count that atoi does not read as zero, modulo 65536 |
| Protocol.ParseParamMeaning | src/decoder.c:44-77 | the accepted parameter rows and what they say: "$" and a string, or "%", a key without "=", "=" and a value |
| Protocol.CountNarrowed | src/decoder.c:34-39 | an accepted row gives the command the count it announced if and only if that is below 65536 |
| Protocol.CountLost | src/decoder.c:34-39 | a concrete row whose count is lost |
| Session.HandleLineInvariant | src/server.c:252-300 | between lines a message is idle or waits for at least one more parameter; errors and dispatches return to idle; a dispatch has exactly the stored count of parameters |
| Session.CommandLine | src/decoder.c:79-95 | between messages a command row is dispatched at once or waits for as many parameters as it counts |
| Session.NoCommandLine | src/server.c:252-274 | any other line between messages is rejected with the first error |
| Session.ParameterLine | src/decoder.c:79-95 | within a message a parameter row is added at the end, and the last one completes the message |
| Session.NoParameterLine | src/server.c:252-274 | any other line within a message is rejected with the second error, and the message with it |
| Session.LineEnds | src/server.c:249 | a line may end in a line feed or in a carriage return and a line feed, with the same effect |
| Session.DrainInvariant | src/server.c:252-300 | the same for every buffer of lines |
| Session.DrainAppend | src/server.c:249-252 | draining bytes later is draining them together |
| Session.ChunksDoNotMatter | src/server.c:237-311 | how the stream is cut into reads makes no difference to state or outputs |
| Session.DrainMessage | src/decoder.c:79-95 | a printed well-formed message is decoded to itself, whatever follows |
| Session.DrainSound | src/decoder.c:5-95 | whatever arrives, only messages that a printer could have sent are dispatched |
| Session.AnnouncedCountKept | src/decoder.c:34-39 | an accepted row followed by as many well-formed parameters as it announces, canonical or not, is dispatched with exactly them if and only if the count is below 65536 |
| Session.StreamRoundTrip | src/decoder.c:5-95 | printed messages, cut into reads in any way, decode to exactly those messages in order, with no error, an idle state and an empty buffer, if and only if each is well-formed |
| Messages.MsgBuf.constructor | src/message.c:7-18 | nothing is outstanding in new pools, each of which keeps at most 1000 objects |
| Messages.MsgBuf.TakeStr | src/str.c:6-21 | the string object was held by nobody, and the pools' outstanding objects grow by it alone |
| Messages.MsgBuf.BackStr | src/str.c:38-43 | exactly that object is no longer outstanding |
| Messages.MsgBuf.TakeMsg | src/message.c:20-24 | the message object was held by nobody, and the pools' outstanding objects grow by it alone |
| Messages.MsgBuf.NewRow | src/message.c:97 | the buffer of a row was outstanding with nobody, and the ledger grows by it alone |
| Messages.MsgBuf.InitCmd | src/message.c:86-93 | a command acquires one command object and one string and nothing else; its row is the one it is given |
| Messages.MsgBuf.GenCmd | src/message.c:95-111 | the same with a row of its own, printed, into which the name is a view |
| Messages.MsgBuf.InitParamStr | src/message.c:125-134 | a plain parameter acquires one parameter object and one string; its row is the one it is given |
| Messages.MsgBuf.GenParamStr | src/message.c:149-161 | the same with a row of its own, printed, into which the string is a view |
| Messages.MsgBuf.InitParamKv | src/message.c:136-147 | a pair acquires a parameter object, a pair object and two distinct strings; its row is the one it is given |
| Messages.MsgBuf.GenParamKv | src/message.c:163-177 | the same with a row of its own, printed, into which key and value are views |
| Messages.MsgBuf.FreeParam | src/message.c:40-50 | a parameter returns exactly what it held, its row included, each once |
| Messages.MsgBuf.FreeCmd | src/message.c:55-61 | a command returns exactly what it held, its row included |
| Messages.InitMsg | src/message.c:20-30 | a new message is idle and holds its own object, taken from its pool, and nothing else |
| Messages.Msg.constructor | src/message.c:24-28 | an initialised message is idle and has no parts |
| Messages.Msg.Free | src/message.c:201-210 | a freed message returns all its objects and its own, and nobody else's |
| Messages.Msg.Clean | src/message.c:32-69 | cleaning returns every object and frees every row of the message once, touches no other holder's, and leaves it idle |
| Messages.Msg.SetCmd | src/message.c:113-123 | the state machine's step for a command |
| Messages.Msg.AddParam | src/message.c:71-84 | the parameter goes to the end of the chain, with the state machine's step of msg_add_param |
| Messages.Msg.Attach | src/message.c:179-189 | a parameter with objects of its own joins the message, which then holds it too |
| Messages.Msg.DecoderCommand | src/decoder.c:5-42 | the pointer walk computes the specified parse; an accepted row belongs to the message, a rejected one takes nothing from the pools and stays with the caller |
| Messages.Msg.DecoderParam | src/decoder.c:44-77 | the same for parameters |
| Messages.Msg.DecoderRun | src/decoder.c:79-95 | the decoder is the state machine, and a row belongs to the message if and only if it is accepted |
| Messages.ParamsGrow | src/message.c:71-84 | a parameter with objects of its own keeps the chain free of shared objects |
| Messages.HoldingCounts | src/message.c:32-69 | a message holds one string for its command, one for a plain parameter and two for a pair, one object of each other kind, and one row for each of them |
| Messages.OutstandingCounts | src/message.c:20-177 | every pool's outstanding objects number what others hold and what the message's parts add up to |
| Messages.Write | src/response.c:10-41 | of a complete message the rows are written in order, each as far as its first NUL; of another nothing |
| Messages.RowsTextIsParamsText | src/response.c:29-38 | generated rows are written as the printed parameters |
| Messages.Respond | src/response.c:43-97 | any response is generated, written as the printed message and freed, and the pools are as before |
| Router.BareGet | src/decoder.c:5-42 | the rows that announce a GET and wait for no parameter: +GET, or +GET and a count that is a non-zero multiple of 65536 |
| Router.FailingRows | src/command_func.c:8-9 | two such rows, one of them made by the narrowing to 16 bits |
| Router.FailingLine | src/command_func.c:8-9 | a line makes the program fail if and only if it comes between messages and is such a row |
| Router.AnsweredToTheEnd | src/server.c:249-300 | a stream is answered to its end if and only if no line between its messages is such a row |
| Router.CommandGet | src/command_func.c:5-23 | a GET fails if and only if it has no parameter; otherwise it is answered with the address of a server that answers for the hash of its own key, a pair or an empty server table with nothing, and the pools are as before |
| Router.CommandProc | src/command.c:68-78 | the reply is that of the named command, or the error for an unknown one; it fails exactly for a GET without a parameter |
| Router.AddressAnswers | src/command_func.c:15-16 | the address answered for a key is stored for a server that answers for the number in the first four bytes of the key's MD5 digest on the ring |
| Router.OneAddress | src/command_func.c:15-16 | where no point belongs to two servers there is only one such address |
| Router.LostGrows | src/server.c:252-274 | the buffers lost so far are one for each rejected line |
| Router.Client.constructor | src/client.c:6-17 | a new client has no message and holds nothing |
| Router.Client.ReadLine | src/server.c:249 | a line is cut off the buffer into a row that nobody else holds |
| Router.Client.RejectLine | src/server.c:258-272 | a rejected line empties the message, returns its objects and is answered with its error; its own row stays outstanding |
| Router.Client.ProcessMessage | src/server.c:285-300 | a complete message is answered while it is held, then returns its objects, unless answering fails |
| Router.Client.ProcessLine | src/server.c:252-300 | one pass of the line loop is the specified step and writes the specified replies; it fails exactly at a GET without a parameter |
| Router.Client.ReadLines | src/server.c:249-311 | the loop handles every complete line in order and leaves the rest in the buffer, or stops where the program fails |
| Router.Client.EventRead | src/server.c:237-311 | for all bytes: the replies are those of the specification up to the failure, if there is one; otherwise so is the state, and what is outstanding is what the messages hold and one row for each rejected line |
| Router.Client.ReadShare | src/server.c:237-311 | the same in terms of what this client and the others hold |
| Router.Client.Free | src/client.c:19-27 | the objects of the client's message, if it has one, go back and no others |
| Router.ReadAll | src/server.c:237-311 | any sequence of reads is answered as the whole stream is |
| Router.RepliesToGets | src/command_func.c:5-23 | the replies to GET messages with a key are the NODE messages that name the owners, in order, without failure or rejection |
| Router.AnswerKeys | src/server.c:237-311 | keys sent as GET messages and cut in any way are answered with the addresses of their ring owners, in order, and everything is returned |
| Router.BuildRing | src/server.c:43-49 | the configured servers make a ring that is a sorted permutation of their points |
| Router.Serve | src/server.c:43-311 | from end to end: the servers make a ring, and the i-th reply is, byte for byte, the NODE message with the address of a server that answers for the hash of the i-th key on it, spelled out through the MD5 digest |
| Replies.CommandReply | src/server.c:281-300 | a command without parameters is answered "+PONG", or error 99 for any other name than PING and GET |
| Replies.NoCommandReply | src/server.c:258-264 | a line between messages that is no command row is answered with error 1001, byte for byte |
| Replies.ParameterReply | src/server.c:281-300 | the last parameter of a message is answered by the command's name and its first parameter: the address for GET with a string, nothing for GET with a pair |
| Replies.NoParameterReply | src/server.c:266-272 | a line within a message that is no parameter row is answered with error 1002, byte for byte |
| Replies.RefusalText | src/response.c:94-97 | a refused connection is told error 2001, byte for byte |
| Workers.SplitOff | src/message.c:7-30 | what one holder has is split off from what the others of the same pools have |
| Workers.SplitOn | src/message.c:7-30 | a holder's change at nobody's expense keeps all holders apart and the union whole |
| Workers.ReadKeepsApart | src/server.c:237-311 | a read changes one client's holdings and adds the rows of its rejected lines to what nobody frees; all shares stay apart |
| Workers.WorkerClients.ReadMember | src/server.c:237-311 | one client's read leaves every other client's state and holdings as they were |
| Workers.WorkerClients.ReadClient | src/server.c:237-311 | one client's read keeps the union of all holdings and lost rows, one for each line rejected |
| Workers.WorkerClients.Accept | src/client.c:6-17 | a new client changes nobody's holdings |
| Workers.WorkerClients.Release | src/client.c:19-27 | a client that leaves takes only its own holdings out of the union |
| Workers.WorkerClients.RespondOnly | src/response.c:43-97 | a response leaves all holdings and connections as they were |
| Workers.WorkerClients.Handle | src/server.c:175-311 | the same for every event, which fails exactly if one of its outputs is a GET without a parameter |
| Workers.Work | src/server.c:175-311 | over every interleaving of joins, reads, responses and leaves, up to a failure of the program: every event writes its own text; the outstanding objects are the disjoint union of what the live messages hold and of one row for each rejected line |
| Workers.OwnReadsDecide | src/server.c:237-311 | whatever the others do, the state of a connection and the text written to it are those of its own reads alone |
| Workers.AnswerArrives | src/response.c:10-41 | a well-formed response is written so that its reader decodes exactly it; joining and leaving write nothing |
| Workers.PlaceMeaning | src/client.c:19-27 | a client keeps a place of its own through every event but its own leaving |
| Workers.NothingLeft | src/client.c:19-27 | when the last client has left, nothing is outstanding but the rows of rejected lines |
| Admission.Worker.IncreaseCount | src/worker.c:32-37 | one more, wrapping at 32 bits |
| Admission.Worker.DecreaseCount | src/worker.c:39-44 | one less, wrapping below zero |
| Admission.CountersWrap | src/worker.c:32-44 | the two changes of a counter undo each other and are one up and one down modulo 2^32 |
| Admission.GetCurrentConnections | src/server.c:92-102 | undisturbed, the 64-bit sum of the counters loses nothing |
| Admission.GetLeastConnectionWorker | src/server.c:77-90 | undisturbed, the first worker with the least counter |
| Admission.SumIsConnections | src/server.c:92-102 | exact counters add up to the number of connections |
| Admission.ReleaseLowersSums | src/server.c:92-102 | a release lowers neither side of the scan's bound out of reach, wherever the scan stands |
| Admission.BestIsNotFull | src/server.c:77-90 | the worker chosen by interleaved reads never has a full counter when the maximum is countable |
| Admission.ReleaseKeepsCounters | src/worker.c:39-44 | a release finds its worker's counter positive and keeps all counters exact |
| Admission.ReleaseKeepsAccept | src/server.c:189-203 | a release before or behind the scan takes nothing from what the accept thread knows |
| Admission.StepKeepsInv | src/server.c:143-206 | every step of the accept thread and of the workers keeps the invariant |
| Admission.CapHolds | src/server.c:143-206 | in every state of every interleaved run the counters are exact and the open connections do not exceed the maximum |
| Admission.RefusedOnlyWhenFull | src/server.c:92-102 | a completed scan whose sum reaches the maximum began when the router held the maximum |
| Admission.RefusalMeansFull | src/server.c:153-159 | whenever a connection is refused, the router held the maximum when the scan for it began |
| Admission.ScanDecides | src/server.c:153-159 | after a completed scan the refusal can be taken if and only if the sum reaches the maximum, the admission if and only if it does not |
| Admission.FullIsRefused | src/server.c:153-159 | a router that holds the maximum when the scan ends refuses and cannot admit |
| Admission.RoomIsAdmitted | src/server.c:153-167 | a router that never held the maximum admits and cannot refuse |
| Admission.NothingBlocks | src/server.c:143-206 | in every state of every run the accept thread can take its next step, every open connection can close and every closed one be released |
| Admission.OpenedAndClosed | src/server.c:143-206 | opening adds one socket and one counted connection, closing takes the socket, releasing the counted connection, and no other step changes either |
| Admission.LeastGetsConnection | src/server.c:77-90 | a connection admitted and opened while no counter changes goes to the first of the workers with the least counter |
| Admission.CapHoldsExactly | src/server.c:143-206 | the cap holds over all runs if and only if the maximum is at most workers times 2^32 - 1 |

## Left out

- Md5.State.Append: asks that nbytes is an int and that offset + nbytes (src/md5.c:341) is one where it is computed, because beyond that the program has no meaning.
- Md5.DigestOfChunks: the same for each chunk; the number of chunks and the message length are unbounded.
- Md5.State.Process: takes the little-endian word decoding of src/md5.c:192 as the meaning of a block; the byte-order and alignment branches of src/md5.c:138-195 are not modelled, and the T constants are given words, not derived from sine.
- Continuum.PointBudget: IEEE floats are modelled as exact shares with a relative error each, bounded by d; exact point counts are claimed only for d = 0.
- Continuum.EqualWeightsRemapping: exact arithmetic; with errors the shares of the old servers may change and AddServerRemapping states what is then needed.
- Ketama.Ketama.AddServer: the total weight and the table size are unbounded numbers.
- Ketama.Ketama.CreateContinuum: asks for a positive total weight and for 160 points a server to fit an int, without which the division and the point counter of the source have no meaning.
- Ketama.Ketama.Search: the sum of the two ends is an unbounded number, and `fits` says whether the C int held it; what the program does where it does not fit is not modelled.
- Ketama.Run: a build is of at most INT_MAX / 320 servers, so that every lookup stays within that int.
- Ketama.HashedWhole: the conversion of a length that no int holds is the wrap-around of common compilers.
- Ketama.Qsort: the library's algorithm is not modelled; a selection sort stands for it and no caller uses more than sortedness and the elements.
- Ketama.Ketama.constructor: allocation failure and Ketama_free are not modelled.
- Pool.Pool.Get: the object count and the byte totals are unbounded numbers, a shell is 16 bytes, and each locked section is one atomic call.
- Pool.Pool.Back: callers return only objects they hold; the source does not check it.
- CountQueue.CountQueue.constructor: the queue object itself does not come from item_buffer; the window term * max fits an int as in src/countque.c:18.
- CountQueue.CountQueue.Free: for the same reason the queue object does not go back to item_buffer.
- CountQueue.CountQueue.TicTime: the clock is a parameter that never goes back, since the queue expires only from the front.
- Window.WindowAge: the window in seconds is stated for times that are not negative; Window.BaseContains covers the others.
- CountQueue.Run: the exact condition is stated for logs below 2^64 events, which the 64-bit total can count.
- Messages.MsgBuf.TakeStr: the pools are held as PoolState values, which the linked pool is proved to implement; objects are known by address, and an address given back to the system is not handed out again.
- Messages.MsgBuf.constructor: the data pool (src/message.c:15), which nothing uses, is not modelled.
- Messages.Msg.AddParam: the linked chain of parameters is a sequence field; a C pointer to its last element has no counterpart.
- Messages.Write: errors of the socket are not modelled.
- Router.Client.EventRead: the event buffer is a string and reads deliver bytes in order; after a failure nothing is said of the state, since the program is gone.
- Router.CommandProc: the table of commands is its two entries, and the error for an unknown command draws on the worker's pools instead of the server's (src/command.c:73).
- Router.Serve: the servers are a parameter where the program has three fixed ones, at most INT_MAX / 320 of them.
- Session.StreamRoundTrip: the count of a printed command is the number of its parameters, whatever peer printed it; this program's own printer takes 16 bits.
- Protocol.CmdRowRoundTrip: atoi is the strtol of glibc, saturating at 64 bits and then narrowed.
- Admission.LeastGetsConnection: while counters change during the choice, the chosen worker is only proved to have room (Admission.BestIsNotFull), since the source promises no more.
- Admission.StepKeepsInv: a released connection is gone, so each is released at most once, which the source leaves to libevent; each counter access is atomic.
- Request totals (src/server.c:293-297): the code counts some commands twice, so there is no sum to keep.
- Sockets, libevent, threads, signals, settings, logging, version and time wrappers: input and output.
