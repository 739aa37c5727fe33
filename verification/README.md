# Verified core of tinyRPC

A Dafny model of the parts of tinyRPC whose correctness is hardest to see, with proofs for all inputs and all runs.
`dafny verify dfyconfig.toml` checks everything.

**Number printing** (`common/string.hpp`). `Dtoa` leaves a text that is strictly closer to the printed double than to
any other double, for every finite double, and the shortest and closest such text up to two units of its 64-bit
products. The proof follows the program: exact boundaries (`DiyFp.dfy`), a table of cached powers whose 87 entries are
proved accurate to half a unit and whose choice is proved to land in the exponent window (`CachedPowers.dfy`), rounded
products and the one-unit shrink (`Grisu.dfy`), digit generation with its two loops and the rounding of the last digit
(`DigitGeneration.dfy`), and the in-place layout, judged by an independent reader of numerals (`Layout.dfy`,
`Numeral.dfy`, `Notation.dfy`). `Itoa.dfy` covers integers of every width. 64-bit words are integers below 2^64, shifts
are products and quotients by powers of two, and every intermediate word has type `U64`, so nothing can overflow
unnoticed.

**Coroutine coordination** (`async/`). `Event.dfy`, `WhenAll.dfy`, `ThreadPool.dfy` and `TaskSlots.dfy` are transition
systems whose steps are the atomic operations or locked blocks of the source; the theorems hold after every run, for any
number of threads, and what the states record is shown to be what the run did. Resuming a coroutine is an action of the
system. `AwaiterList.dfy` and `TaskContainer.dfy` do the same pointer and list work on objects in memory.

**Codec and RPC** (`protocol/`). Types form a datatype, a value is a tree of its shape, and a host is a byte order with
a comparison for each ordered container. `Endian.dfy` treats plain values, `Codec.dfy` nested types,
`OrderedContainers.dfy` insertion into sets and maps, `ExactRoundTrip.dfy` objects that already hold something,
`Framing.dfy` prefixes, `Wire.dfy` the bytes themselves, `BinaryStream.dfy` the stream object and `Rpc.dfy` the call.

**Connection timers and buffers** (`net/`). `TimeWheel.dfy` and `TcpBuffer.dfy`: a transition system and a byte queue,
each with the class that implements it.

Where the code falls short of what one would expect of it, the model follows the code, a lemma states exactly when it
holds, and another gives an input where it does not:

- signed 16-bit values lose a byte on little-endian hosts (`PodRoundTrip`, `ShortsCollide`);
- decoding adds to containers that are not empty, as with the request of `test/protocol_test.cc` (`RoundTripExactly`,
  `DefaultElementsStay`);
- digit generation indexes past the end of `kPow10` (`DigitGen`, `Grisu2`, `OneThirdNotWithin`);
- a recycle step that reaches the end of the buffer is refused, and one that drops too much breaks it
  (`RecycleReadExactly`, `RecycleReadValid`, `RecycleWriteExactly`, `RefusedAtTheEnd`, `DroppedTooMuch`);
- collecting while no slot is free strands the collected slots (`StrandedExactly`, `OneSlotStranded`);
- `itoa` prints nothing for zero and drops digits that do not fit (`ItoaReadsBack`, `ZeroPrintsNothing`).

## Model

| member | source | states |
|---|---|---|
| DiyFps.Successor | common/string.hpp:106-121 | decoded values of neighbouring patterns differ by exactly one unit, for normal and subnormal doubles and across powers of two |
| DiyFps.Multiply | common/string.hpp:129-142 | the four partial products give the full 128-bit product divided by 2^64, rounded to nearest with ties up; every partial sum and the result fit 64 bits |
| DiyFps.Normalize | common/string.hpp:144-147 | the top bit is set and the number is unchanged |
| DiyFps.NormalizeBoundary | common/string.hpp:149-158 | the loop ends with the top bit set and the number unchanged |
| DiyFps.NormalizedBoundaries | common/string.hpp:160-168 | both bounds on one exponent, exactly half a unit away, a quarter below at a power of two |
| DiyFps.NormalizedTogether | common/string.hpp:144-168 | the normalised value has the exponent of the boundaries, so the three can be compared as integers |
| DiyFps.BoundariesInside | common/string.hpp:160-168 | everything strictly between the bounds is in the rounding interval of section 4.3.1 of IEEE 754-2008, for every positive finite pattern |
| DiyFps.NearestDouble | common/string.hpp:160-168 | a number in that interval is strictly closer to the double than to every other one |
| CachedPowers.Accurate | common/string.hpp:184-238 | each of the 87 table entries is within half a unit of the exact scaled power of ten |
| CachedPowers.ExponentWindow | common/string.hpp:240-251 | for every exponent a double brings and every rounding of the estimate, the index is in the table and the product's exponent in [-60, -32] |
| DigitGeneration.CountDecimalDigit32 | common/string.hpp:264-277 | n lies between 10^(r-1) and 10^r |
| DigitGeneration.GrisuRound | common/string.hpp:254-262 | only the last digit changes, it never borrows, the remainder stays within delta, and no reachable remainder is nearer to the target |
| DigitGeneration.Round | common/string.hpp:291-346 | one round of the first loop conserves digits times unit plus remainder, and no 64-bit step overflows |
| DigitGeneration.FractionRound | common/string.hpp:349-361 | one round of the second loop conserves the scaled value |
| DigitGeneration.FractionIsShort | common/string.hpp:348-361 | the second loop ends after at most 19 digits because the width grows tenfold and stays below 2^60 |
| DigitGeneration.IntegralDigits | common/string.hpp:291-346 | stops with a decimal in the interval that is nearest to W among its length, or leaves exactly the fraction |
| DigitGeneration.FractionDigits | common/string.hpp:348-361 | the same for the fraction, with any value read behind the table |
| DigitGeneration.Finish | common/string.hpp:340-345 | rounding at either exit keeps the result in the interval and shortest, and nearest when the last argument is the true distance |
| DigitGeneration.DigitGen | common/string.hpp:279-362 | a digit string without leading zero in [Mp - delta, Mp] such that no multiple of the next power of ten is in (Mp - delta, Mp]; nearest to W while the table lasts; and the index into kPow10 stays below 10 if and only if Mp times 10^9 leaves less than delta times 10^9 modulo one, or Mp leaves exactly delta |
| DigitGeneration.GeneratedInside | common/string.hpp:279-362 | over the reals: the decimal lies in the interval |
| DigitGeneration.GeneratedShortest | common/string.hpp:279-362 | over the reals: no decimal with a larger exponent lies in the interval |
| DigitGeneration.NearestReal | common/string.hpp:254-262 | over the reals: none with the same exponent in the interval is nearer to W |
| DigitGeneration.FractionLasts | common/string.hpp:348-361 | the if-and-only-if for results of the second loop |
| DigitGeneration.OneThirdLeavesTable | common/string.hpp:281-283 | the interval of 1/3 fails that condition |
| Grisu.OneThirdNotWithin | common/string.hpp:364-376 | Grisu2 forms that interval for 1/3, whatever the rounding of the estimate |
| Grisu.ProductError | common/string.hpp:369-372 | a rounded product with a table entry is less than one unit from the product with the exact power |
| Grisu.InsideBoundaries | common/string.hpp:369-375 | after the +1/-1 shrink, digits between the products denote a number between the exact boundaries |
| Grisu.ReadyForDigits | common/string.hpp:369-375 | the three products keep their order and distance, so delta is positive and W lies inside |
| Grisu.NothingShorter | common/string.hpp:364-376 | no decimal with a larger exponent lies between the exact boundaries, two units of the products away from them |
| Grisu.ClosestInside | common/string.hpp:370-375 | no decimal with the same exponent there is closer to the double than the digits, but for two units |
| Grisu.UnitIsSmall | common/string.hpp:369-372 | two units are less than 2^-60 of the value |
| Grisu.Grisu2 | common/string.hpp:364-376 | for every positive finite double the digits times 10^K lie strictly in its rounding interval; no decimal with a larger exponent does, and while the table lasts none with the same exponent is closer to the double, both but for two units; kPow10 is read up to index 9 only if and only if a condition on the double and the table entry holds |
| Layout.ReadExponentText | common/string.hpp:397-417 | a printed exponent reads back |
| Layout.WriteExponent | common/string.hpp:397-417 | writes that text in place and terminates it |
| Layout.ReadText | common/string.hpp:419-452 | each of the five forms reads back as exactly digits times 10^k |
| Layout.TextShape | common/string.hpp:419-452 | an exponent exactly outside the limits; otherwise a point with digits on both sides, as many behind it as K asks for; no superfluous zero in front of the number or the exponent |
| Layout.LimitsExactly | common/string.hpp:420-433 | the limits are 10^-6 and 10^21 on the number printed |
| Notation.FromMillionth | common/string.hpp:433 | and on the double: from the one nearest to 10^-6 |
| Notation.BelowSextillion | common/string.hpp:422-428 | up to the one before 10^21 |
| Layout.Prettify | common/string.hpp:419-452 | the overlapping moves turn the digits into that text, terminated |
| Layout.TextLength | common/string.hpp:419-452 | the text stays below 47 characters, within the 48 that the log stream sets aside |
| Layout.PrintPositive | common/string.hpp:472-474 | behind the moved pointer stands a terminated numeral closer to the double than to any other that is not negative, shortest and closest of its length as Grisu2 says, with an exponent exactly if the double lies outside the limits; nothing in front of it changes |
| Layout.Dtoa | common/string.hpp:454-476 | for every finite double the terminated text in the caller's buffer is closer to that double than to every double of another value, of either sign; shortest, closest and shaped as for its magnitude; both zeros print as 0.0 |
| Itoa.MagicQuotient | common/string.hpp:57-65 | one argument for every width: a constant with 10 * base = 2^s + 2 divides by ten exactly |
| Itoa.MagicDivideIsDivision | common/string.hpp:55-65 | multiply and shift equal v / 10 for all v of widths 8, 16, 32 and 64, with no overflow of the product |
| Itoa.CanonicalDenotes | common/string.hpp:61-73 | the digits denote the number and do not start with zero |
| Itoa.ItoaReadsBack | common/string.hpp:51-75 | the text reads back as the value if and only if the value is not zero and there is room for digits + 1, or digits + 3 when negative |
| Itoa.ItoaKeeps | common/string.hpp:61-73 | in any buffer: the value modulo a power of ten, with all digits or one fewer than the buffer has characters, and the sign exactly if three are left |
| Itoa.ZeroPrintsNothing | common/string.hpp:61-74 | zero leaves the empty text, which is no numeral |
| Itoa.ReverseInPlace | common/string.hpp:73 | reverses the prefix and touches nothing else |
| Itoa.Itoa | common/string.hpp:51-75 | for any maxlen from 1: stays in bounds, terminates, and keeps exactly the low-order digits that fit |
| Event.Preserve | async/event.cc:7-63 | every atomic step of waiters, setters and resets keeps all lists acyclic and disjoint and every phase consistent |
| Event.PreserveExchange | async/event.cc:46-57 | an exchange that succeeds on a head read long ago still leaves the old list with the new waiter in front |
| Event.PreserveSet | async/event.cc:7-12 | set moves the whole shared list, and nothing else, to its caller |
| Event.IsSetExactly | async/event.hpp:38-40 | in every run the event is set exactly if the last set or reset was a set |
| Event.NobodySuspendsAfterSet | async/event.cc:8-49 | after set, until a reset, the event is set and nobody suspends |
| Event.StaysSet | async/event.cc:46-57 | the same for an event found set |
| Event.StaysClear | async/event.cc:59-63 | after reset, until a set, nobody passes and nobody sees the mark |
| Event.PassesWhenSet | async/event.cc:46-50 | awaiting a set event goes on at once |
| Event.RetrySucceeds | async/event.cc:47-54 | an exchange that fails is repeated with the current head, and undisturbed it goes through |
| Event.PreserveReverse | async/event.cc:23-38 | each round of the reversal keeps the two halves disjoint chains of the same waiters |
| Event.PreserveResume | async/event.cc:14-19 | each resumption takes one waiter off one list |
| Event.PreserveReset | async/event.cc:59-63 | reset drops no waiter |
| Event.ExactlyOnce | async/event.cc:7-63 | in every interleaving a waiting awaiter is on exactly one list, once, and each suspension is resumed exactly once |
| Event.SetterNeverStuck | async/event.cc:7-38 | a setter can always take its next step |
| Event.SetIsShort | async/event.cc:7-38 | a call of set that detaches n waiters is over after exactly n + 1 of its steps, 2n + 2 when it reverses, whatever the others do |
| Event.NobodyForgotten | async/event.cc:7-63 | with the event set and no setter active, suspensions equal resumptions |
| Event.ReleaseOrder | async/event.hpp:45-62 | fifo releases in the order of successful exchanges, lifo in the opposite order |
| AwaiterList.Reverse | async/event.cc:23-38 | the same nodes in the opposite order, changing no next_ field but theirs |
| AwaiterList.ResumeAll | async/event.cc:14-19 | every coroutine of the list once, in list order |
| AwaiterList.SetDetached | async/event.hpp:45-62 | both policies on the nodes in memory |
| WhenAll.CounterPositive | async/when_all.hpp:38-47 | no decrement meets a zero counter, so it never wraps |
| WhenAll.Preserve | async/when_all.hpp:16-47 | every step keeps the counter equal to the shares left, and the releases to whether it is zero |
| WhenAll.RecordOfRun | async/when_all.hpp:38-47 | who was started, completed, gave up or resumed is what the run says |
| WhenAll.ReleasedAtMostOnce | async/when_all.hpp:38-47 | a run never has two resumes; a release only after all n tasks have notified; a resume only after the handle was stored and the coroutine suspended |
| WhenAll.ReleasedExactlyOnce | async/when_all.hpp:145-149 | at the end either try_await returned false or exactly one notifier resumed |
| WhenAll.NeverStuck | async/when_all.hpp:223-229 | until then some step is enabled |
| WhenAll.RunsAreShort | async/when_all.hpp:249-272 | every run is finite |
| ThreadPool.Preserve | async/thread_pool.cc:25-101 | every step keeps the accounting of size_, queue, tickets and leaving workers |
| ThreadPool.SizeCounts | async/thread_pool.hpp:91-123 | size_ equals reserved plus queued plus running, in every run |
| ThreadPool.EmptyMeansIdle | async/thread_pool.hpp:119-123 | empty() implies that nothing is queued, running or reserved |
| ThreadPool.RecordOfRun | async/thread_pool.cc:25-101 | the run alone determines what was queued and in which order, tickets, marks and stop requests |
| ThreadPool.ResumesWhatWasHandedIn | async/thread_pool.cc:35-42 | a worker resumes the very handle that was handed in at the position of its ticket; what is queued is what was handed in and not taken |
| ThreadPool.FirstInFirstOut | async/thread_pool.cc:64-82 | no enqueue is resumed twice, and a worker holds the handle queued under its ticket |
| ThreadPool.LeavesAfterDraining | async/thread_pool.cc:58-87 | a worker that entered its loop leaves only on request, after all that was handed in before it last saw the queue empty was taken |
| ThreadPool.DrainedAtEnd | async/thread_pool.cc:58-87 | once every worker that entered has left, all that was handed in before any of them last saw the queue empty has been resumed and its reservation given back |
| ThreadPool.WorkerNeverStuck | async/thread_pool.cc:64-82 | a worker can go on unless it waits with nothing queued and no request to stop |
| ThreadPool.ShutdownRefuses | async/thread_pool.cc:25-33 | after shutdown no further call of schedule reserves |
| ThreadPool.NonNullAt | async/thread_pool.hpp:99-105 | every handle of a range is kept, behind exactly the handles before it |
| ThreadPool.NonNullCounts | async/thread_pool.hpp:99-105 | and nothing else, each as often as it occurs |
| ThreadPool.PushHandles | async/thread_pool.hpp:98-109 | the loop over a range queues the non-null handles in order and counts the others |
| TaskSlots.Preserve | async/task_container.hpp:50-70 | every step keeps the slot list free of duplicates and the live and uncollected slots in front of free_pos_ |
| TaskSlots.CollectKeepsAll | async/task_container.hpp:124-134 | collecting appends the completed slots to the free ones, in order, or strands them if nothing was free |
| TaskSlots.CollectsEverything | async/task_container.hpp:72-75 | nothing is left to collect |
| TaskSlots.GrowKeeps | async/task_container.hpp:113-122 | growing reaches the new capacity and adds exactly the new numbers, all free |
| TaskSlots.NeverAssignsLive | async/task_container.hpp:50-70 | in every run start never assigns a live slot |
| TaskSlots.ListIsPermutation | async/task_container.hpp:176-182 | in every run the list holds 0..capacity-1, each once |
| TaskSlots.CountsOfRun | async/task_container.hpp:50-156 | started, completed and pending are counted by the run |
| TaskSlots.CapacitySplits | async/task_container.hpp:50-156 | capacity is live plus uncollected plus free plus stranded; size_ is the calls of start minus the completions in the run |
| TaskSlots.StrandedExactly | async/task_container.hpp:124-134 | slots are stranded exactly by collecting while free_pos_ is at the end |
| TaskSlots.OneSlotStranded | async/task_container.hpp:124-134 | a run of four steps from one slot that strands it |
| TaskContainer.Container.constructor | async/task_container.hpp:176-182 | starts as the initial state of the transition system |
| TaskContainer.Container.BeginStart | async/task_container.hpp:52 | the fetch_add of start is the transition Begin |
| TaskContainer.Container.GcInternal | async/task_container.hpp:124-134 | the splice loop performs the transition and returns how many slots it collected |
| TaskContainer.Container.EnsureFree | async/task_container.hpp:60-62 | something is free afterwards |
| TaskContainer.Container.GrowList | async/task_container.hpp:113-122 | appends exactly the new numbers and returns the position of the first |
| TaskContainer.Container.HandOutFirst | async/task_container.hpp:64-67 | hands out the slot at free_pos_ and advances it |
| TaskContainer.Container.AssignSlot | async/task_container.hpp:54-67 | the locked part of start performs the transition and its slot is not live |
| TaskContainer.Container.Complete | async/task_container.hpp:151-155 | completion performs the transition |
| Endian.SwapReverses | protocol/archive.hpp:47-121 | the integer swaps by shifting and the floating-point swaps by exchange are one reversal of the bytes |
| Endian.ExchangeBytes | protocol/archive.hpp:87-121 | the exchanges reverse the image in place |
| Endian.KindTable | protocol/archive.hpp:178-204 | sizes and ranges of the eleven kinds, as numbers |
| Endian.MostSignificantFirst | protocol/archive.hpp:163-176 | on every host plain values are written most significant byte first |
| Endian.OnTheWire | protocol/archive.hpp:172-176 | as many bytes as the kind has, denoting the value |
| Endian.DecodeMostSignificantFirst | protocol/archive.hpp:163-171 | and read that way |
| Endian.PodTransfer | protocol/archive.hpp:163-176 | what any reader gets from any writer, for every kind and value |
| Endian.PodRoundTrip | protocol/archive.hpp:53-60 | the value arrives if and only if it is not a signed 16-bit value damaged by the arithmetic shift; the condition is given for each pair of byte orders |
| Codec.Transfer | protocol/archive.hpp:147-290 | decoding an encoding followed by anything, into any object, gives a value defined without bytes and leaves exactly what followed |
| Codec.RoundTrip | protocol/archive.hpp:147-290 | any nested type, any pair of hosts, any trailing bytes, any object with empty containers: the value arrives |
| Codec.HostIndependent | protocol/archive.hpp:147-290 | unconditionally for types without signed 16-bit leaves |
| ExactRoundTrip.RoundTripExactly | protocol/archive.hpp:147-290 | for every type and every object: the value arrives if and only if every signed 16-bit leaf survives and the object absorbs, that is, its sequences and multisets are empty and its sets and maps hold only elements of the value |
| ExactRoundTrip.UniqueAbsorbs | protocol/archive.hpp:206-238 | a set or map becomes the one sent if and only if all it held is part of that |
| ExactRoundTrip.MultiAbsorbs | protocol/archive.hpp:206-238 | a multiset or multimap does if and only if it was empty |
| ExactRoundTrip.AppendExactly | protocol/archive.hpp:206-217 | a sequence does if and only if it was empty and the elements survive |
| Codec.AppendsToContents | protocol/archive.hpp:206-217 | a sequence that is not empty is extended |
| Wire.LengthOnTheWire | protocol/archive.hpp:157-158 | a length is four bytes that denote it, most significant first |
| Wire.TextOnTheWire | protocol/archive.hpp:285-290 | a string is its length and its characters |
| Wire.ElementsOnTheWire | protocol/archive.hpp:155-161 | an array or container is the number of its elements and the elements |
| Wire.ElementsInOrder | protocol/archive.hpp:218-225 | each element stands exactly behind those before it |
| Wire.CountIgnored | protocol/archive.hpp:147-153 | the count of an array is not looked at when reading |
| Wire.OnlyEncodings | protocol/archive.hpp:163-283 | what decoding accepts is the encoding of the value that results |
| Wire.AcceptedExactly | protocol/archive.hpp:163-283 | bytes are accepted if and only if they begin with an encoding |
| OrderedContainers.InsertKeepsOrder | protocol/archive.hpp:214 | insertion at the hint keeps a sorted container sorted, for every strict weak order |
| OrderedContainers.MultiGains | protocol/archive.hpp:253-255 | multiset and multimap gain exactly the new element |
| OrderedContainers.MultiKeepsAll | protocol/archive.hpp:206-238 | reading a whole one loses and invents nothing |
| OrderedContainers.UniqueGains | protocol/archive.hpp:252-254 | set and map gain it exactly if they hold no equivalent one |
| OrderedContainers.UniqueCovers | protocol/archive.hpp:206-238 | decoding into a set or map keeps what was there, adds nothing else, and covers every element received |
| OrderedContainers.DecodeMerges | protocol/archive.hpp:206-238 | decoding into a multiset or multimap merges: sorted, with both contents |
| Framing.Stable | protocol/archive.hpp:147-283 | bytes behind those that decoding needed change nothing and stay behind |
| Framing.PrefixIsMalformed | protocol/archive.hpp:163-171 | every strict prefix of an encoding is malformed, on every host and into every object |
| Framing.PrefixFree | protocol/archive.hpp:147-290 | no encoding of a type is a proper prefix of another of it |
| Framing.Injective | protocol/archive.hpp:147-290 | equal encodings come from equal values, for all values whose signed 16-bit leaves keep their low byte |
| Framing.ShortsCollide | protocol/archive.hpp:53-60 | every other negative signed 16-bit value shares its encoding with a different one |
| BinaryStream.Binary.ReadPod | protocol/archive.hpp:163-171 | fails exactly when too few bytes are left |
| BinaryStream.Binary.ReadChunks | protocol/archive.hpp:273-281 | the loop over 4096-byte pieces is one read of len bytes |
| BinaryStream.Binary.ReadText | protocol/archive.hpp:269-283 | reads a string as Decode does, discarding what it held |
| BinaryStream.Binary.ReadElements | protocol/archive.hpp:147-153 | the array loop decodes into each element in turn |
| BinaryStream.Binary.ReadInserting | protocol/archive.hpp:206-217 | the container loop inserts each new element |
| BinaryStream.Binary.Read | protocol/archive.hpp:134-144 | throws exactly when Decode is malformed, and otherwise gives its value and rest |
| BinaryStream.Binary.Write | protocol/archive.hpp:134-138 | appends exactly the encoding |
| BinaryStream.Binary.WriteElements | protocol/archive.hpp:218-225 | appends length and elements |
| BinaryStream.Binary.WriteText | protocol/archive.hpp:285-290 | appends length and characters |
| Rpc.FieldsTransfer | protocol/schema.hpp:27-40 | decoding in schema order what was encoded in schema order never fails; each exported field gets what arrives, other members stay |
| Rpc.FieldsRoundTrip | protocol/schema.hpp:27-40 | into empty containers the exported fields arrive as sent |
| Rpc.FieldsRoundTripExactly | protocol/schema.hpp:27-40 | the exported fields arrive as sent if and only if they survive and the message absorbs them |
| Rpc.DefaultElementsStay | test/protocol_test.cc:13-45 | the test's request type, all six fields: its default vector stays in front of the one received, everything else arrives as sent |
| Rpc.DefaultBytes | test/protocol_test.cc:13-45 | the default request of the test, byte by byte, from either kind of host |
| Rpc.ReadFields | protocol/rpc.hpp:11-12 | the request loop is decoding in schema order |
| Rpc.WriteFields | protocol/rpc.hpp:14 | the response loop is encoding in schema order |
| Rpc.Call | protocol/rpc.hpp:10-16 | the handler gets the decoded request, its result is appended to what is left, and a malformed request throws |
| Rpc.RoundTripCall | protocol/rpc.hpp:8-18 | a call is transparent between any two hosts: the handler sees the client's request, the client gets exactly its result, and the stream is used up |
| TimeWheel.Preserve | net/tcp_conn_timer.cc:11-37 | every refresh and tick keeps the wheel's invariant |
| TimeWheel.TimesOfRun | net/tcp_conn_timer.cc:26-37 | tick counter and refresh times are those of the run |
| TimeWheel.DyingExactly | net/tcp_conn_timer.h:22-27 | a tick destroys exactly the slots whose recorded refresh is N ticks old, however many references they have |
| TimeWheel.TickDestroys | net/tcp_conn_timer.h:22-27 | those are the slots refreshed in the run whose last refresh was N ticks before |
| TimeWheel.ExpiresExactly | net/tcp_conn_timer.cc:26-37 | in every run: N buckets, and a slot has been destroyed exactly if the run refreshed it and N ticks have followed the last refresh, on the N-th of them |
| TimeWheel.ExpiresOnce | net/tcp_conn_timer.h:22-27 | never twice |
| TimeWheel.TcpTimeWheel.constructor | net/tcp_conn_timer.cc:11-22 | bucket_count empty buckets |
| TimeWheel.TcpTimeWheel.Refresh | net/tcp_conn_timer.cc:34-37 | extends the run by a refresh, with the wheel as the run leaves it |
| TimeWheel.TcpTimeWheel.LoopFunc | net/tcp_conn_timer.cc:26-32 | extends the run by a tick and destroys exactly the slots whose last refresh was N ticks before |
| TcpBuffer.Resize | net/tcp_buffer.cc:22-30 | keeps as much of the contents as fits |
| TcpBuffer.Adjust | net/tcp_buffer.cc:56-69 | compaction leaves capacity and contents unchanged, and happens exactly if the read index has passed a third of the buffer |
| TcpBuffer.Write | net/tcp_buffer.cc:32-39 | the contents gain exactly the bytes; a buffer that is too small grows to half as much again as is needed |
| TcpBuffer.WrittenCanBeRecycled | net/tcp_buffer.cc:32-39 | what was written to an empty buffer can be recycled |
| TcpBuffer.Read | net/tcp_buffer.cc:41-54 | takes the front of the contents, at most size bytes |
| TcpBuffer.RecycleReadValid | net/tcp_buffer.cc:79-87 | for every index: the indices stay in order if and only if the step is refused or the new index lies between 0 and the write index |
| TcpBuffer.RecycleReadExactly | net/tcp_buffer.cc:79-87 | for every count: that many bytes are dropped if and only if there are that many and the step ends before the end of the buffer |
| TcpBuffer.RecycleWriteValid | net/tcp_buffer.cc:89-97 | for every index: the indices stay in order if and only if the new one is not below the read index |
| TcpBuffer.RecycleWriteExactly | net/tcp_buffer.cc:89-97 | bytes placed behind the write index are taken over if and only if some room is left behind them |
| TcpBuffer.RefusedAtTheEnd | net/tcp_buffer.cc:79-97 | a full vector of one byte, where both steps are refused |
| TcpBuffer.DroppedTooMuch | net/tcp_buffer.cc:79-87 | dropping more than there is: indices out of order, or a negative count copied |
| TcpBuffer.StepIsQueue | net/tcp_buffer.cc:22-97 | each operation, clearing, shrinking and refused recycle steps included, is one on a queue of bytes |
| TcpBuffer.RefinesQueue | net/tcp_buffer.cc:22-97 | over every sequence of operations contents and outputs are those of the queue |
| TcpBuffer.ByteQueue | net/tcp_buffer.cc:22-97 | without truncation, what went in is what came out followed by what is left |
| TcpBuffer.Tcp.ResizeBuffer | net/tcp_buffer.cc:22-30 | the object does what Resize says |
| TcpBuffer.Tcp.WriteToBuffer | net/tcp_buffer.cc:32-39 | the object does what Write says |
| TcpBuffer.Tcp.ReadFromBuffer | net/tcp_buffer.cc:41-54 | the object does what Read says; the caller's vector is left alone when there is nothing |
| TcpBuffer.Tcp.AdjustBuffer | net/tcp_buffer.cc:56-69 | the object does what Adjust says |
| TcpBuffer.Tcp.SettleBuffer | net/tcp_buffer.cc:56-69 | compaction when the indices may be out of order; fails exactly when a negative count is copied |
| TcpBuffer.Tcp.RecycleReadIndex | net/tcp_buffer.cc:79-87 | the object does what RecycleRead says, for every index |
| TcpBuffer.Tcp.RecycleWriteIndex | net/tcp_buffer.cc:89-97 | the object does what RecycleWrite says, for every index |
| TcpBuffer.Tcp.ClearBuffer | net/tcp_buffer.cc:73-77 | the buffer becomes empty, capacity included |

## Left out

- DigitGen: that the result is nearest to W is claimed only while -kappa stays below 10; beyond, the source reads behind `kPow10`, and the model lets that value be anything.
- Grisu2: the double arithmetic of `GetCachedPower` is any real within 10^-12 of the exact formula, which covers three roundings on magnitudes below 1024.
- Dtoa: the number of digits that `dtoa_grisu2` returns is not the length of the text, and nothing is claimed about it; behind the sign the digits are printed into an array that stands for the moved pointer and is put back.
- Itoa: the most negative 32- and 64-bit values, whose negation the source's language does not define, are excluded; for zero the empty text is modelled as coded.
- WriteExponent: exponents of magnitude 1000 and more, which no double produces.
- ExactlyOnce: memory orders are taken as sequentially consistent, one atomic operation per step; resuming through an executor counts as the resumption.
- ReleasedExactlyOnce: moving a latch while tasks run on it.
- SizeCounts: an operation awaited with a null handle keeps its reservation for ever; the model counts these separately.
- TaskSlots.Preserve: growth of the slot list is any strictly larger capacity of a list that is not empty; with a factor that does not enlarge it, or no slot reserved, the source dereferences end() or steps back from it.
- RoundTripExactly: signed 16-bit leaves inside sets, maps, multisets and multimaps are required to survive; elsewhere they may be damaged.
- RoundTrip: values of type bool are bytes, of which C++ defines only 0 and 1; long double and the other types without an operator are not part of the codec.
- OnlyEncodings: types with arrays, whose count is not looked at, with ordered containers or with signed 16-bit leaves are not covered.
- DecodeMerges: what the comparison of an ordered container does is a parameter; a strict weak order is required where order matters.
- RoundTripCall: the registry of procedures by name (`protocol/factory.hpp`) and exceptions thrown by a handler.
- ByteQueue: sizes are unbounded integers, so that the 32-bit overflow of one and a half times a capacity above 1.4 GB is not modelled; negative sizes are excluded, and so are runs that go on after a step has put the indices out of order.
- LoopFunc: connections that are gone before their slot expires, whose callback is skipped.
- Coroutine machinery of `async/` (task, generator, sync_wait): generated by the compiler, and not decided by these files.
- `net/timer.cc`, `net/fd_event.cc`, `net/reactor.cc`, `net/tcp_connection.cc` and `common/coroutine/`: operating-system plumbing around simple containers.
- `net2/alloc.hpp`: its search functions have no body.
- `common/magic_get.hpp`, `common/trait.hpp`, `common/tuple_util.hpp`: template metaprogramming.
- `ptrtoa`, logging, sockets, hooks and clocks: they would only add easy members.
