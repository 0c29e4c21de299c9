# Verified model of the hoorayhug relay core

hoorayhug relays TCP connections and UDP datagrams. This project models the
sequential logic at its centre in Dafny 4.11 and proves what that logic is for.
`dafny verify dfyconfig.toml` checks everything.

| file | what it models |
|---|---|
| `RoundRobinSpec.dfy` | the smooth weighted round-robin balancer on ideal integers |
| `RoundRobinShares.dfy`, `RoundRobinBounds.dfy` | what its runs give to every peer; how far they stray |
| `RoundRobinMachine.dfy`, `RoundRobin.dfy` | the wrapping `i16` node list: when it answers as the ideal one and when it overflows; the object |
| `Streams.dfy` | a connected stream: polls that may be pending, fail, or move any permitted number of bytes |
| `CopyMachine.dfy` | one relay direction as a state machine over stream operations, and what every run of it keeps |
| `CopyBuffer.dfy` | the copy buffer and its poll loop, over a byte slice or a kernel pipe |
| `BidiCopy.dfy` | both directions with their shutdown phases, graceful and brutal |
| `Obfs.dfy`, `ObfsLaws.dfy`, `ObfsSeeds.dfy` | the obfuscation prefix: generator and parser; what each of its bytes is; which lengths its random numbers reach |
| `Relay.dfy` | prefix and copies together; two relays back to back |
| `GroupBy.dfy` | in-place grouping of a datagram batch |
| `Association.dfy` | the UDP association table under every interleaving |
| `UdpRelay.dfy` | the UDP relay loop on top of both |
| `ConsistentHash.dfy`, `HashLaws.dfy`, `IpHash.dfy` | the two hash loops; what they tell apart and the values expected of them; the ring lookup |
| `Bytes.dfy`, `Decimals.dfy`, `Wrappers.dfy` | octets and texts, decimal notation, result types |

How the pieces hang together. Code that updates fields is a class here. Beside
each class stands a specification on values (`MachineStep`, `Step`, `Generate`,
`Run`), the methods are proved to do exactly what it says, and the theorems are
about all runs of it. For the copy engine the link is a trace: `PollCopy` returns
the operations it performed as a ghost sequence and proves that the state machine
accepts that sequence and ends where the fields are, so that every theorem about
`Run` holds of the object after any calls whatever the streams answered. Streams
keep a ghost history of their answers, and the sequence is proved to be exactly what
the histories gained: no poll is invented or left out, and "not now" or an error is
answered only if a stream answered so. The UDP relay's errors are tied to its event
list in the same way.
Streams, sockets, receivers and the clock are nondeterministic methods or
arbitrary parameters.

What turned out false of the code is stated exactly:

- `next` does not always answer as its unbounded specification. The credits wrap,
  so an overflowing total or payment alone does no harm; what matters is the
  credits that are compared. All answers up to any call are the ideal ones if and
  only if all credits compared up to it are `i16` values
  (`AnswersAreIdealWhileOffersFit`), the first misfit always gives a wrong answer
  (`FirstMisfitAnswersWrong`), and an endless run is decided by its first
  `Sum(weights)` calls (`AnswersForever`). The second call goes wrong exactly when
  the total exceeds 32768 by more than twice the largest weight, and then repeats
  the first answer (`SecondAnswer`). For peers of equal weight all answers are ideal
  if and only if their number times the weight is at most 32767
  (`EqualPeersForever`): 129 peers of weight 255 go wrong after two right answers,
  131 at the second (`EqualPeersGoWrong`).
- Sixteen-bit values can overflow. A call is free of it if and only if the total
  weight and the winner's credit are at most 32767 (`CallFitsExactly`,
  `NeverOverflowsExactly`); `NeverOverflows` gives a condition on the weights alone.
- A copy through a zero-length buffer takes the first read for the end of the
  stream and reports success: `EmptyBufferLosesData`. `FinishedMeansDelivered`
  has the exact condition.
- Grouping an empty batch reports one range that is not part of it
  (`GroupByInner`).
- A receiver that returns between being spawned and its socket being inserted
  leaves an entry nobody serves: `StaleOccurs`, `StaleExactlyWhenEarly`,
  `StaleForever`.
- The word-wise address hash reads only the aligned middle of its buffer. For a
  skewed IPv4 address that is nothing: every client gets the same hash, and it
  agrees with the byte-wise one for 95.16.28.143 alone (`SkewedV4IsConstant`,
  `SkewedV4AgreesOnce`). For a skewed IPv6 address it is twelve bytes of the
  sixteen, and addresses that differ behind them are told apart by the byte-wise
  hash but not by this one (`SkewedV6IsMiddle`, `SkewedV6MissesTheEnd`).
- The ring alone does not choose between peers: nodes are hashed without their peer,
  so a peer that may answer for an address can be replaced by every peer of no
  smaller weight, and a heaviest peer may answer for every address. Which of them
  does is left to the order of equal hashes after an unstable sort and to the
  binary search (`MayAnswerExactly`, `HeaviestMayAnswer`).

## Model

| member | source | states |
|---|---|---|
| RoundRobinSpec.FirstMax | hoorayhug_lb/src/round_robin.rs:73-79 | the choice made by the strict comparison: the lowest index among the maximal credits |
| RoundRobin.RoundRobin.constructor | hoorayhug_lb/src/round_robin.rs:28-52 | a fresh balancer is the state after no calls; with at most one weight it holds no nodes |
| RoundRobin.RoundRobin.Advance | hoorayhug_lb/src/round_robin.rs:61-86 | one pass over the nodes with wrapping `i16` arithmetic: all are credited and recover, the first maximum pays the total and its token is returned |
| RoundRobin.RoundRobin.Next | hoorayhug_lb/src/round_robin.rs:55-87 | token 0 for at most one peer; otherwise the object stays on the machine run, and while the credits compared by earlier calls were in range it answers as the ideal run does if and only if the credits compared now are |
| RoundRobinMachine.EffectiveWeightIsConstant | hoorayhug_lb/src/round_robin.rs:42-71 | on every run the effective weight equals the configured one, so the bump never fires, and node i keeps token i |
| RoundRobinMachine.MachineRefinesIdeal | hoorayhug_lb/src/round_robin.rs:63-84 | while the credits compared by earlier calls were `i16` values the node list is the ideal one with each credit wrapped, whatever else overflowed, and the next answer is the ideal one if and only if the credits it compares are in range |
| RoundRobinMachine.FirstMisfitAnswersWrong | hoorayhug_lb/src/round_robin.rs:73-84 | the first call that compares a credit out of range picks another peer than the ideal one |
| RoundRobinMachine.AnswersAreIdealWhileOffersFit | hoorayhug_lb/src/round_robin.rs:63-84 | up to any call all answers are the ideal ones if and only if all credits compared are in range |
| RoundRobinMachine.AnswersForever | hoorayhug_lb/src/round_robin.rs:55-87 | an endless run answers ideally if and only if the credits compared by its first W calls are in range |
| RoundRobinMachine.SecondAnswer | hoorayhug_lb/src/round_robin.rs:63-84 | the first answer is always right; the second if and only if W is at most 32768 plus twice the largest weight, otherwise it repeats the first |
| RoundRobinMachine.EqualPeersForever | hoorayhug_lb/src/round_robin.rs:55-87 | n peers of equal weight w are answered ideally on every call if and only if n * w is at most 32767 |
| RoundRobinMachine.EqualPeersFirstRound | hoorayhug_lb/src/round_robin.rs:63-84 | all answers up to call t of their first round are ideal if and only if t is 0, or (t + 1) * w is at most 32767 and n * w at most 32768 + 2 * w |
| RoundRobinMachine.EqualPeersGoWrong | hoorayhug_lb/src/round_robin.rs:63-84 | 129 peers of weight 255 answer the second call rightly and a later one of the round wrongly; 131 answer the second wrongly |
| RoundRobinShares.ClosedForm | hoorayhug_lb/src/round_robin.rs:65-84 | after t calls a credit is t times the weight minus the total weight times the picks so far |
| RoundRobinShares.CreditsSumToZero | hoorayhug_lb/src/round_robin.rs:65-84 | the credits add up to zero after every call |
| RoundRobinShares.LowerBound | hoorayhug_lb/src/round_robin.rs:65-84 | no credit ever falls to minus the total weight |
| RoundRobinShares.RestsExactlyWhenSharesAreWhole | hoorayhug_lb/src/round_robin.rs:55-87 | after t calls all credits are zero if and only if the total weight divides t times every weight |
| RoundRobinShares.RunRepeats | hoorayhug_lb/src/round_robin.rs:55-87 | from any such moment on, credits and picks repeat from the start |
| RoundRobinShares.PeriodGivesExactShares | hoorayhug_lb/src/round_robin.rs:38-86 | any window as long as a period, aligned or not, holds each peer in exact proportion to its weight |
| RoundRobinShares.RoundGivesExactShares | hoorayhug_lb/src/round_robin.rs:38-86 | any W consecutive calls pick peer i exactly weight i times; zero-weight peers never, all others at least once |
| RoundRobinShares.UnweightedAlwaysPicksFirst | hoorayhug_lb/src/round_robin.rs:65-84 | with all weights zero every call answers token 0 |
| RoundRobinBounds.HarmonicBound | hoorayhug_lb/src/round_robin.rs:55-87 | in every reachable state every set of k out of n peers has credits of at most k * W * (H(n) - H(k)) together |
| RoundRobinBounds.CreditRange | hoorayhug_lb/src/round_robin.rs:55-87 | each credit lies above -W and is at most W * (H(n) - 1) |
| RoundRobinBounds.Smoothness | hoorayhug_lb/src/round_robin.rs:65-84 | after any t calls a peer's count is less than its fair share plus one and at least its fair share minus (H(n) - 1) |
| RoundRobinMachine.NeverOverflows | hoorayhug_lb/src/round_robin.rs:63-84 | if W * H(n) is at most 32767 no intermediate `i16` value of any call leaves the range, and every answer is the ideal one |
| RoundRobinMachine.NeverOverflowsCrude | hoorayhug_lb/src/round_robin.rs:63-84 | the same if n * W is at most 32767 |
| RoundRobinMachine.NeverOverflowsExactly | hoorayhug_lb/src/round_robin.rs:63-84 | no call ever overflows if and only if W is at most 32767 and so is the winner's credit in each of the first W calls |
| RoundRobinMachine.CallFitsExactly | hoorayhug_lb/src/round_robin.rs:63-84 | a call overflows nowhere, in the total, the credits or the payment, if and only if W and the winner's credit are at most 32767 |
| Streams.Stream.PollRead | hoorayhug_io/src/mem_copy.rs:66-87 | the reader's contract: at most the room offered, in order; nothing only at the end or without room |
| Streams.Stream.PollWrite | hoorayhug_io/src/mem_copy.rs:92-95 | the writer's contract: it accepts any prefix of what is offered, and is not used after its shutdown |
| CopyMachine.StepKeepsInv | hoorayhug_io/src/buf.rs:61-115 | each outcome of each stream operation keeps: accepted bytes plus buffered window are the transformed image of the bytes read, the count is exact, 0 <= pos <= cap <= capacity, and without need_flush everything is flushed if the copy wrote anything and as much as at its start otherwise |
| CopyMachine.PollIsDue | hoorayhug_io/src/buf.rs:61-115 | one poll of the copy ends in an error exactly if an operation of it failed or a write accepted nothing, and suspended exactly if none did and one was pending |
| CopyMachine.RunConserves | hoorayhug_io/src/buf.rs:61-115 | the same after any sequence of polls, including ones abandoned at a pending operation and resumed: nothing is lost, duplicated or reordered |
| CopyMachine.SentIsPrefix | hoorayhug_io/src/buf.rs:61-115 | at every moment the sink has a prefix of the transformed source |
| CopyMachine.FinishedMeansDelivered | hoorayhug_io/src/buf.rs:80-114 | a copy that reports success reports the exact count, all flushed, and delivered the whole source if and only if the buffer has room or the source is empty |
| CopyMachine.EmptyBufferLosesData | hoorayhug_io/src/buf.rs:80-82 | with a zero-length buffer a one-byte source is reported as copied although nothing was sent |
| CopyMachine.IdleMeansFlushed | hoorayhug_io/src/buf.rs:68-77 | unless its last operation was a pending flush, a direction suspended on its reader has flushed everything once it wrote anything, and before that not even the bytes its writer held when it began |
| CopyMachine.ShutdownProtocol | hoorayhug_io/src/bidi_copy.rs:30-42 | shutdown is tried only after the end was read and all was written and flushed; after a try only shutdown follows, and after its success nothing |
| CopyMachine.CopyIsBounded | hoorayhug_io/src/buf.rs:61-115 | a run over N source bytes has at most 3N + 2 successful reads, writes and flushes |
| CopyMachine.BoundIsTight | hoorayhug_io/src/buf.rs:61-115 | for every source there is a schedule that needs all 3N + 2 |
| CopyMachine.CanAlwaysComplete | hoorayhug_io/src/bidi_copy.rs:30-42 | from every state short of an error some continuation brings the direction to its end: no schedule gets it stuck |
| CopyBuffer.ChunkLen | hoorayhug_io/src/mem_copy.rs:38-64 | all of a buffer of at most 128 bytes or without obfuscation, otherwise 7 to 92 percent of it; zero only for an empty buffer |
| CopyBuffer.EveryChunkOccurs | hoorayhug_io/src/mem_copy.rs:45-57 | every length of that range is asked for at some clock reading |
| CopyBuffer.CopyBuffer.PollReadBuf | hoorayhug_io/src/mem_copy.rs:33-89 | one poll of the stream, for a chunk of the lengths above or all of the pipe; the bytes taken end up at the front of the slice, each XORed with 0x5A in obfuscating modes, or unchanged in the pipe |
| CopyBuffer.CopyBuffer.FillAndXor | hoorayhug_io/src/mem_copy.rs:76-81 | the in-place XOR changes exactly the bytes read, each by 0x5A, and none in mode 0 |
| CopyBuffer.CopyBuffer.PollWriteBuf | hoorayhug_io/src/linux/zero_copy.rs:78-80 | one poll of the stream that offers the whole window of unsent bytes, from slice or pipe; the pipe loses exactly what was accepted |
| CopyBuffer.CopyBuffer.PollCopy | hoorayhug_io/src/buf.rs:55-116 | a call performs a legal run of the machine from the old fields to the new ones, made of exactly the answers the two streams gave in this call; it answers an error exactly if one of them failed, and that error, and "not now" exactly if one was not ready; it terminates |
| BidiCopy.Transfer.Poll | hoorayhug_io/src/bidi_copy.rs:17-43 | the direction's whole history stays a legal run and grows by exactly the streams' answers; ready exactly when done, with the number of bytes written; pending and errors only because of a stream; a done direction does nothing more |
| BidiCopy.Transfer.ReadyStreamsFinish | hoorayhug_io/src/bidi_copy.rs:30-42 | if no stream fails or keeps it waiting, one poll finishes the direction: all written, flushed and shut down |
| BidiCopy.Transfer.DoneMeansDelivered | hoorayhug_io/src/bidi_copy.rs:30-42 | a done direction has shut its writer down and written all its reader had, byte for byte, XORed with 0x5A through an obfuscating slice, its count is exact, and everything the writer ever accepted is flushed, even if nothing was copied |
| BidiCopy.Transfer.WaitingMeansFlushed | hoorayhug_io/src/buf.rs:68-77 | the same on the running object, in terms of the writer's own flush mark |
| BidiCopy.BidiCopy.Poll | hoorayhug_io/src/bidi_copy.rs:97-119 | both directions are polled to their streams' answers in every call, unless the first fails; graceful: ready only when both are done, with both exact counts; brutal: ready as soon as one is done, 0 for the other; an error is the failing direction's and leaves the second unpolled if it is the first's |
| Obfs.SimpleRng.NextRange | hoorayhug_io/src/bidi_copy.rs:128-132 | each draw is in range and is the next output of the seed's linear congruential sequence |
| Obfs.ChosenDigits | hoorayhug_io/src/bidi_copy.rs:137-153 | the drawn digits are two or three and always acceptable to the receiver |
| Obfs.Shuffled | hoorayhug_io/src/bidi_copy.rs:155-159 | the shuffle stays a permutation of the five positions |
| Obfs.HeaderFrom | hoorayhug_io/src/bidi_copy.rs:163-173 | there is a digit left at every chosen position; the header's digits are the drawn ones in order, at exactly the chosen positions |
| Obfs.Filler | hoorayhug_io/src/bidi_copy.rs:170-171 | a filler byte is never an ASCII digit |
| ObfsLaws.FillersAreTheNonDigits | hoorayhug_io/src/bidi_copy.rs:170-171 | the fillers are exactly the bytes that are no digits |
| ObfsLaws.FillersDiffer | hoorayhug_io/src/bidi_copy.rs:170-171 | each from one drawn value |
| ObfsLaws.FillersAreDrawn | hoorayhug_io/src/bidi_copy.rs:163-173 | the header byte at a position not chosen is the filler of its own draw, the draws used in order |
| ObfsLaws.DigitsAreShuffled | hoorayhug_io/src/bidi_copy.rs:155-168 | a header byte is a digit exactly at the positions the shuffle put first |
| ObfsLaws.EveryOrderOccurs | hoorayhug_io/src/bidi_copy.rs:155-159 | the shuffle reaches every order of the five positions |
| ObfsLaws.GarbageIsDrawn | hoorayhug_io/src/bidi_copy.rs:188-192 | garbage byte i is the low byte of draw 10 + i, whatever the header |
| ObfsLaws.GeneratedHeader | hoorayhug_io/src/bidi_copy.rs:181-186 | header byte i leaves XORed with byte i of the repeated key, in the clear for an empty key |
| ObfsLaws.PrefixOnRawBytes | hoorayhug_io/src/bidi_copy.rs:204-237 | raw bytes are a prefix under a key exactly if their first five, XORed with the repeated key, announce the length of the rest |
| ObfsLaws.KeysThatMaskAlike | hoorayhug_io/src/bidi_copy.rs:181-186 | two keys mask a header alike if and only if they agree at the positions used |
| Obfs.GenerateDynamicObfs | hoorayhug_io/src/bidi_copy.rs:135-195 | the loops produce exactly the prefix specified for the seed's draws |
| Obfs.GeneratedIsPrefix | hoorayhug_io/src/bidi_copy.rs:135-195 | for all draws and keys the unmasked header announces exactly the garbage that follows |
| Obfs.AcceptedLengths | hoorayhug_io/src/bidi_copy.rs:218-237 | accepted digits denote 10 to 999 |
| Obfs.ParseIsExact | hoorayhug_io/src/bidi_copy.rs:197-242 | the receiver accepts exactly the streams that begin with a well-formed prefix and leaves exactly the rest; the length anomaly never occurs |
| Obfs.PrefixIsSelfDelimiting | hoorayhug_io/src/bidi_copy.rs:211-241 | no well-formed prefix begins another |
| Obfs.RoundTrip | hoorayhug_io/src/bidi_copy.rs:135-242 | for all draws, keys and following streams the generated prefix is consumed and the rest is left |
| ObfsSeeds.EveryLengthIsAnnounced | hoorayhug_io/src/bidi_copy.rs:122-153 | for every length from 10 to 999 there is a 64-bit clock reading under which the generator's own random numbers announce it |
| Relay.WriteAll | hoorayhug_io/src/bidi_copy.rs:262-262 | all of the data is written in order, or a prefix of it and the writer's own error; no error without one |
| Relay.ReadExact | hoorayhug_io/src/bidi_copy.rs:202-240 | exactly n bytes from where the stream stood, or an error: the reader's exactly if it failed, the stream's end only if fewer were left |
| Relay.ConsumeDynamicObfs | hoorayhug_io/src/bidi_copy.rs:197-242 | unless the reader fails it answers as the parser does and leaves exactly what the parser leaves; a probe costs the header only |
| Relay.GenuineClient | hoorayhug_io/src/bidi_copy.rs:197-242 | under the relay's key the raw bytes 59 5D 6F 72 61 ("12" and three zeros) and twelve more are a prefix and are consumed |
| Relay.ExchangePrefix | hoorayhug_io/src/bidi_copy.rs:257-274 | mode 1 writes the generated prefix to one side, mode 2 consumes one from the other, other modes touch nothing; it fails exactly if the writer or reader failed or no prefix arrived, with that error |
| Relay.StartCopies | hoorayhug_io/src/bidi_copy.rs:276-279 | both copies start fresh where the streams stand after the exchange |
| Relay.PrefixWaitsForData | hoorayhug_io/src/bidi_copy.rs:257-279 | the prefix leaves with the first data: while the mode-1 forward direction waits for its reader, all of the wire is flushed if it has sent data and nothing of the prefix otherwise; once it is done all is flushed |
| Relay.ForwardIdentity | hoorayhug_io/src/bidi_copy.rs:257-279 | a mode-1 relay feeding a mode-2 one delivers exactly the bytes sent, for all data, draws, keys, buffer sizes and schedules |
| Relay.BackwardIdentity | hoorayhug_io/src/bidi_copy.rs:276-279 | so does the opposite direction, which has no prefix |
| Relay.InFlightSafety | hoorayhug_io/src/bidi_copy.rs:201-240 | whatever part of the wire has arrived, the server never takes the client for a probe, starts exactly when the prefix is complete, and has passed on a prefix of what was sent |
| Relay.BidiCopyBuf | hoorayhug_io/src/bidi_copy.rs:244-279 | exchange and copies together: on success the prefix is behind what the wire carried before or has been taken from it, and both copies start exactly there |
| Relay.RelaysDeliver | hoorayhug_io/src/bidi_copy.rs:244-280 | the same identity on two running objects, whatever their streams carried before: once both forward directions are done, the far side was written exactly what the near side still held |
| Relay.RelaysReturn | hoorayhug_io/src/bidi_copy.rs:276-279 | and the way back on the objects |
| GroupBy.PullForward | hoorayhug_core/src/udp/middle.rs:94-101 | the probe loop appends to the group exactly the later equal elements, in order, and leaves none behind it |
| GroupBy.GroupByInner | hoorayhug_core/src/udp/middle.rs:81-106 | a permutation whose ranges tile the batch, each holding exactly one class; the first group keeps arrival order; an empty batch yields the range 0..1 |
| GroupBy.EqualMeansSameRange | hoorayhug_core/src/udp/middle.rs:81-106 | two packets of a grouped batch have the same sender exactly when they share a range |
| GroupBy.GroupIsWholeClass | hoorayhug_core/src/udp/middle.rs:81-106 | a group holds, with multiplicity, exactly the packets of the original batch from its sender |
| Association.RunKeepsInv | hoorayhug_core/src/udp/sockmap.rs:36-58 | every interleaving keeps the association invariant |
| Association.OneReceiverPerClient | hoorayhug_core/src/udp/middle.rs:126-131 | at most one unfinished receiver per client address |
| Association.RemovesOnlyItsOwn | hoorayhug_core/src/udp/middle.rs:171-171 | a finishing receiver removes its own association or nothing |
| Association.NoCrossTraffic | hoorayhug_core/src/udp/middle.rs:124-168 | datagrams leave only by their client's sockets, replies go only to the socket's client |
| Association.StaleExactlyWhenEarly | hoorayhug_core/src/udp/middle.rs:126-131 | after any events an entry has no live receiver if and only if the removal by that socket's receiver precedes the insertion of the socket in the list of events |
| Association.StaleOccurs | hoorayhug_core/src/udp/middle.rs:126-131 | such an entry is reachable for every client |
| Association.StaleForever | hoorayhug_core/src/udp/sockmap.rs:36-58 | it is never replaced or removed afterwards, and no reply reaches that client again |
| UdpRelay.UdpRelay.FindOrInsert | hoorayhug_core/src/udp/sockmap.rs:36-48 | a known address is answered with its entry at once; an unknown one, with receivers running between the locked steps, with a new socket created for it, or an error exactly if none can be created |
| UdpRelay.UdpRelay.SendAll | hoorayhug_core/src/udp/batched.rs:147-173 | for any partial send counts every datagram goes out once and in order; it fails, after a proper prefix, exactly if a send failed; it terminates |
| UdpRelay.UdpRelay.RelayBatch | hoorayhug_core/src/udp/middle.rs:117-134 | it fails exactly if a socket or a send was refused; otherwise exactly the received datagrams go out, each once, each through a socket created for its sender, one socket per sender |
| ConsistentHash.Chash | hoorayhug_lb/src/ip_hash.rs:95-129 | the byte loop with its tail computes the recursive hash |
| HashLaws.TailMixesItsNumber | hoorayhug_lb/src/ip_hash.rs:112-127 | the bytes behind the last word enter as one little-endian number, folded by 24 bits |
| HashLaws.OneBlockApartHashApart | hoorayhug_lb/src/ip_hash.rs:95-129 | strings of one length that differ inside one word or the tail only hash differently |
| HashLaws.HashOfEmpty | hoorayhug_lb/src/ip_hash.rs:195-195 | the empty string hashes to 3164544308 |
| HashLaws.HashOfThree | hoorayhug_lb/src/ip_hash.rs:196-196 | "123" hashes to 4219602657 |
| HashLaws.HashOfSeven | hoorayhug_lb/src/ip_hash.rs:197-197 | "1234567" hashes to 897539970 |
| HashLaws.HashOfSix | hoorayhug_lb/src/ip_hash.rs:200-200 | "123abc" hashes to 2851751921 |
| HashLaws.HashOfNine | hoorayhug_lb/src/ip_hash.rs:202-202 | "hoorayhug" hashes to 885396906 |
| ConsistentHash.ChashForIp | hoorayhug_lb/src/ip_hash.rs:131-143 | the word loop mixes the little-endian words of the aligned middle, on hosts of either byte order |
| ConsistentHash.VariantsAgree | hoorayhug_lb/src/ip_hash.rs:95-143 | on an aligned buffer of whole words both hashes agree |
| ConsistentHash.MixIsInjective | hoorayhug_lb/src/ip_hash.rs:102-109 | mixing different words into the same state gives different states |
| ConsistentHash.SkewedV4IsConstant | hoorayhug_lb/src/ip_hash.rs:131-142 | at a skewed address the word-wise hash of four bytes is the same for all of them |
| ConsistentHash.SkewedV4AgreesOnce | hoorayhug_lb/src/ip_hash.rs:95-143 | there it equals the byte-wise hash for exactly one address, 95.16.28.143 |
| ConsistentHash.SkewedV6IsMiddle | hoorayhug_lb/src/ip_hash.rs:134-142 | of sixteen skewed bytes the hash reads only the twelve of the aligned middle |
| ConsistentHash.SkewedV6MissesTheEnd | hoorayhug_lb/src/ip_hash.rs:95-143 | different addresses that agree up to the end of the middle have the same word-wise hash and different byte-wise ones |
| IpHash.ReplicaRatio | hoorayhug_lb/src/ip_hash.rs:146-156 | the ratio belongs to the largest weight |
| IpHash.RatioIsLeast | hoorayhug_lb/src/ip_hash.rs:151-155 | the ratio is the least multiplier of at least one that gives the largest weight 128 replicas, with the product below 128 plus that weight unless the ratio is 1; for a largest weight of zero it is 255 |
| Decimals.DecimalDenotes | hoorayhug_lb/src/ip_hash.rs:44-44 | the decimal notation of a label number denotes it and has no leading zero |
| Decimals.DecimalIsCanonical | hoorayhug_lb/src/ip_hash.rs:44-44 | and is the only such notation |
| IpHash.LabelEnds | hoorayhug_lb/src/ip_hash.rs:44-44 | the rest of the label's text, byte by byte |
| IpHash.LabelsDiffer | hoorayhug_lb/src/ip_hash.rs:44-45 | different label numbers are hashed from different texts |
| IpHash.IpHash.constructor | hoorayhug_lb/src/ip_hash.rs:26-56 | the ring is a sorted permutation of all peers' virtual nodes |
| IpHash.OwnedAtFirst | hoorayhug_lb/src/ip_hash.rs:40-48 | before sorting every peer has weight times ratio plus one nodes |
| IpHash.OwnedOfPermutation | hoorayhug_lb/src/ip_hash.rs:50-50 | sorting changes no peer's number of nodes |
| IpHash.IpHash.EveryPeerOwnsItsShare | hoorayhug_lb/src/ip_hash.rs:40-50 | on the ring every peer owns weight times ratio plus one nodes |
| IpHash.SuccessorsShareHash | hoorayhug_lb/src/ip_hash.rs:61-72 | the clockwise successors of a hash are the nodes of one ring hash |
| IpHash.RingMembers | hoorayhug_lb/src/ip_hash.rs:40-48 | a peer owns a node of a hash if and only if it is that of a label number up to its weight times the ratio |
| IpHash.MayAnswerExactly | hoorayhug_lb/src/ip_hash.rs:40-72 | a peer may answer for an address if and only if it owns a label that hashes like the successor |
| IpHash.HeavierMayAnswer | hoorayhug_lb/src/ip_hash.rs:40-72 | with any peer that may answer, every peer of no smaller weight may |
| IpHash.IpHash.HeaviestMayAnswer | hoorayhug_lb/src/ip_hash.rs:40-72 | a heaviest peer may answer for every hash, so with equal weights every peer may |
| IpHash.IndexIsSuccessor | hoorayhug_lb/src/ip_hash.rs:66-72 | the index the search ends at, or 0 behind the last node, is that of a clockwise successor |
| IpHash.IpHash.PeerMayAnswer | hoorayhug_lb/src/ip_hash.rs:58-75 | the peer of a hash is one of the peers and owns a clockwise successor of it |
| IpHash.IpHash.ArcsHaveOnePeer | hoorayhug_lb/src/ip_hash.rs:66-72 | two hashes with no node between or at them have the same peer |
| IpHash.IpHash.SkewedV4ClientsMeet | hoorayhug_lb/src/ip_hash.rs:58-72 | all clients with skewed IPv4 addresses get one peer, and any successor of theirs has one ring hash |
| IpHash.IpHash.SkewedV6ClientsMeet | hoorayhug_lb/src/ip_hash.rs:58-72 | clients with IPv6 addresses of equal skew and equal middle get one peer |
| IpHash.IpHash.Next | hoorayhug_lb/src/ip_hash.rs:58-75 | answers with the peer of the address's hash, which is a function of the ring and the hash alone, so an address always gets the same peer; that peer owns the least hash at or above it, or else the least of the ring; for aligned octets the hash is the byte-wise one, for skewed IPv4 octets a constant, for skewed IPv6 octets that of their middle |

## Left out

- Sockets, name resolution, TLS and WebSocket transports, hooks, configuration, logging: foreign calls or field-by-field mapping without logic of their own.
- Time: clock readings are arbitrary seeds and chunk lengths, a receive timeout is a receiver that may finish at any moment, the three-second delay before a probe is rejected is not modelled.
- The fallback from pipes to buffers in `tcp/plain.rs`, and the end-to-end identity with a pipe on one side: a pipe does not XOR.
- Infinite sources: a stream has a finite input. `PollCopy` may run for as long as an endless source stays ready.
- Writers that report more than they were offered, against which the source only has a debug assertion.
- The hash's additions and multiplications are unchecked in the source, which leaves their overflow undefined; they wrap here, as the machine instructions do.
- Pending polls inside `write_all` and `read_exact`: awaiting hides them, and the stream histories hold the outcomes that end the wait.
- The width of `usize` and `u64`: byte counts, buffer positions and the product `capacity * 92` are unbounded.
- The order of `sort_unstable` on the digit positions: the generator only asks whether a position is among them.
- RoundRobinMachine.NeverOverflows: a condition on the weights that suffices; weights that miss it may still be safe, which `NeverOverflowsExactly` decides.
- Which of several nodes of exactly the searched hash the standard library finds: it is unspecified, and the plain bisection of the model picks one; only that the choice depends on ring and hash alone matters.
- How many clients each `IpHash` peer gets: among the owners of equal hashes the unstable sort decides, and how the hash spreads addresses is a statistical question.
- The unbatched UDP variant, which is the batch of one, and the raw message headers of `linux/mmsg.rs`.
- The endless loops around one UDP batch and one reply batch: `RelayBatch` is one round of the first; the second is the `ReplyFrom` event.
- `PeekStream` and the statistics wrapper, which the relay does not use.
