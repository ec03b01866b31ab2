# A verified model of the OT detection toolkit

The repository decodes industrial protocols into events, evaluates detection rules over those events, and reports how
well the rules do. This project models the parts where a mistake would be hard to see by reading one function, and
proves what those parts are for.

- **DNP3, S7comm and OPC UA decoding** (`Octets`, `Crc`, `CrcCheckValue`, `Framing`, `Dnp3Link`, `Dnp3Stream`,
  `S7comm`, `OpcUa`). The DNP3 link decoder and the separately written Python encoder are exact inverses. CRC-16/DNP, as
  both implementations compute it, has the documented check value and detects every burst of at most 16 bits and every odd number of changed bits, so no such change to an
  accepted frame is accepted (as long as an odd change does not move the end of the frame), and the error names the
  damaged block. The three stream loops are one loop over three frame decoders; what the loop promises is
  proved once, from three properties that each decoder is shown to have. The link layer is clause 9 of IEEE Std
  1815-2012, TPKT is section 6 of RFC 1006, and the OPC UA chunk header is section 6.7.2 of OPC 10000-6.
- **The rate limiter** (`RateLimiting`). The class is proved to behave as a function of its whole history of calls.
  About that history: the deque is exactly the recent admissions, no window holds more than the limit, the exact
  bound that is left when the clock is read before the lock is taken, and no other selection of the same calls
  admits more.
- **The correlation evaluator** (`Correlation`). The code tries only windows that start at an event. That search is
  complete over the continuum of windows for an exactly determined set of rules, and groups do not influence each other
  for exactly these rules and those that do not group. Both are statements about the verdict on events.
- **The Wilson interval** (`Wilson`), over exact reals: it is the set of rates that the score test accepts.
- **Rule order** (`ConversionOrder`), **log lines and streams** (`Sinks`), **wildcards** (`Wildcards`), **behaviour
  baseline** (`Baseline`, `Sorting`) and **zone and conduit policy** (`Conduits`): soundness and completeness of the
  ordering, unique decodability of printed lines, meaning preserved by compilation, and agreement of what is learned
  or declared with what is detected.

Where the source changes state step by step (the CRC loops, the frame and stream loops, the encoders, the octet
reader, the limiter, the windows of the evaluator, the ordering loop, the grouping of events, the learner) the model
is a method or a class, proved against a function; the theorems are about the function. Nearly all of these functions
are also described without their own helpers, from the octets, the fields of the events or the counts
(`AcceptedLayout`, `VerdictIff`, `ReturnedInterval`, `MatchIs` and others below), so that offsets, constants, labels and
operators are fixed by what stands in the input. `Arithmetic` has the facts about powers and quotients that several
modules use.

Some properties one might expect do not hold of the code. Each has a counterexample and the exact condition:

- Trying only the windows that start at an event is not enough for a rule with `EQ`, `LT` or `LTE` and a threshold
  above the smallest, nor for `NEQ` over distinct values with a threshold above one, unless the rule counts a field
  that it also groups by or its window has no length (`CompleteIff`). For the same rules, if they group at all, an
  event of one group can make another group's count fire (`GroupLocalIff`). The comment at
  `tools/otde/correlation.py:100` reads as if this held for all operators.
- A limiter with a window of no length and a limit that admits nothing is not optimal (`OptimalIff`); in every other
  case it is.
- With the clock read before the lock, the limit holds in the intervals of lock time that are at most the window less
  the longest wait, and in no longer ones, for every limit that admits anything (`InterleavedBoundTight`).
- A change of an odd number of bits of an accepted frame is sure to be rejected exactly when the frame carries no user
  data; otherwise it may turn the header into that of a frame of another length (`OddRejectedIff`), and only with
  another length octet can it be accepted (`OddRejected`).
- A printed line decodes to its fields exactly when no field name contains `=`; spaces and quotes in names do no harm
  (`DecodesBackIff`). With `=` in a name two events can leave the same streams (`EqualsInNameCollides`).
- A compiled wildcard stops at newlines, because a dot does: patterns keep their plain meaning, and searching is
  matching between two stars, for exactly the texts without one (`FaithfulIffOneLine`, `SearchIsAnywhereIff`).
- The learner skips empty fields and looks at two endpoints only, and the detector does neither, so a rule can fire on
  an event of its own training set (`FiresOnTrainingIff`).
- The rule on undeclared paths and the report on observed pairs agree for exactly the policies that declare every way
  of a zone with an empty name (`RuleAgreesWithReportIff`).
- The encoder of the Rust tests wraps its length octet, so its frames read back up to 250 octets of user data only
  (`BuiltReadsBack`).

Verify with `dafny verify dfyconfig.toml`.

## Model

| member | source | states |
|---|---|---|
| Crc.Compute | tools/dnp3-dpi/src/crc.rs:10-23 | the Rust loop on a 16-bit register computes `Crc16`, the bit-level definition all CRC results are about |
| Crc.ComputeUnbounded | tools/make_captures.py:38-45 | the Python loop, on an integer without width, computes the same checksum and stays within 16 bits |
| Crc.StepInjective | tools/dnp3-dpi/src/crc.rs:14-20 | one register step loses nothing: two registers with the same successor are equal |
| Crc.RegisterIsBitRegister | tools/dnp3-dpi/src/crc.rs:12-21 | mixing in an octet and stepping eight times is feeding its bits one by one, least significant first |
| Crc.ChecksIffResidue | tools/dnp3-dpi/src/link.rs:138-144 | a block carries its own checksum exactly when feeding block and checksum leaves one fixed residue |
| Crc.WindowInjective | tools/dnp3-dpi/src/crc.rs:12-21 | from the same register, two different inputs of at most 16 bits never meet again |
| Crc.BurstDetected | tools/dnp3-dpi/src/link.rs:138-144 | any change within 16 consecutive bits of a block and its checksum, across their border too, is detected |
| Crc.AdjacentOctetsBurst | tools/dnp3-dpi/src/link.rs:138-144 | changing one octet or two adjacent ones is such a burst |
| Crc.RegisterParity | tools/dnp3-dpi/src/crc.rs:12-21 | the parity of the register is that of its start and the bits fed together, because the polynomial has an even number of terms |
| Crc.ChecksEven | tools/dnp3-dpi/src/link.rs:138-144 | a block with its checksum has an even number of ones, however long it is |
| Crc.OddDetected | tools/dnp3-dpi/src/link.rs:138-144 | any change of an odd number of bits of a block and its checksum, wherever they are, is detected |
| CrcCheckValue.CheckValue | tools/dnp3-dpi/src/crc.rs:1-23 | the checksum of the characters `123456789` is 0xEA82, the check value documented at line 5 |
| Framing.StreamShape | tools/dnp3-dpi/src/lib.rs:166-182 | the loop reports frames and then at most one error, the verdict on the octets it could not decode |
| Framing.NoErrorIffNoRest | tools/dnp3-dpi/src/lib.rs:166-182 | there is no error exactly when no octets are left over |
| Framing.StreamLength | tools/dnp3-dpi/src/lib.rs:168-174 | frames times the least frame size, plus what is left over, fits the input: how often the loop can run |
| Framing.StreamExtended | tools/dnp3-dpi/src/lib.rs:166-182 | with more octets the frames found stay, and decoding goes on from the octets left over |
| Framing.StreamComposes | tools/dnp3-dpi/src/lib.rs:166-182 | the stream of a concatenation is the concatenation of the streams when the first part has no error |
| Framing.StreamErrorFinal | tools/dnp3-dpi/src/lib.rs:175-178 | an error other than "incomplete" is never repaired by more octets |
| Framing.StreamCut | tools/dnp3-dpi/src/lib.rs:166-182 | a stream cut inside a frame yields the frames before the cut and then how much is missing at least |
| Dnp3Link.ControlInverse | tools/dnp3-dpi/src/link.rs:63-72 | the five control fields and the control octet determine each other |
| Dnp3Link.ParseFrame | tools/dnp3-dpi/src/link.rs:107-160 | the decoder's loop computes `Decode`, error cases and their order included |
| Dnp3Link.BadStartIff | tools/dnp3-dpi/src/link.rs:113-115 | "bad start" is the answer exactly to ten octets or more that do not begin 05 64 |
| Dnp3Link.BadLengthIff | tools/dnp3-dpi/src/link.rs:117-120 | "bad length n" is the answer exactly to a right start whose length octet is n and below 5 |
| Dnp3Link.IncompleteIff | tools/dnp3-dpi/src/link.rs:108-126 | "incomplete" names ten octets exactly while there are fewer, and else the announced size, two octets more for every block of 16 begun, exactly while that is not there |
| Dnp3Link.ControlBits | tools/dnp3-dpi/src/link.rs:63-72 | the control fields are bits 7, 6, 5 and 4 of the octet and the number of its four low bits |
| Dnp3Link.AcceptedLayout | tools/dnp3-dpi/src/link.rs:151-160 | in an accepted frame the control octet is octet 3, the addresses are octets 4-5 and 6-7, low first, and octet i of the user data is octet 10 + i, two further on for every block before it |
| Dnp3Link.EncodedLayout | tools/make_captures.py:54-64 | what the encoder writes has the same layout |
| Dnp3Link.Dnp3Frame | tools/make_captures.py:54-64 | the encoder yields `EncodeFrame` of its arguments, or raises for an octet or an address out of range, in this order |
| Dnp3Link.FrameOctets | tools/make_captures.py:55-64 | the block loop computes `EncodeFrame` when every field fits |
| Dnp3Link.DecodeBlocksIff | tools/dnp3-dpi/src/link.rs:133-149 | the block loop yields user data exactly from the blocks that encode it |
| Dnp3Link.DecodeIffEncoded | tools/dnp3-dpi/src/link.rs:107-160 | decoding yields a frame and a length exactly on the buffers that start with the encoding of that frame, which has that length |
| Dnp3Link.ConsumedBounds | tools/dnp3-dpi/src/link.rs:121-126 | an accepted frame takes 10 to 292 octets, all of them present |
| Dnp3Link.FirstBadBlock | tools/dnp3-dpi/src/link.rs:137-144 | the block loop fails with block k exactly when block k is the first whose checksum is wrong |
| Dnp3Link.DecodeCases | tools/dnp3-dpi/src/link.rs:128-144 | on a complete buffer the outcome is decided by the first wrong checksum, header before blocks |
| Dnp3Link.BurstRejected | tools/dnp3-dpi/src/link.rs:107-160 | no change within 16 consecutive bits of an accepted frame is accepted, wherever it falls and whatever follows the frame |
| Dnp3Link.AdjacentOctetsRejected | tools/dnp3-dpi/src/link.rs:107-160 | the same for one changed octet or two adjacent ones, again with anything after the frame |
| Dnp3Link.OddRejected | tools/dnp3-dpi/src/link.rs:107-160 | no change of an odd number of bits that leaves the length octet alone is accepted |
| Dnp3Link.OddRejectedIff | tools/dnp3-dpi/src/link.rs:117-126 | every change of an odd number of bits is rejected exactly for frames without user data |
| Dnp3Link.DamagedBlockNamed | tools/dnp3-dpi/src/link.rs:137-144 | a burst or an odd number of changed bits within data block k, all before it intact, gives exactly the error that names block k |
| Dnp3Link.DecodeExtended | tools/dnp3-dpi/src/link.rs:107-126 | a verdict other than "incomplete" is not changed by further octets |
| Dnp3Link.PrefixIncomplete | tools/dnp3-dpi/src/link.rs:108-126 | a proper prefix of an accepted frame asks for more than it has and no more than the frame |
| Dnp3Stream.LinkFraming | tools/dnp3-dpi/src/link.rs:107-160 | the link decoder has the three properties the stream theorems need, with frames of at least 10 octets |
| Dnp3Stream.ParseStream | tools/dnp3-dpi/src/lib.rs:166-182 | the loop computes `Stream` over the link decoder |
| Dnp3Stream.StreamIffEncoded | tools/dnp3-dpi/src/lib.rs:166-182 | a stream decodes to a list of frames without error exactly when it is their encodings in a row |
| Dnp3Stream.BuildFrame | tools/dnp3-dpi/src/lib.rs:191-204 | the test encoder's loop computes `Built`, whose length octet wraps |
| Dnp3Stream.BuiltReadsBack | tools/dnp3-dpi/src/lib.rs:191-204 | the length octet is five more than the user data, modulo 256, and what is built decodes to what it was given exactly up to 250 octets of user data |
| S7comm.FrameDelimiting | tools/s7comm-dpi/src/lib.rs:90-104 | the TPKT, COTP and S7 decoder has the three stream properties, with frames of at least 7 octets |
| S7comm.RefusedIff | tools/s7comm-dpi/src/tpkt.rs:44-60 | each refusal by the octets that cause it: too few, another version than 3, a length below 7, a frame not yet complete, a COTP header that does not fit |
| S7comm.AcceptedIff | tools/s7comm-dpi/src/lib.rs:90-104 | what is decoded otherwise, octet by octet: the PDU type, and the S7 fields exactly when a data PDU goes on with 0x32 and has a whole header |
| S7comm.ParseStream | tools/s7comm-dpi/src/lib.rs:168-184 | the loop computes `Stream` over the S7comm decoder |
| S7comm.ParseCotp | tools/s7comm-dpi/src/cotp.rs:31-44 | an accepted COTP header has at least 3 octets and lies within the payload |
| S7comm.JobDecodes | tools/make_captures.py:203-215 | which jobs can be encoded; an encoded one carries its function code at offset 17, then parameters and data, and decodes, whatever follows, to that code and its lengths |
| S7comm.JobsStream | tools/s7comm-dpi/src/lib.rs:168-184 | encoded jobs in a row are decoded to their frames in order, and decoding goes on with what follows |
| OpcUa.Reader.U32 | tools/opcua-dpi/src/conversation.rs:35-40 | the cursor reads a little-endian word and moves past it, or stays |
| OpcUa.Reader.String | tools/opcua-dpi/src/conversation.rs:42-51 | the cursor reads a length-prefixed string, a negative length standing for an empty one |
| OpcUa.Reader.ByteString | tools/opcua-dpi/src/conversation.rs:53-62 | the cursor skips exactly what it would have read as a string |
| OpcUa.ParseConversation | tools/opcua-dpi/src/conversation.rs:70-94 | the cursor's reads in sequence compute `Conversation` |
| OpcUa.OpenIff | tools/opcua-dpi/src/conversation.rs:76-81 | an OPN payload decodes to a header exactly when it is that header's octets around any two further strings |
| OpcUa.SymmetricIff | tools/opcua-dpi/src/conversation.rs:81-93 | an MSG or CLO payload decodes to a header exactly when it is that header's octets |
| OpcUa.ConversationExtended | tools/opcua-dpi/src/conversation.rs:64-66 | octets appended to a payload are appended to the body and change nothing else |
| OpcUa.OpenLayout | tools/opcua-dpi/src/conversation.rs:70-94 | where each field of an OPN header stands, from the first octet on: channel, policy, two further strings, sequence number, request, body |
| OpcUa.SymmetricLayout | tools/opcua-dpi/src/conversation.rs:70-94 | where each field of an MSG or CLO header stands: channel, token, sequence number, request, body |
| OpcUa.NodeIdIff | tools/opcua-dpi/src/service.rs:18-34 | the three encodings of a node identifier, octet by octet, and that nothing else is one |
| OpcUa.TypeNames | tools/opcua-dpi/src/message.rs:72-75 | the seven message types, spelt out |
| OpcUa.RefusedIff | tools/opcua-dpi/src/message.rs:68-86 | each refusal by the octets that cause it, in their order: too few, no known type, no known chunk, a size below 8, a message not yet complete |
| OpcUa.AcceptedIff | tools/opcua-dpi/src/lib.rs:67-85 | what is decoded otherwise: the type, the chunk and the size from the octets, a conversation header for the types that carry one, and the node identifier at the start of its body |
| OpcUa.FrameDelimiting | tools/opcua-dpi/src/lib.rs:67-85 | the message decoder has the three stream properties, with messages of at least 8 octets |
| OpcUa.ParseStream | tools/opcua-dpi/src/lib.rs:179-195 | the loop computes `Stream` over the OPC UA decoder |
| RateLimiting.RateLimiter.constructor | services/ingest/auth.py:31-41 | a new limiter remembers nothing |
| RateLimiting.RateLimiter.Allow | services/ingest/auth.py:43-52 | the locked step keeps the state a function of the whole history of calls, and answers as the history says |
| RateLimiting.OtherKeysIgnored | services/ingest/auth.py:46-51 | a key's deque and admissions are those of its own calls alone |
| RateLimiting.DequeRemembers | services/ingest/auth.py:46-52 | under any interleaving, the deque is the latest admissions, never more than the limit, and what it lost is a window less the delay old |
| RateLimiting.InterleavedBound | services/ingest/auth.py:44-52 | if a call waits at most `delay` for the lock, no interval of length `window - delay` holds more than the limit |
| RateLimiting.InterleavedBoundTight | services/ingest/auth.py:44-52 | for every limit, window, delay and length: the limit holds in all intervals of that length on all runs exactly when the length is at most `window - delay`, or nothing is admitted, or there is no such run, or the interval is empty |
| RateLimiting.TraceBound | services/ingest/auth.py:44-52 | the bound for every trace of clock readings and lock acquisitions |
| RateLimiting.DequeIsRecentHistory | services/ingest/auth.py:47-52 | in sequential use the pruned deque is exactly the past admissions less than a window old, sorted, and the call is admitted exactly when they are fewer than the limit |
| RateLimiting.SequentialBound | services/ingest/auth.py:43-52 | in sequential use no half-open window holds more than the limit |
| RateLimiting.AdmitsMost | services/ingest/auth.py:43-52 | at every prefix, no selection of the same calls that keeps the limit has admitted more |
| RateLimiting.OptimalIff | services/ingest/auth.py:43-52 | this holds exactly when the window has a length or the limit admits something |
| Correlation.MatchCorrelation | tools/otde/correlation.py:56-121 | the evaluator's outcome: the first configuration error, the first unusable timestamp, or whether a tried window fires |
| Correlation.VerdictIff | tools/otde/correlation.py:87-121 | said of events alone: the rule fires exactly when, from the time of some matched event on, the number of matched events, or of distinct values, that share a matched event's group values there stands in the asked relation to the threshold |
| Correlation.EvaluableIff | tools/otde/correlation.py:58-94 | there is a verdict exactly when the rule is complete and each matched event has a usable timestamp |
| Correlation.ErrorsIff | tools/otde/correlation.py:58-94 | each error by its own cause, in the order in which the causes are looked for |
| Correlation.OperatorsMean | tools/otde/correlation.py:46-53 | for n events at one moment, or n distinct values, the verdict is `n < k`, `n <= k`, `n > k`, `n >= k`, `n == k` or `n != k` |
| Correlation.OperatorLaws | tools/otde/correlation.py:46-53 | `GT` k is `GTE` k + 1 and `LTE` k is `LT` k + 1, on all events |
| Correlation.AnyWindow | tools/otde/correlation.py:102-121 | the loop over starts decides whether some window that starts at a matched event fires |
| Correlation.ValueWindow | tools/otde/correlation.py:103-111 | one window's dictionary of sets decides whether a group's distinct values pass |
| Correlation.EventWindow | tools/otde/correlation.py:112-120 | one window's dictionary of counts decides whether a group's events pass |
| Correlation.Complete | tools/otde/correlation.py:100-121 | for the tests of `CompleteFor`, an empty window, or one value per group, some window at an event passes exactly when some window starting anywhere does |
| Correlation.CompleteIff | tools/otde/correlation.py:100-121 | the verdict on every sequence of events is the one over all windows exactly for the rules of `CompleteForRule` |
| Correlation.GroupLocal | tools/otde/correlation.py:102-120 | for the same tests, a window passes exactly when one does on one group's events alone |
| Correlation.GroupCollected | tools/otde/correlation.py:91-94 | collecting from one group's events is keeping that group's part of what is collected from all |
| Correlation.GroupLocalIff | tools/otde/correlation.py:102-120 | the rule fires exactly when it fires on one group's events alone, on every sequence of events, exactly for those rules and the rules that do not group |
| Correlation.SilenceBoundsDensity | tools/otde/correlation.py:98-121 | if "at least k + 1" is silent, the length of m windows holds at most m times k events or values of a group, wherever it starts |
| Correlation.ValueCountImpliesEventCount | tools/otde/correlation.py:103-120 | where distinct values exceed a threshold, events do |
| Correlation.VerdictPermuted | tools/otde/correlation.py:91-121 | listing the events in another order changes neither the verdict nor whether there is one |
| Correlation.DelayedFires | tools/otde/correlation.py:102-121 | moving all events by the same time changes nothing |
| Wilson.Inversion | metrics/stats.py:23-28 | a rate lies in the interval exactly when the score test accepts it, strictly inside exactly when it does so strictly |
| Wilson.WithinUnit | metrics/stats.py:27-28 | the interval contains the observed rate and lies in [0, 1], so the clamps change nothing |
| Wilson.IntervalContains | metrics/stats.py:17-33 | what is returned, snaps included: an interval of rates around the observed one, holding the accepted ones and, away from the ends, only those |
| Wilson.ReturnedInterval | metrics/stats.py:17-33 | said by the counts alone: what is returned holds all rates q with (x - nq)^2 <= z^2 n q (1 - q), between 1e-12 and 1 - 1e-12 no other, and x / n; an end is 0 or 1 or at least 1e-12 away from it |
| Wilson.RefusedIff | metrics/stats.py:19-22 | each of the two refusals exactly for its counts |
| Wilson.IntervalMirrored | metrics/stats.py:17-33 | counting failures for successes mirrors the returned interval, after both snaps |
| Wilson.UnclampedIncreases | metrics/stats.py:23-28 | both ends move up strictly with the observed rate |
| Wilson.IntervalIncreases | metrics/stats.py:17-33 | more successes never move an end of the returned interval down |
| Wilson.Tightens | metrics/stats.py:23-28 | at the same rate, more trials or a smaller quantile give an interval inside the other |
| ConversionOrder.PlaceReady | pipelines/convert.py:122-125 | placing the ready rules one by one leaves the others pending in their order |
| ConversionOrder.Order | pipelines/convert.py:95-126 | it terminates; the result is the rules reordered so that each resolved reference of a rule is strictly earlier and not repeated later, round by round; it raises only when no reordering is such |
| ConversionOrder.NoOrder | pipelines/convert.py:117-121 | when a round places nothing although rules are pending, no order exists |
| ConversionOrder.RoundIsLongestChain | pipelines/convert.py:109-116 | round k holds exactly the rules whose longest chain of references has k rules, all of them listed |
| ConversionOrder.OrderIffUnobstructed | pipelines/convert.py:117-121 | an order exists exactly when no chain of references leaves the rules or closes a circle |
| ConversionOrder.RoundsIndependent | pipelines/convert.py:98-104 | the rules of each round do not depend on listing order |
| ConversionOrder.ValidOrderIff | pipelines/convert.py:109-116 | the order that the other results speak of is a reordering in which the references listed are earlier |
| ConversionOrder.OrderDetermined | pipelines/convert.py:112-113 | the result depends on the resolved references of each rule only, not on how often or in what order they are listed or on unresolved ones between them |
| ConversionOrder.UnresolvedAdded | pipelines/convert.py:112-113 | inserting or dropping an unresolved reference is such a difference |
| ConversionOrder.RoundInListingOrder | pipelines/convert.py:107-122 | within a round the rules stand in listing order |
| Sinks.TwoReplacements | collector/sinks.py:32 | the two replacements in a row are one escaping, character by character |
| Sinks.LogfmtForm | collector/sinks.py:29-33 | a text is printed as it is exactly when it is not empty and has no space, quote or equals sign, and else escaped between quotes |
| Sinks.DecodesBack | collector/sinks.py:29-45 | a printed line of names without `=` decodes to the fields it was printed from |
| Sinks.DecodesBackIff | collector/sinks.py:29-45 | it does so exactly when no name contains `=` |
| Sinks.LinesUnique | collector/sinks.py:29-45 | no two field lists with such names print to the same line |
| Sinks.EqualsInNameCollides | collector/sinks.py:36-50 | for every product, service and timestamp there are two different usable events, one with `=` in a name, that leave the same streams |
| Sinks.ToLokiStreams | collector/sinks.py:36-50 | said of the events' own fields: one stream for each product and service that occur, labelled with them, in order of first appearance, with one entry for each of its events in their order, which has that event's time and a line that decodes to its other fields; or the error of the first unusable event |
| Sinks.FaultIs | collector/sinks.py:40-46 | an event fails with the first of product, service and timestamp that it lacks, or on a timestamp that cannot be converted |
| Sinks.UsableIff | collector/sinks.py:39-46 | grouping succeeds exactly when every event has all three and its timestamp can be converted |
| Sinks.KeysDistinct | collector/sinks.py:38-49 | no key is listed twice, and the keys are those of the events |
| Sinks.EveryEventOnce | collector/sinks.py:38-50 | the streams together hold as many entries as there are events |
| Wildcards.WildcardToRegex | tools/otde/matcher.py:264-274 | the loop computes `Compile` |
| Wildcards.CompiledMeaning | tools/otde/matcher.py:264-274 | the compiled expression matches exactly what the pattern means within one line |
| Wildcards.GlobLaws | tools/otde/matcher.py:264-274 | what a pattern means: the empty one the empty text, `?` one character, `*` any part, any other character itself up to case |
| Wildcards.FaithfulIffOneLine | tools/otde/matcher.py:264-274 | all patterns keep their meaning on a text exactly when it has no newline |
| Wildcards.BetweenStars | tools/otde/matcher.py:141-148 | a pattern between two stars matches a text exactly when the pattern matches a part of it |
| Wildcards.SearchMeaning | tools/otde/matcher.py:147-148 | searching with a compiled pattern finds, in any text, what the pattern means within one line |
| Wildcards.SearchIsAnywhereIff | tools/otde/matcher.py:147-148 | searching is matching the whole text between two stars, for all patterns, exactly on a text without a newline |
| Wildcards.MatchStringIsGlob | tools/otde/matcher.py:251-261 | with or without wildcards, a value matches a field exactly when the field is there and the pattern, with wildcards that stay within a line, matches its text; on one line that is the plain meaning |
| Wildcards.ContainsStringIsGlob | tools/otde/matcher.py:141-151 | with or without wildcards, a keyword is found in any candidate exactly when its pattern, within a line, matches a part; on one line that is the pattern between two stars |
| Sorting.Sort | baseline/build.py:64-67 | sorting a set gives a strictly increasing list of its members |
| Sorting.SortedUnique | baseline/build.py:64-67 | a set has only one such list |
| Sorting.TextOrderIs | baseline/build.py:64-67 | texts are ordered by the first character in which they differ, a proper prefix first |
| Baseline.Gather | baseline/build.py:43-59 | one event adds to the sets exactly what it exhibits; only a function code that is no number fails |
| Baseline.Build | baseline/build.py:36-68 | the artifact lists exactly what the events exhibit, sorted; building fails exactly when some event's code is no number |
| Baseline.LearnedIs | baseline/build.py:43-67 | said of the events' own fields: which assets, pairs, services and function codes are listed |
| Baseline.UnbuildableIff | baseline/build.py:50-56 | building fails on an event exactly when it is one of product `ot_ndr` with a service that is not empty and a function code that is no number |
| Baseline.MatchIs | tools/otde/baseline.py:47-80 | said of the fields of the event and of those learned from: the outcome for each kind of rule |
| Baseline.DetectsExactlyTheUnseen | tools/otde/baseline.py:47-80 | against what was learned from events, a rule fires on exactly what none of them exhibited |
| Baseline.FiresOnTrainingIff | tools/otde/baseline.py:54-79 | on a training event a rule fires exactly on an empty endpoint, an empty service with a function code, or the value of a field other than the two endpoints that is no known asset |
| Baseline.MoreTrainingIsQuieter | tools/otde/baseline.py:47-80 | learning from more events never makes a rule fire |
| Baseline.ArtifactDetermined | baseline/build.py:61-68 | the artifact does not depend on the order or repetition of events |
| Conduits.NestedOrDisjoint | tools/otde/conduit.py:53-54 | two address blocks are disjoint or one contains the other |
| Conduits.ContainsIff | tools/otde/conduit.py:54 | a block of 2^h addresses holds those of its version from its base, rounded down, up to 2^h further |
| Conduits.ZoneForIs | tools/otde/conduit.py:45-56 | the zone of an address is the first listed that holds it |
| Conduits.OrderFreeIff | tools/otde/conduit.py:45-56 | zone lookup does not depend on listing order exactly when overlapping zones share a name |
| Conduits.NoneNestedOrderFree | tools/otde/conduit.py:45-56 | in particular when no zone's block contains another's |
| Conduits.Violations | tools/otde/conduit.py:66-97 | between two zones: a path violation is an undeclared pair, a service violation a declared pair that refuses the port, never both |
| Conduits.FoundFirst | tools/otde/conduit.py:59-63 | the conduit of a pair is the first listed with these ends |
| Conduits.MatchIs | tools/otde/conduit.py:66-97 | the outcome for each kind of rule and each event: never within a zone or without one, else by whether a conduit is declared and which ports it has |
| Conduits.ObservedConduits | tools/otde/conduit.py:100-110 | the loop collects exactly the crossings of the events |
| Conduits.ObservedIff | tools/otde/conduit.py:100-110 | a pair is observed exactly when two different names that are not empty are the zones of an event's ends |
| Conduits.QuietIffObservedDeclared | tools/otde/conduit.py:83-84 | when every way of an unnamed zone is declared, no event leaves the declared paths exactly when all observed pairs are declared |
| Conduits.RuleAgreesWithReportIff | tools/otde/conduit.py:100-110 | rule and report agree on all events exactly for those policies, and so whenever all zones are named |
| Conduits.ConduitsAccountedFor | tools/otde/conduit.py:113-122 | observed and unused pairs then add up to the declared conduits |
| Conduits.UnusedIs | tools/otde/conduit.py:113-122 | the unused pairs are those of the declared conduits not observed, in listing order |
| Conduits.UnnamedZoneUnreported | tools/otde/conduit.py:107-109 | the smallest policy for which they do not |

## Left out

- Dnp3Link.ParseFrame: machine integers other than octets and 16-bit words are unbounded; no length in it exceeds 292.
- OpcUa.Reader.String: the string is kept as raw octets, where the code replaces invalid UTF-8; `checked_add` cannot overflow an unbounded offset.
- RateLimiting.RateLimiter.Allow: the clock and the lock are the two moments of a call, given as parameters; float rounding of the clock is not modelled.
- RateLimiting.AdmitsMost: about a clock that does not run backwards, read under the lock; out-of-order readings are covered by the interleaved bound.
- Correlation.MatchCorrelation: whether an event matches a referenced rule is taken as given, timestamps are reals, field values are compared for equality only, fields are looked up by name without dotted paths, and the field counted and the group key of an event are computed when it is matched instead of once a window.
- Correlation.AnyWindow: tries the starts in any order where the code sorts them.
- Wilson.Inversion: over exact reals, with the square root a parameter that squares to the radicand, for a quantile that is not negative; nothing is claimed about floats.
- ConversionOrder.Order: rules are identities; `pending.remove` compares with `==`, which differs when two rules are equal but not the same.
- Sinks.ToLokiStreams: what the conversion to nanoseconds makes of a timestamp, or that it fails, is part of the event; field values are the text `str` gives.
- Sinks.DecodesBack: the decoder is the model's own, as the repository has none.
- Wildcards.CompiledMeaning: Python's `re` is modelled for the expressions the compiler emits, and an expression with any other construct matches nothing in the model; ignoring case is a function on characters, the same one for `re.IGNORECASE` and `lower`, so characters that change length or fold differently are not covered.
- Wildcards.MatchStringIsGlob: a value counts as having wildcards when its text holds `*` or `?`; the library's notion of an escaped wildcard is not part of this model.
- Baseline.Build: `generated_from`, `schema_version` and the order of keys in the `functions` dictionary are left out; a function code is a number, missing, or not a number.
- Conduits.OrderFreeIff: addresses and blocks are numbers and prefixes; parsing them, and the error for a block with host bits set, are not modelled.
- Conduits.Violations: the service clause is for policies without a repeated pair; with one, the code judges by the first.
- The rest of the rule matcher (`_eval_condition`, number, comparison, CIDR and regular-expression values, log source routing), which is structural recursion over a library's syntax tree.
- The transport and application layers of DNP3 and object headers, the names of functions and services, and the JSON of events.
- The rest of `pipelines/convert.py` and the deployment code, which wrap libraries that are not part of this model.
- `services/ingest/app.py`, the key comparison, files, processes, HTTP and the command lines.
- `metrics/compute.py` and `purple/runner/run_emulation.py`: sums, minima and means that would only add easy members.
