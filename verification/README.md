# Verification of the measuring, counting, sharding and qualification scripts

This project models four groups of scripts and proves what they are for.

- **The fill-to-cash measuring protocol** (`scripts/measure_fill_to_cash_visibility.py`).
  A stream thread hands fill events to waiters through a locked queue; a buy/sell round trip
  runs against a broker that may answer anything; account reads, dated when issued and when
  answered, give an upper bound on when a fill's cash was visible; passive fills whose windows
  overlap are censored; and a hand-written WebSocket client carries the stream (RFC 6455,
  sections 5.2 to 5.5). Modules `FillEvents`, `FillSinkQueue`, `SinkRuns`, `RoundTrips`,
  `RoundTripSafety`, `RoundTripTrades`, `RoundTripOrders`, `OrderLives`, `Quantities`, `AccountReads`,
  `Visibility`, `PartialFills`, `PassiveFills`, `SettledReads`, `WebSocketFrames`, `WebSocketReader`, `WebSocketWriter`.
- **The TypeScript scanner** of the test counter (`scripts/count_tests.py`). Modules `TsLexer`,
  `TsBlanking`, `TsGrammar`, `TsTokens`, `TsSlashes`, `TsReblanking`, `TsTypeArguments`.
- **The deal of test files to CI shards**, written once for pytest and once for vitest. Modules
  `ShardLoads`, `ShardDeal`, `PytestShard`, `VitestShard`.
- **Two worklist algorithms and a re-run rule**: the dropper of repeated runs of polls, the
  import closure, and the receipts of a build qualification. Modules `RepeatedRuns`,
  `RepeatedRunsTwice`, `ImportClosure`, `BuildQualification`.

`Outcomes`, `Sequences` and `RepeatedSums` hold what these share.

## How the model stands for the code

- A loop that updates variables is a method with a loop, an object whose fields change is a
  class, and an array written in place is an array; each such method is proved equal to a
  specification function, and the properties are lemmas about that function. Threads are turns.
  What the stream or the poller appends between two looks of the other thread is an argument of
  the method, one entry for each look, and the contracts hold for every such schedule. `SinkRuns`
  models the same queue once more as a state machine, so that every interleaving of its steps is
  covered and not only those of one wait.
- The broker is a function from the log so far to its next answers, so every sequence of
  replies is some broker. An error answer, or none, may hide an order the broker accepted. The
  stream may die at any point of the log, also in the wait between a round's look at it and its
  buy, and never reopens.
- Deadlines are the number of looks that fit in; every statement holds for all. The trailing
  grace of a wait is measured on clock readings that are part of the schedule.
- Durations, prices and cash are exact reals, dates are integers, bytes are integers below 256,
  text is a sequence of characters ordered by code point. The regular-expression classes of the
  scanner are a parameter (`CharTable`), of which only the blank and the newline are fixed. The
  hash of a shard key is an arbitrary function.

## Where the code differs from its comments or from the natural claim

- The failure policy says nothing was accepted when a sell submission fails. The code takes any
  HTTP status for that, although it stops at a 5xx on a buy. `HiddenSellIsSoldTwice` gives the
  run with two live sells, `HiddenSellOversells` what it sells; `RunIsSafeExactly` says for every
  broker exactly when a run is safe, and `RefusalsMakeRunsSafe` that the policy's own assumption
  is enough. `RunTrades` counts: besides the sells that an error hides, at most one a round is
  accepted, whatever the broker answers.
- A sell refused with a 403 is retried at the balance named, whatever it is. `NamedBalanceOversells`
  gives a run that buys 1 and sells 5; `SellsWithinFillsExactly` says exactly when every sell stays
  within its fill.
- A round looks at the stream first and posts its buy after a wait of up to ten seconds, so a buy
  can follow the stream's end (`BuyAfterClosing`). `BuysWhileOpenExactly` gives the exact condition:
  the stream dies in no such wait; and there is at most one such buy, the run's last.
- `_await_settled_reads` says that only new reads count, but it begins at the first read of the
  poller's whole series, so reads made before the call can settle it (`EarlierReadsSettle`). `OnlyNewReadsCountExactly`
  says when they cannot: they hold no agreement of their own, and the last of them failed or there
  are none. A single read never settles it, even when one read is asked for.
- The comments say that a censored record carries no bound. An overlapped record keeps its
  `visibility_bound_ms` (`OverlappedKeepsItsBound`); only its status changes.
  `CensoredBoundExactly` says which censored records carry one: those of fills that overlap and
  that a read shows. The report goes by status, so none of them enters the distribution
  (`DelaysAreUnambiguous`).
- The fills of one order are all measured against the cash before the order, so a fill can be
  taken for visible when only an earlier one is (`SecondFillIsTakenForVisible`).
  `BoundReachesExactly` says when the bound is a bound for the fill's own cash, whatever else
  moves the account: its move came by the receipt, or nothing before it looked like it. In every
  case the first move is visible by then (`FirstMoveIsReached`).
- A comment in the report says that a read after the receipt contributes its issue-time delay;
  the code takes the answer time, as the classifier's own comment says. `AnswerTimeIsTheLeastBound`
  shows that no smaller bound would be sound.
- `blank_ts_noncode` says it keeps newlines. One after a backslash inside a regex literal
  becomes a space (`RegexLosesANewline`; `BlankingIsFaithful` says exactly when).
- The comment on the slash rule says that a miss only hides a quote character inside a regular
  expression. A miss can hide the code after it on its line (`MisreadPatternHidesCode`).
  `KernelIsLeftExactly` says what hangs on the rule: it takes every slash for what it is.
  `PlacedSlashesLeaveTheKernel` gives, by the tokens before a slash, sources on which it does.
- Blanking twice is not always blanking once: a string continued over a line, and a block
  comment between two identifiers, are counterexamples
  (`LineContinuationBreaksIdempotence`, `JoinedIdentifiersBreakIdempotence`).
  `BlankingIsIdempotentExactly` gives the exact condition, told by one walk over the source.
- Dropping repeated runs is neither idempotent nor does it leave a recording without repeated
  blocks (`DroppingMakesASquare`). `LeftAloneExactly` says when nothing is dropped, and
  `IdempotentExactly`, by one walk over the recording, when a second pass finds nothing.
- The deal maps a key collected twice to its last shard, so the load statements are for
  distinct keys, as both callers pass.

## Model

| member | source | states |
|---|---|---|
| FillEvents.ParseFillEvent | scripts/measure_fill_to_cash_visibility.py:127-157 | exactly the fills and partial fills with a known side, a positive size and price and an order are accepted, with that side, order, notional and receipt |
| FillSinkQueue.FillSink.Push | scripts/measure_fill_to_cash_visibility.py:624-626 | a pushed event goes behind everything queued |
| FillSinkQueue.FillSink.Drain | scripts/measure_fill_to_cash_visibility.py:628-631 | the caller gets the whole queue and leaves it empty |
| FillSinkQueue.FillSink.Requeue | scripts/measure_fill_to_cash_visibility.py:633-643 | returned events stand before those pushed meanwhile |
| FillSinkQueue.SortBatch | scripts/measure_fill_to_cash_visibility.py:725-731 | a batch splits into the order's fills and the rest, both in order |
| FillSinkQueue.SplitsOverConcat | scripts/measure_fill_to_cash_visibility.py:724-731 | sorting batch by batch is sorting their concatenation, wherever a drain cut it |
| FillSinkQueue.DrainedIsEverythingBefore | scripts/measure_fill_to_cash_visibility.py:724-725 | what a wait drains is everything the sink held or was pushed before its last drain |
| FillSinkQueue.EndsWhenGraceIsOver | scripts/measure_fill_to_cash_visibility.py:732-737 | a wait ends at its first check at least the trailing grace after its latest match, or at its deadline |
| FillSinkQueue.AwaitOrderFillEvents | scripts/measure_fill_to_cash_visibility.py:707-741 | for every schedule of pushes and clock readings: of everything drained by then, the order's fills are returned and the rest is in the sink again, in push order, before what came after the last drain |
| SinkRuns.NoInterleavingLosesEvents | scripts/measure_fill_to_cash_visibility.py:615-643 | in every interleaving of pushes with any series of waiters, the pushed events without the matched ones are the requeue list, then the batch, then the queue, in push order; none is matched twice; a waiter's matches are its order's fills |
| SinkRuns.MatchKeeps | scripts/measure_fill_to_cash_visibility.py:725-729 | taking a matching event out of the batch loses and reorders nothing |
| SinkRuns.FinishKeeps | scripts/measure_fill_to_cash_visibility.py:739-741 | the final requeue loses and reorders nothing, whatever was pushed meanwhile |
| Visibility.FirstReflectingIsFirst | scripts/measure_fill_to_cash_visibility.py:246-269 | the read found reflects the fill and no read before it does; none found means none reflects it |
| Visibility.BaselineIsARead | scripts/measure_fill_to_cash_visibility.py:197-206 | the baseline is the cash of the last successful read issued before the anchor |
| Visibility.LaterReadsDoNotChangeTheFirst | scripts/measure_fill_to_cash_visibility.py:822-830 | what a wait finds does not depend on how long the poller went on |
| Visibility.RecordFill | scripts/measure_fill_to_cash_visibility.py:790-844 | for every schedule of appends: the record is that of everything there is by the last look, against the baseline of the first snapshot |
| Visibility.MeasuredSawTheMove | scripts/measure_fill_to_cash_visibility.py:809-841 | a measured fill's baseline was read before the cash moved and its reflecting read after |
| Visibility.BoundIsSound | scripts/measure_fill_to_cash_visibility.py:764-787 | one fill moving cash, snapshots anywhere between issue and answer: measured cash was visible by receipt + bound, whichever side of the move the baseline saw |
| Visibility.MeasuredExactly | scripts/measure_fill_to_cash_visibility.py:820-841 | a fill is measured if and only if its baseline saw the cash before the move and some read from the anchor on saw it after |
| Visibility.AnswerTimeIsTheLeastBound | scripts/measure_fill_to_cash_visibility.py:770-781 | the same reads fit an account that moved only when the reflecting read was answered, so no smaller bound is sound |
| Visibility.ReflectsNineTenths | scripts/measure_fill_to_cash_visibility.py:239-243 | a read shows a fill if and only if cash went the fill's way by nine tenths of its notional |
| Visibility.StatusPlacesTheRead | scripts/measure_fill_to_cash_visibility.py:764-787 | led_stream, resolved and interval_censored_at_receipt say where the receipt lies against the read's issue and answer; the bound ends at the answer, or at the receipt when cash led it |
| Visibility.ReflectsOnlyTheMove | scripts/measure_fill_to_cash_visibility.py:239-243 | the reflection band tells the move from no move, from either side |
| PartialFills.BoundShowsSomeMove | scripts/measure_fill_to_cash_visibility.py:790-841 | whatever moves the account's cash: by receipt + bound of a measured fill it had moved the fill's way by the reflected fraction of its notional |
| PartialFills.BoundReachesExactly | scripts/measure_fill_to_cash_visibility.py:953-954 | no reads give a bound short of the fill's own move if and only if the move came by the receipt or no cash from the anchor to the move looked like it |
| PartialFills.FirstMoveIsReached | scripts/measure_fill_to_cash_visibility.py:797-802 | the first move after the baseline is visible by receipt + bound, whichever fill of the order it is taken for |
| PartialFills.SecondFillIsTakenForVisible | scripts/measure_fill_to_cash_visibility.py:953-954 | a second fill of an order resolved with a bound of 5 ms, 30 ms before its own cash moves |
| PassiveFills.FlagOverlaps | scripts/measure_fill_to_cash_visibility.py:1134-1140 | a window is flagged if and only if it meets another |
| PassiveFills.ByReceiptIsStable | scripts/measure_fill_to_cash_visibility.py:1107-1107 | the fills are taken in order of receipt, those of one instant in the order observed |
| PassiveFills.CorrelatePassiveFills | scripts/measure_fill_to_cash_visibility.py:1090-1146 | each fill, in that order, has its own record, its status replaced when its window meets another |
| PassiveFills.OverlapIsExact | scripts/measure_fill_to_cash_visibility.py:1107-1146 | from the fills and reads: overlapping_fills if and only if another fill is in question at once, each from its anchor until the first read that shows it is answered, or for the whole window; nothing else of the record changes |
| PassiveFills.AtOnceIsSharingAnInstant | scripts/measure_fill_to_cash_visibility.py:1139-1139 | fills in question at any instant are in question at once if and only if they share one |
| PassiveFills.UnresolvedFillContests | scripts/measure_fill_to_cash_visibility.py:1115-1124 | a fill no read shows takes its whole window, and a fill received within it is not measured |
| PassiveFills.CensoredBoundExactly | scripts/measure_fill_to_cash_visibility.py:1130-1146 | a censored record carries a bound if and only if another fill is in question at once and a read shows its own |
| PassiveFills.OverlappedKeepsItsBound | scripts/measure_fill_to_cash_visibility.py:1141-1146 | two fills of one instant whose censored record carries a bound of 2 ms |
| PassiveFills.EveryFillIsRecorded | scripts/measure_fill_to_cash_visibility.py:1107-1132 | every observed fill has exactly one record |
| PassiveFills.MeetingIsSharingAnInstant | scripts/measure_fill_to_cash_visibility.py:1139-1139 | the comparison of ends means that the two windows share an instant |
| PassiveFills.Report | scripts/measure_fill_to_cash_visibility.py:1218-1228 | the measured records, the censored ones and the bounds of the measured ones, in order |
| PassiveFills.ReportPartitions | scripts/measure_fill_to_cash_visibility.py:1218-1227 | measured and censored together are exactly the fills, split by status |
| PassiveFills.DelaysAreUnambiguous | scripts/measure_fill_to_cash_visibility.py:1210-1228 | every bound in the distribution is that of the first read that shows a fill, and at no instant at which this fill is in question is another |
| PassiveFills.DelaysAreComplete | scripts/measure_fill_to_cash_visibility.py:1218-1228 | every fill that a read shows, and with which no other is in question at once, has its bound in the distribution |
| SettledReads.AwaitSettledReads | scripts/measure_fill_to_cash_visibility.py:851-885 | for every schedule of appends: settled if and only if everything read by the last look, reads before the call included, holds the needed run of equal cash |
| SettledReads.OnlyNewReadsCountExactly | scripts/measure_fill_to_cash_visibility.py:852-861 | whatever is read later, the answer depends on the new reads alone if and only if the earlier ones hold no agreement and do not end in a successful read |
| SettledReads.EarlierReadsSettle | scripts/measure_fill_to_cash_visibility.py:865-882 | two equal earlier reads settle a wait in which nothing is read |
| SettledReads.CountIsTheRun | scripts/measure_fill_to_cash_visibility.py:874-883 | the counter is the length of the longest agreeing run ending at the last read |
| SettledReads.AgreementSnoc | scripts/measure_fill_to_cash_visibility.py:876-883 | looking at the counter after each read misses no agreement |
| Quantities.IncrementsExactly | scripts/measure_fill_to_cash_visibility.py:847-848 | k increments are taken if and only if k of them, and not k + 1, fit in the value and a billionth of an increment |
| Quantities.RoundTenIsNearest | scripts/measure_fill_to_cash_visibility.py:847-848 | rounding gives the one nearest ten-decimal number, of two the one with an even last digit |
| Quantities.FlooredWithinIncrement | scripts/measure_fill_to_cash_visibility.py:847-848 | before rounding, a multiple of the increment in (value - inc, value + 1e-9 inc] |
| RoundTrips.Rest.SubmitSellOrder | scripts/measure_fill_to_cash_visibility.py:542-569 | one more submission exactly on a 403 that names a positive balance, at that balance |
| RoundTrips.AwaitOrderTerminal | scripts/measure_fill_to_cash_visibility.py:684-704 | asks until a terminal state, a failed request or the deadline, and tells which |
| RoundTrips.RunOneRoundtrip | scripts/measure_fill_to_cash_visibility.py:888-1029 | the waits, posts and status requests of a round, and how it ends, for every broker |
| RoundTrips.RunRoundtrips | scripts/measure_fill_to_cash_visibility.py:1056-1068 | the log of a whole run and how it ends, for every broker, stream and count |
| OrderLives.WaitsThroughLiveStates | scripts/measure_fill_to_cash_visibility.py:684-704 | the wait for an order asks on through exactly the states in which the broker can still fill it, settles with the quantity of the first final one, and gives up at a failed request or the deadline |
| OrderLives.NothingPostedWhileOneCanFill | scripts/measure_fill_to_cash_visibility.py:907-916 | with the orders' states at the broker as they are between answers: no order is posted while one accepted earlier can still fill, if no answer but the run's last hides one |
| OrderLives.SellsAreOfTheWholeFill | scripts/measure_fill_to_cash_visibility.py:688-690 | a sell that is not of a named balance is of the sellable part of all that the buy has filled and ever will |
| OrderLives.SellsExactlyWhenSellable | scripts/measure_fill_to_cash_visibility.py:955-968 | a buy read as final is sold back if and only if its fills were delivered and the floored or raw quantity is positive and not below the least order |
| RoundTripSafety.RunIsSafeExactly | scripts/measure_fill_to_cash_visibility.py:907-916 | in every run, an order is posted only after every earlier accepted order was read as terminal, if and only if no answer but the last hides an accepted order |
| RoundTripSafety.RefusalsMakeRunsSafe | scripts/measure_fill_to_cash_visibility.py:932-998 | if a failed sell and a refused buy mean nothing was accepted, every run is safe, and a completed run leaves no accepted order unread |
| RoundTripSafety.HiddenSellIsSoldTwice | scripts/measure_fill_to_cash_visibility.py:967-976 | without that assumption a run posts a second sell while a hidden first one is live |
| RoundTripSafety.RoundIsSafe | scripts/measure_fill_to_cash_visibility.py:921-1029 | a round started with everything read ends safely, and with everything read if the run goes on |
| RoundTripTrades.SellQtyWithinTolerance | scripts/measure_fill_to_cash_visibility.py:958-968 | a sell as printed exceeds the fill by at most the tolerance, and falls short by less than an increment and a rounding |
| RoundTripTrades.SellQtyIsFloored | scripts/measure_fill_to_cash_visibility.py:955-957 | the quantity sold of a fill is all of it, or the whole increments that fit in it and a billionth of one, rounded to ten decimals |
| RoundTripTrades.RoundTrades | scripts/measure_fill_to_cash_visibility.py:958-1002 | one round accepts at most one sell besides those an HTTP error hides; with plausible answers (no sell hidden by an error, no 403 naming more than it refuses), for at most its fill plus the tolerance |
| RoundTripTrades.OneSellARound | scripts/measure_fill_to_cash_visibility.py:967-1002 | if no HTTP error hides a sell, one round accepts at most one, whatever balances are named |
| RoundTripTrades.RunTrades | scripts/measure_fill_to_cash_visibility.py:1056-1068 | for every broker, accepted sells are at most one a round and those an HTTP error hid; with plausible answers, sells, also behind a lost answer, exceed fills by at most one tolerance a round |
| RoundTripTrades.HiddenSellOversells | scripts/measure_fill_to_cash_visibility.py:967-976 | a run of one round accepts two sells, one hidden, and sells its fill twice |
| RoundTripTrades.NamedBalanceOversells | scripts/measure_fill_to_cash_visibility.py:561-567 | a run in which nothing is hidden, and a 403 names more than it refuses, sells five times what it bought |
| RoundTripOrders.EveryOrderIsJustified | scripts/measure_fill_to_cash_visibility.py:953-976 | in every run every buy follows a wait that began with the stream open, and every sell posted follows the latest buy's terminal state and fills and is of the sellable floored or raw quantity that buy filled, or of the balance a 403 just named in its place |
| RoundTripOrders.BuysWhileOpenExactly | scripts/measure_fill_to_cash_visibility.py:920-931 | every buy is posted on an open stream if and only if the stream dies in no wait before a buy; at most one buy, the last, is posted on a closed one |
| RoundTripOrders.BuyAfterClosing | scripts/measure_fill_to_cash_visibility.py:1057-1060 | a run whose buy is posted after the stream closed |
| RoundTripOrders.SellsWithinFillsExactly | scripts/measure_fill_to_cash_visibility.py:558-569 | with no assumption on the broker, every sell is within the tolerance of the latest fill if and only if every balance the client then sells was named within it |
| RoundTripOrders.OrdersAreBounded | scripts/measure_fill_to_cash_visibility.py:1056-1068 | at most one buy a round, exactly one in a completed run, and at most four sells for each |
| WebSocketFrames.UnpackPack | scripts/measure_fill_to_cash_visibility.py:384-390 | big-endian packing is undone by unpacking |
| WebSocketFrames.XorTwice | scripts/measure_fill_to_cash_visibility.py:391-391 | masking a byte twice with one key byte gives it back |
| WebSocketFrames.MaskedBits | scripts/measure_fill_to_cash_visibility.py:391-391 | bit j of octet i sent is set if and only if bit j of the payload's octet i and of the key's octet i mod 4 differ (section 5.3 of RFC 6455), bits by their place values |
| WebSocketFrames.UnmaskMasked | scripts/measure_fill_to_cash_visibility.py:391-391 | a peer that takes the bits in which octet and key differ gets the payload back |
| WebSocketFrames.LengthRoundTrip | scripts/measure_fill_to_cash_visibility.py:346-350 | every length below 2^64 comes back from its field, whatever follows |
| WebSocketFrames.LengthFieldIsShortest | scripts/measure_fill_to_cash_visibility.py:384-390 | no field that decodes to the same length is shorter than the one sent |
| WebSocketFrames.ClientFrameRoundTrip | scripts/measure_fill_to_cash_visibility.py:378-393 | a peer decoding by sections 5.2 and 5.3 of RFC 6455 reads back FIN, opcode and payload, for every payload below 2^63 and every key |
| WebSocketFrames.ServerFrameRoundTrip | scripts/measure_fill_to_cash_visibility.py:344-351 | the reader takes exactly the frame the server sent off the stream |
| WebSocketReader.ReadExact | scripts/measure_fill_to_cash_visibility.py:325-333 | exactly the next bytes, however the socket chunks them, or the error when the stream is too short |
| WebSocketReader.ReadMessage | scripts/measure_fill_to_cash_visibility.py:335-362 | the result, the bytes left and the pongs depend on the bytes only, not on how they arrive |
| WebSocketReader.ControlsAreAnswered | scripts/measure_fill_to_cash_visibility.py:354-356 | one pong for each ping, in order, same payload; pongs are skipped; the message so far stays |
| WebSocketReader.OtherFramesAreSkipped | scripts/measure_fill_to_cash_visibility.py:357-357 | frames with any opcode but 0x0, 0x1, 0x2, 0x8 and 0x9 change nothing |
| WebSocketReader.FragmentsAccumulate | scripts/measure_fill_to_cash_visibility.py:357-360 | open fragments accumulate in order, under the first one's opcode |
| WebSocketReader.MessagesAreReassembled | scripts/measure_fill_to_cash_visibility.py:335-362 | a message in any number of fragments with controls between comes back whole, its pings answered, exactly its bytes consumed |
| WebSocketReader.CloseEndsTheRead | scripts/measure_fill_to_cash_visibility.py:352-353 | a close frame ends the read at once, even inside a message, the pings before it answered |
| WebSocketWriter.TradeUpdatesStream.SendFrame | scripts/measure_fill_to_cash_visibility.py:378-393 | a connected stream sends the frame's bytes behind those sent; a missing connection refuses and sends nothing |
| WebSocketWriter.MaskedA | scripts/measure_fill_to_cash_visibility.py:378-393 | the octets sent for the text `A` under the key 1, 2, 3, 4 |
| WebSocketWriter.PeerReadsEveryFrame | scripts/measure_fill_to_cash_visibility.py:392-393 | a peer decodes everything sent into exactly the frames sent, in order |
| TsLexer.ScanTemplateText | scripts/count_tests.py:248-268 | scanning template text is running the machine to the closing backtick, the next hole or the end |
| TsLexer.ScanRegex | scripts/count_tests.py:322-341 | scanning a regex literal is running the machine to its slash outside a class or the end of line |
| TsLexer.ScanCode | scripts/count_tests.py:271-354 | reading one code character, with the literal or comment it opens, is running the machine over it |
| TsLexer.BlankTsNoncode | scripts/count_tests.py:229-355 | the scanner with its inner loops is the character machine run over the whole source |
| TsGrammar.BlankingLeavesTheKernel | scripts/count_tests.py:229-355 | for every well-formed source of a grammar with nested template holes, code, braces and delimiters stay and exactly comments, quoted text, template text and regular expressions become blanks, newlines kept, when the scanner's rule takes each slash for what it is |
| TsGrammar.BlankingLeavesTheKernelAndALastNote | scripts/count_tests.py:273-277 | the same for a source ending in a line comment without a line end |
| TsTokens.PlacedSlashesLeaveTheKernel | scripts/count_tests.py:212-216 | for every well-formed source whose patterns follow, past blanks and comments, its start, an operator mark or one of seven words, and whose divisions follow another word, a number, a closer or a literal: exactly the kernel is left; no rule of the scanner is assumed |
| TsTokens.PlacedSlashesLeaveTheKernelAndALastNote | scripts/count_tests.py:273-277 | the same for a source ending in a line comment without a line end |
| TsTokens.AgreesAfter | scripts/count_tests.py:343-353 | along any well-formed source the scanner's last character and word tell what token stands before |
| TsTokens.ArgumentIsAPattern | scripts/count_tests.py:319-341 | a pattern with a quote as a call's argument is blanked, and the code after it stays |
| TsSlashes.KernelIsLeftExactly | scripts/count_tests.py:212-216 | for every well-formed source, whichever slashes divide and whichever open regular expressions: the kernel is left if, and where a misread slash would show only if, the rule takes every slash for what it is |
| TsSlashes.MisreadPatternHidesCode | scripts/count_tests.py:319-321 | a regular expression after a closing parenthesis whose quote hides the code after it |
| TsGrammar.ProseScans | scripts/count_tests.py:248-268 | the text of a template literal is blanked up to its backtick, the code in each of its holes kept |
| TsGrammar.RegularTextScans | scripts/count_tests.py:324-341 | a regular expression's text is blanked up to the first slash neither escaped nor in a class |
| TsBlanking.BlankingIsFaithful | scripts/count_tests.py:230-247 | same length; each character is the source's own or a space; a newline is lost if and only if a backslash consumed it inside a regex literal |
| TsBlanking.HolesStayNested | scripts/count_tests.py:238-240 | at every step the stack of open holes is non-decreasing and never above the brace depth |
| TsReblanking.MoveTold | scripts/count_tests.py:270-355 | on the blanked text the scanner copies what the first scan's move emitted, or emits something else there, exactly as the clash rule says |
| TsReblanking.BlankingIsIdempotentExactly | scripts/count_tests.py:229-355 | blanking the result changes nothing if and only if, on one walk over the source, the second scanner never meets something visible inside a quotation or regular expression the first is not in, nor a comment behind a regular expression it takes for a division |
| TsReblanking.SteadyNeverClashes | scripts/count_tests.py:278-302 | no clash where no line is continued in a quotation and no block comment stands straight after an identifier |
| TsBlanking.RegexLosesANewline | scripts/count_tests.py:327-330 | a source that loses a newline |
| TsReblanking.PlainSourcesBlankOnce | scripts/count_tests.py:278-302 | the same, for sources without a backslash at the end of a line or a block comment straight after an identifier or a template edge |
| TsReblanking.NoBackslashNoBlockComment | scripts/count_tests.py:229-355 | in particular for sources with no backslash and no block comment |
| TsReblanking.LineContinuationBreaksIdempotence | scripts/count_tests.py:292-303 | a line-continued string that blanks differently the second time |
| TsReblanking.JoinedIdentifiersBreakIdempotence | scripts/count_tests.py:278-287 | a comment between identifiers that blanks differently the second time |
| TsTypeArguments.AfterTypeArguments | scripts/count_tests.py:358-375 | the first place within reach where everything opened is closed; the start when nothing opens; the error if and only if there is no such place |
| TsTypeArguments.WholeListIsRead | scripts/count_tests.py:361-364 | that place is just past the list's own bracket, for every well-bracketed list with arrows and nested lists inside, and there is no other |
| ShardLoads.LoadsPartitionTheWork | PythonDataService/scripts/pytest_shard.py:109-114 | the shards' loads add up to the work, for every assignment |
| ShardDeal.DealOrderIsUnique | PythonDataService/scripts/pytest_shard.py:105-108 | there is one deal order of a collection of entries, so the sort's own algorithm does not matter |
| ShardDeal.KeyOrderIsLexicographic | PythonDataService/scripts/pytest_shard.py:105-108 | ties are dealt in dictionary order of the keys, by code point |
| ShardDeal.DealKeepsLoads | PythonDataService/scripts/pytest_shard.py:109-114 | the running loads are the sums of what was dealt to each shard |
| ShardDeal.GapWithinOneJob | PythonDataService/scripts/pytest_shard.py:111-114 | at every step any two loads differ by at most the largest job |
| ShardDeal.DealWithinFourThirds | PythonDataService/scripts/pytest_shard.py:105-114 | if any assignment keeps every shard within a limit, the deal keeps each within (4/3 - 1/(3m)) of it |
| PytestShard.FileDurations | PythonDataService/scripts/pytest_shard.py:121-127 | the loop computes the sums by file |
| PytestShard.PerFileIsExact | PythonDataService/scripts/pytest_shard.py:121-127 | a file has a duration if and only if it has a test, and it is its own tests' time |
| PytestShard.FileOfIsBeforeSeparator | PythonDataService/scripts/pytest_shard.py:121-127 | a test's file is its node id up to the first double colon |
| PytestShard.UnmeasuredShardExactly | PythonDataService/scripts/pytest_shard.py:55-60 | an unmeasured key is assigned to, and collected by, shard s if and only if its digest is a multiple of the shard count and s - 1 more |
| PytestShard.CollectedWhereAssigned | PythonDataService/scripts/pytest_shard.py:48-49 | a collected key is collected by the shard it is assigned to, measured or not |
| PytestShard.EveryShardIsReached | PythonDataService/scripts/pytest_shard.py:55-60 | every shard of 1..m is some digest's |
| PytestShard.ShareAShardExactly | PythonDataService/scripts/pytest_shard.py:116-118 | two unmeasured keys share a shard if and only if their digests differ by a multiple of the shard count |
| PytestShard.AssignShards | PythonDataService/scripts/pytest_shard.py:90-118 | the loops over loads compute the deal and the hash fallback; fewer than one shard is refused |
| PytestShard.LightestShard | PythonDataService/scripts/pytest_shard.py:112-112 | the lowest-numbered shard with the least load |
| PytestShard.AssignmentIsExact | PythonDataService/scripts/pytest_shard.py:96-118 | exactly the collected keys are assigned, each to a shard in 1..m, unmeasured ones to their hash shard |
| PytestShard.AssignmentIgnoresOrder | PythonDataService/scripts/pytest_shard.py:98-100 | the assignment does not depend on the order of collection |
| PytestShard.AssignmentIsTheDeal | PythonDataService/scripts/pytest_shard.py:111-118 | for distinct keys the mapping records the deal's owner of every measured key |
| PytestShard.AssignmentWithinFourThirds | PythonDataService/scripts/pytest_shard.py:96-118 | Graham's bound: no shard's measured time exceeds (4/3 - 1/(3m)) times the heaviest of any other assignment of the same keys |
| PytestShard.AssignmentIsBalanced | PythonDataService/scripts/pytest_shard.py:96-114 | two shards' measured times differ by at most the longest file |
| PytestShard.AssignmentIsNearAverage | PythonDataService/scripts/pytest_shard.py:96-114 | no shard exceeds total/m + (1 - 1/m) times the longest file |
| PytestShard.ExactlyOneShardCollects | PythonDataService/scripts/pytest_shard.py:158-169 | every path is collected by exactly one shard of 1..m, each computing the deal for itself in its own order |
| VitestShard.Shard | Frontend/vitest.ci.config.ts:88-100 | the map/sort/filter chain over a mutated loads array keeps the deal's files of this shard, heaviest first |
| VitestShard.DealToLightest | Frontend/vitest.ci.config.ts:94-98 | minimum and indexOf find the lowest-numbered lightest shard, which takes the weight |
| VitestShard.SequencerAgreesWithPlugin | Frontend/vitest.ci.config.ts:79-87 | when every file is measured, the sequencer's files of a shard are the ones assign_shards maps to it |
| VitestShard.EachFileRunsOnce | Frontend/vitest.ci.config.ts:85-86 | whatever the weights, the shards 1..m together run every file exactly as often as it is given |
| RepeatedRuns.WithoutRepeatedRuns | PythonDataService/scripts/option_qualification_bundle.py:664-686 | the flags written in place are those of the scan |
| RepeatedRuns.FindRepeat | PythonDataService/scripts/option_qualification_bundle.py:676-678 | the shortest run of up to eight that repeats the polls kept just before |
| RepeatedRuns.DroppingIsLossless | PythonDataService/scripts/option_qualification_bundle.py:665-670 | replaying the log of keeps and drops, a drop copying the last polls kept, rebuilds the recording; the flags select the polls kept |
| RepeatedRuns.KeptPollsAreChanges | PythonDataService/scripts/option_qualification_bundle.py:667-670 | every kept poll but the first differs from the recorded poll just before it |
| RepeatedRuns.LeftAloneExactly | PythonDataService/scripts/option_qualification_bundle.py:675-686 | nothing is dropped if and only if no block of up to eight stands twice in a row |
| RepeatedRunsTwice.IdempotentExactly | PythonDataService/scripts/option_qualification_bundle.py:675-686 | dropping again changes nothing if and only if, on one walk over the recording, no poll kept within seven of a drop completes a doubled block that the drop fell into |
| RepeatedRunsTwice.StutteringIsDroppedOnce | PythonDataService/scripts/option_qualification_bundle.py:667-670 | a recording with no doubled block but stutters loses exactly its stutters, and a second pass finds nothing |
| RepeatedRuns.DroppingMakesASquare | PythonDataService/scripts/option_qualification_bundle.py:664-686 | a recording that keeps such a block and is dropped from again |
| ImportClosure.SignalDecisionImportClosure | PythonDataService/scripts/run_signal_program_build_qualification.py:356-381 | the least set that holds the roots and is closed under imports, which is what chains of imports reach, cycles included; an error if and only if a root is missing |
| ImportClosure.ReachableIsInEveryClosed | PythonDataService/scripts/run_signal_program_build_qualification.py:361-366 | what a chain of imports reaches is in every closed set that holds the roots |
| ImportClosure.NothingPending | PythonDataService/scripts/run_signal_program_build_qualification.py:369-381 | an empty frontier leaves the least closed set |
| BuildQualification.PriorReceiptReuse | PythonDataService/scripts/run_signal_program_build_qualification.py:475-504 | the loop computes the index; no manifest gives an empty one |
| BuildQualification.QualifySignalProgramBuilds | PythonDataService/scripts/run_signal_program_build_qualification.py:551-603 | a manifest if and only if every program is registered and passes; otherwise the first failure and no receipt |
| BuildQualification.IndexFindsCommitted | PythonDataService/scripts/run_signal_program_build_qualification.py:493-504 | the index of a committed manifest finds each receipt's facts by its identity and nothing else |
| BuildQualification.RerunIsFixpointExactly | PythonDataService/scripts/run_signal_program_build_qualification.py:582-602 | a re-run with unchanged identities changes no date, and gives the same manifest if and only if no missing lineage can be filled in now |
| BuildQualification.RerunIsFixpoint | PythonDataService/scripts/run_signal_program_build_qualification.py:583-593 | when every receipt carries its lineage, qualifying again at any time gives the manifest back |
| BuildQualification.ChangedIdentityIsDatedAfresh | PythonDataService/scripts/run_signal_program_build_qualification.py:439-504 | whatever the manifest holds, an identity unknown to it gets the fresh date and its present lineage, and a known one the date, and the lineage if recorded, of its last receipt there; a receipt lacking any field of the identity or its date is of none |

## Left out

- TsGrammar.BlankingLeavesTheKernel: for sources whose constructs are closed; on others only the general statements of `TsBlanking` and `TsReblanking` hold. What a slash is, is given by the source's own structure; that the scanner sees it so is the condition, met by the sources of `TsTokens`. The language's full grammar is not modelled.
- TsSlashes.KernelIsLeftExactly: the converse is for sources in which every division is followed on its line by code or a comment and no regular expression is all spaces; a misread slash that fails this may leave the kernel as it is.
- TsTokens.PlacedSlashesLeaveTheKernel: says nothing of a slash that comes first in a template's hole, or right after words that only a comment or template text keeps apart; and goes by the source's list, in which a closing brace expects an operand.
- Visibility.BoundIsSound: for one fill an order, whose cash moves once; `PartialFills` has the exact condition for any account.
- Visibility.AnswerTimeIsTheLeastBound: for reads made one at a time, as the poller makes them, with none issued before the anchor appended after the baseline was taken.
- RoundTripTrades.RunTrades: the bound on quantities assumes that an error on a sell hides none and that a 403 names no more than the sell it refuses; the code checks neither, and each is needed (`HiddenSellOversells`, `NamedBalanceOversells`). It is for increments that are not negative. The count of sells assumes nothing.
- RoundTrips.RunOneRoundtrip: the fill records, the skipped-leg notes and the error texts are not modelled, only waits, orders, status requests and how the round ends. A reply without the expected fields is not either.
- SinkRuns.NoInterleavingLosesEvents: parsing is taken as total. An exception in the middle of a batch would lose that batch's rest, since only what was already sorted is requeued.
- PytestShard.AssignmentWithinFourThirds: over exact reals; the code adds floats.
- PytestShard.HashShard: the digest is any function to the naturals. Reading the durations file is not modelled.
- VitestShard.SequencerAgreesWithPlugin: strings are compared by code point, while JavaScript compares UTF-16 units, which differs above the basic plane only. The recorded weight or size estimate is any weight function; path normalisation and the file size are not modelled. Its comparator has no case for equal paths, which do not occur.
- TsTypeArguments.WholeListIsRead: for lists whose text has no equals sign right before a closing bracket, where the code reads an arrow.
- ImportClosure.SignalDecisionImportClosure: a file's first-party imports are given as a list of existing files; parsing, and files that change during the walk, are not modelled.
- BuildQualification.QualifySignalProgramBuilds: programs come in the order given; suites, digests and git are inputs, and the payload's other fields an opaque text that depends on the program.
- RepeatedRuns.WithoutRepeatedRuns: polls are compared as opaque text.
- The `run_observe` loop that gathers passive events, the percentiles of `summarize`, `normalize_raw_event`, `parse_iso_ms` and number parsing.
- Sockets, TLS, the HTTP upgrade, keepalive timers and REST transport: only the bytes, the replies and the turns of the other thread remain.
- The test-call heads and assertion regexes of the counter, and its counting of Python tests.
- pytest and vitest configuration, command lines, report and plot writing, and all other scripts of the repository.
