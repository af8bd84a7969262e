# Verified model of the surplus-power dimmer firmware

The firmware diverts surplus solar power into a load through a triac. This project models its
four algorithms and proves properties of all their inputs and runs.

- **XML reader and GridPower extractor** (`src/xread.c`, `src/Kostal.c`). `XmlReference` is a
  recursive-descent reader with no tables and no registers. `XMachine` is the goto machine of
  `xr_read` as a step function over its local variables, `XReadTables` its ten dispatch tables,
  and `XRead` the reader in its own form, one method for each label. `XReadProof` shows that the
  machine emits the events of the reference reader, `XReadPlaces` where in the text each callback
  finds its slices, and `XReadTrace` that this leaves no choice. `XmlGrammar` and `XmlParse` show
  that the reference reader accepts exactly the grammar the tables draw. `XmlTrace` and `XmlViable`
  treat erroneous texts, `XmlForest` printing and reading back, and `Kostal` the extractor.
- **Message ring** (`src/msgqueue.c`, `Com_Task` in `src/main.c`). `MsgQueue` is the ring read by
  one task at a time; `MsgSystem` is a transition system in which any senders and readers
  interleave between the two queue operations of a receive.
- **Control loop** (`src/dimmer.c`, `src/pid.c`, `map` in `src/helper.c`). `Dimmer` gives one
  iteration stage by stage and what it keeps, `DimmerTask` the loop over `conf_gestor`,
  `DimmerRuns` and `DimmerLaws` whole runs, `Triac` the zero-cross interrupt and the one-shot timer interleaved
  with the writes of the loop. `CArith` holds C's truncating division and conversion.
- **Meter** (`src/medidor.c`). `Medidor` scans for a frame, checks it and decodes it.

Gains are reals and all other numbers mathematical integers. Readings, temperatures, decoded JSON,
`atof` and `atoi` are parameters. A C string is the bytes before the first NUL.

Findings, each proved below:

- A GridPower element whose Type comes before its Value is read with another element's Value, or
  with one left over from an earlier document.
- The test for more than 55 degrees stands behind the test for more than 50, so the NTC controller
  runs only between 36 and 44 degrees, where it never lengthens the shortest delay; that stays 100.
- The NTC integral is never cleared: in every run it is the sum of 35 minus the temperature over the
  iterations in that range, so it only ever falls.
- The interrupt can arm a negative delay between the writes of an iteration exactly if a limit of
  the power controller is under -100, for any gains that are not negative, the proportional or the
  integral one being positive. The default lower limit is -1000.
- `include/dimmer.h:34` calls `reg` a percentage; the code stores watts, and the model follows it.
- A frame header found at byte 41 to 47 of a 64-byte read is judged on bytes that were not received,
  a header is looked for in the last byte received and the one behind it, and a read without any
  header is judged as if one stood at byte 0. `Medidor.VerdictOnReceivedBytes` says exactly which
  reads depend on the received bytes alone.

## Model

| member | source | states |
|---|---|---|
| XRead.XrRead | src/xread.c:8-217 | The callbacks made are the one and only trace of the text before the first NUL: its events, each slice at the one place where the text goes on, the end of a `/>` repeating the slice of the latest start, an error about the first byte that no accepted text could have there, or the NUL of an unfinished text; an error callback is among them exactly when the text is rejected; no byte past that NUL is fetched; an accepted text is fetched to its NUL |
| XRead.Reader.constructor | src/xread.c:129-137 | The first byte is dispatched through the root table with nothing called back |
| XRead.Reader.ReportError | src/xread.c:139-143 | l_error: one error callback, about the byte dispatched last, completes the callbacks |
| XRead.Reader.Execute | src/xread.c:136-213 | Each label of the reader does to its variables what the machine does, and hands control on to the same label |
| XRead.Reader.Gotos | src/xread.c:133-216 | The gotos end, in the state where the machine halts |
| XReadProof.Reached | src/xread.c:9-127 | Every entry of the ten tables is the label that the character classes of the grammar give for its byte |
| XmlBytes.NameBytes | src/xread.c:9-127 | A name begins with a letter or '_' and goes on with these, digits, '-' and '.' |
| XMachine.StepLives | src/xread.c:5-6 | Every step fetches a byte of the text or moves down the order of labels, so the reader terminates; `name_handle` is set whenever the name table is active |
| XReadProof.StepKeepsGood | src/xread.c:136-213 | Whatever the label, the callbacks made and the events still pending remain the events of the text |
| XReadProof.RunReads | src/xread.c:129-217 | Where the machine halts its callbacks carry the events of the text, and it halts at l_done exactly for the accepted texts |
| XReadPlaces.StepKeepsOnSpot | src/xread.c:136-213 | Whatever the label, every callback made is in its place and the machine stands behind them: where white space, a quote, '>' or '<' has been skipped since |
| XReadPlaces.RunPlaces | src/xread.c:129-217 | In every run a start is named right behind the '<' that comes next, an end right behind the '</' that comes next unless the start tag being read closes itself, and an attribute at the next byte that is not white space, its value behind the quote after '=' |
| XReadPlaces.InPlaceAt | src/xread.c:167-213 | The place of each single callback follows from those before it |
| XReadPlaces.SelfClosedEnd | src/xread.c:179-182 | At '/>' the end called back repeats the very name slice of the latest element start |
| XReadPlaces.EndTagEnd | src/xread.c:173-177 | For an end tag the end called back is named by that tag itself, right behind its '</' |
| XReadTrace.RunTraces | src/xread.c:129-217 | The callbacks of every run are a trace of the text |
| XReadTrace.HaltIsFirstBad | src/xread.c:139-143 | The text before the byte that an error is called back for can go on to an accepted one; with that byte it cannot, unless it is the NUL |
| XReadTrace.OnlyTrace | src/xread.c:129-217 | No text has two traces: places and events determine every slice, offset and length |
| XReadTrace.CallsGoForward | src/xread.c:167-213 | Every callback hands out text beyond everything handed out before it, but for the end of a tag that closes itself |
| XmlGrammar.DocReads | src/xread.c:136-213 | A document printed from the grammar, followed by any text, reads as its own events followed by those of that text; names are read to their longest |
| XmlParse.AcceptsExactlyTheGrammar | src/xread.c:9-217 | The reader finishes without an error exactly when the text has a derivation in the grammar |
| XmlParse.DerivedEvents | src/xread.c:136-213 | Whatever derivation a text has, its events are those of the derivation, `/>` ending the element that the tag starts |
| XmlParse.ReadingConcatenates | src/xread.c:129-213 | If d1 is accepted the events of d1 ++ d2 are those of d1 and then those of d2, legal or not |
| XmlTrace.ContentShape | src/xread.c:139-213 | The trace of every text, accepted or not, has the legal shape |
| XmlTrace.ShapeMeans | src/xread.c:139-143 | In that shape an error is the last event, and every attribute comes right after an element start or another attribute |
| XmlTrace.ContentDies | src/xread.c:139-143 | After an error at a byte of the text, nothing appended to it changes its events |
| XmlViable.ErrorsAreExact | src/xread.c:139-143 | A text can be continued to an accepted one unless the reader complains about one of its bytes; a complaint about the NUL means only that it is unfinished |
| XmlForest.PrintedForestReads | src/xread.c:136-213 | A printed forest of elements, with either quote and either empty form, is accepted and reads as its elements, attributes and children in document order |
| XmlForest.ForestRoundTrip | src/xread.c:136-213 | The forest is recovered from the events of its printed text, but for quotes and empty forms |
| Kostal.XmlHandler.Handle | src/Kostal.c:7-48 | An attribute named Value, and no other callback, changes the remembered value; Unit and Type likewise their buffers; Type="GridPower", and nothing else, parses the value remembered then into the cell and empties its buffer |
| Kostal.XmlHandler.Read | src/Kostal.c:106 | Reader and handler together leave the reading of the document's events in the cell |
| Kostal.ReadingIs | src/Kostal.c:38-44 | The reading is the parse of the latest Value at the last GridPower attribute, and unchanged if there is none |
| Kostal.LatestValueIs | src/Kostal.c:20-25 | That Value is the last one before the attribute, or the one left by earlier documents if there is none |
| Kostal.ReadingIsOwn | src/Kostal.c:20-44 | The Value parsed belongs to the GridPower element exactly when that element carries a Value before its Type |
| Kostal.OwnReading | src/Kostal.c:20-44 | Then the reading is its own Value, whatever was read before |
| Kostal.MeasurementReads | src/Kostal.c:9-44 | An element with any Value v, any Unit u and Type GridPower in this order is accepted and reads as v, whatever was read before |
| Kostal.TypeFirstReadsWrong | src/Kostal.c:20-44 | A document whose reading is the Value of the wrong element |
| Kostal.ReadsAcrossDocuments | src/Kostal.c:9-44 | After any documents the reading is the parse of the last Value in any of them or in this one before its last GridPower attribute |
| Kostal.HistoryMatters | src/Kostal.c:9-44 | Earlier documents matter to the reading of a document exactly if its last GridPower attribute comes before every Value in it |
| Kostal.LeftOverReads | src/Kostal.c:9-44 | Two accepted documents of which the second reads as the Value of the first |
| MsgQueue.Ring.XQueueSend | src/msgqueue.c:26 | A send into a full queue fails and leaves it as it was |
| MsgQueue.Ring.XQueueReceive | src/msgqueue.c:34 | The oldest message leaves the queue, if there is one |
| MsgQueue.Ring.Send | src/msgqueue.c:8-30 | Refuses exactly payloads over 512 and topics over 128, else appends a message with count 0; a queue of 5 loses it and success is still reported |
| MsgQueue.Ring.Receive | src/msgqueue.c:32-59 | Delivers, gives back with one lap more, or evicts the first message; the copy given back keeps its length |
| MsgQueue.Ring.ComTaskRound | src/main.c:278-373 | The first message is handled, which may order the dimmer, or sent afresh to the back |
| MsgQueue.OrderArrives | src/main.c:287-306 | An order decoded from a message for MQTT_RX or WS_RX reaches the dimmer: nothing else being for it, the dimmer alone gets it, fresh, on exactly its call k, k being the messages in the queue |
| MsgQueue.WhatCirculates | src/main.c:279-373 | Messages for WS_TX, MASTER, DIMMER_RX and CONTROL go back with all their laps; all others are done with |
| MsgQueue.ReceiveUsesLap | src/msgqueue.c:36-54 | Every receive of a non-empty queue uses up a lap, and counts stay within the limit |
| MsgQueue.Drains | src/msgqueue.c:32-59 | With nothing sent, k messages are gone after 6k receives by whatever mix of readers |
| MsgQueue.OthersPass | src/msgqueue.c:41-54 | Messages for others move to the back in order, a lap older, without those at the lap limit |
| MsgQueue.ReaderReaches | src/msgqueue.c:32-59 | A reader alone gets the first message for it, at position i, on exactly its call i + 1, even with no lap left |
| MsgSystem.StepConserves | src/msgqueue.c:8-59 | No step but a send makes or loses a copy of any letter |
| MsgSystem.StepKeepsHealthy | src/msgqueue.c:26-44 | Every step keeps the queue within its size, counts within the lap limit, and messages fit to be sent again |
| MsgSystem.EveryLetterInOnePlace | src/msgqueue.c:8-59 | In every interleaving each accepted send is in exactly one place, once and unchanged, and the queue keeps its size |
| MsgSystem.HowItLeft | src/msgqueue.c:26-54 | In every run a letter that has left the ring did so at a step of the run that accounts for it: taken by its reader, handled by `Com_Task`, taken without laps left by a reader it is not for, or sent or given back to a full queue |
| MsgSystem.EvictedAtTheSixthTake | src/msgqueue.c:36-54 | In every interleaving the count of each copy on its way is how often the letter has been taken by readers it was not for since it was last sent afresh; an evicted letter was taken so exactly 6 times |
| MsgSystem.OrdersReachTheDimmer | src/main.c:369-372 | With the dimmer and `Com_Task` as readers an order for the dimmer waits with count 0, is delivered to it, or is lost to a full queue; it is never an orphan |
| MsgSystem.TakesAreBounded | src/msgqueue.c:32-59 | While nothing is sent, messages are taken at most 6 times each, however the readers interleave |
| MsgSystem.UndisturbedReceive | src/msgqueue.c:32-59 | A take and a give-back with nothing in between are one receive of the ring |
| MsgSystem.UndisturbedComTask | src/main.c:278-373 | The same for MASTER and a round of `Com_Task` that orders nothing |
| MsgSystem.UndisturbedOrder | src/main.c:287-306 | A round that orders is a take by MASTER and a send to DIMMER_RX |
| CArith.DivTruncates | src/helper.c:7 | Division leaves a remainder smaller than the divisor with the sign of the dividend |
| CArith.MapIsProportional | src/helper.c:6-16 | Between the input limits, in either order, the result is the value rescaled in exact proportion and rounded toward the lower output limit; beyond them it is the output limit |
| Pid.PidInc.Run | src/pid.c:19-37 | The new state of the controller and its limited output |
| Pid.OutputResponds | src/pid.c:19-37 | The output is the integer part of kp times the error, ki times the sum of errors and kd times the change of the error, or the limit that passes |
| Pid.NthOutput | src/pid.c:19-37 | Over a run of a new controller the n-th output answers to the n-th error, the sum of the first n and the difference of the last two |
| Pid.PushesBack | src/pid.c:22-36 | An integral beyond the threshold decides the sign of the output, whatever the error within its bound |
| Dimmer.NtcNeverRaises | src/dimmer.c:47-54 | Where it is called the NTC controller never asks for a longer delay, and keeps the integral at or below the last error |
| Dimmer.RegulateLimits | src/dimmer.c:113-136 | The delay is the old one corrected and limited to 100..10000; a limit that is hit clears the integral, and only the upper one disables the output; the power is extrapolated by half the correction |
| DimmerLaws.DelayFollows | src/dimmer.c:71-132 | One iteration: which power it regulates, the answer of the controller in its gains, and what that makes of delay, output, extrapolated power and sum of errors |
| DimmerLaws.HeatMovesTwice | src/dimmer.c:47-54 | `temp_pid` moves the shortest delay by twice the answer of a controller towards 35 degrees |
| Dimmer.ExtrapolatesByHalf | src/dimmer.c:114-115 | `map` halves the correction, rounding down, within 500 either way |
| Dimmer.RegulationInWatts | src/dimmer.c:142-147 | An order in percent sets 36 watts for each percent, limited at 0 and 100 |
| Dimmer.IterateKeeps | src/dimmer.c:69-181 | Every iteration keeps the loop invariant for any reading, temperature and order |
| Dimmer.LevelIsPercentage | src/dimmer.c:81 | The level is the exact truncated percentage, 0 at the longest delay and 100 at the shortest |
| Dimmer.LevelAntitone | src/dimmer.c:81 | A longer delay is never reported as a higher level |
| DimmerTask.Task.constructor | src/dimmer.c:272-287 | The initial state of the loop |
| DimmerTask.Task.HeatPid | src/dimmer.c:47-54 | The NTC correction of the shortest delay |
| DimmerTask.Task.Observe | src/dimmer.c:71-112 | Fetch, report and temperature stages; the branch behind 55 degrees is never reached |
| DimmerTask.Task.Correct | src/dimmer.c:113-136 | Correction and limits of the delay |
| DimmerTask.Task.Accept | src/dimmer.c:140-176 | The effect of an order on regulation, gains and limits |
| DimmerTask.Task.Round | src/dimmer.c:69-181 | A round of the loop is one iteration and keeps the invariant |
| DimmerLaws.SettingsOverRun | src/dimmer.c:137-176 | Over every run each gain, each limit and the regulation is what the latest order with its very topic and something in it says, or what it was |
| DimmerLaws.LoadedSettingsOverRun | src/dimmer.c:183-276 | From the start that means the values loaded, and a regulation of 0 |
| DimmerLaws.WatchedOverRun | src/dimmer.c:71-108 | Over every run: the reading is that of the latest 30th iteration, the level the percentage of the delay at the latest 601st, and the fan is on exactly if it was above 50 degrees and never between 36 and 44 since |
| DimmerRuns.EveryRunIsRegulated | src/dimmer.c:69-181 | At every iteration end of every run: shortest delay exactly 100, delay in 100..10000, level a percentage, counters not wrapped, extrapolation within 500 per iteration and 15000 in all |
| DimmerRuns.NtcIntegralIs | src/dimmer.c:47-112 | After every run the NTC integral is exactly the sum of 35 minus the temperature over the iterations between 36 and 44 degrees, the temperature being the one fetched at the latest 30th iteration, 0 before the first |
| DimmerRuns.NtcSumNeverRises | src/dimmer.c:47-54 | That sum never rises from one moment of a run to a later one |
| DimmerRuns.NtcIntegralFalls | src/dimmer.c:47-54 | While the temperature stays in that range the NTC integral falls with every iteration |
| DimmerRuns.RegulateCouples | src/dimmer.c:113-132 | The integral is bounded by how far the delay is from the limit that clears it |
| DimmerRuns.AntiWindup | src/dimmer.c:113-132 | With errors within B the integral stays within T + 9900 B over every run, T being (Kp B + 2 Kd B + 1) / Ki |
| DimmerRuns.ReadingsBoundErrors | src/dimmer.c:113-115 | Readings within S keep every error within S + 18099 |
| DimmerRuns.DefaultsNeverOverflow | src/dimmer.c:200-256 | With the default settings and readings up to 100 kW the integral stays within 32 bits for ever |
| Triac.StepKeeps | src/dimmer.c:9-24 | Crossing, shot, waiting and every write of the loop keep the timing invariant |
| Triac.TriacTiming | src/dimmer.c:9-24 | At every moment the output is low before the delay of the latest crossing is over and high after it; a running timer belongs to that crossing |
| Triac.ArmedDelay | src/dimmer.c:22 | The delay armed is within 100..10000, or between the writes of an iteration off by one correction at most |
| Triac.CrossingArms | src/dimmer.c:14-24 | At every moment of every run a crossing turns the output off and arms the delay held then: that of the last iteration, or that corrected by the answer of the controller, or the latter no less than 100 |
| Triac.HalfCycle | src/dimmer.c:9-24 | After a crossing between iterations the output goes on once, exactly when the delay of the last iteration is over, whatever the loop writes meanwhile |
| Triac.StartsOff | src/dimmer.c:265-272 | Before the first correction every crossing arms 10000, and the output is on no earlier |
| Triac.NegativeDelayIff | src/dimmer.c:113-132 | For all gains that are not negative, the proportional or the integral one being positive, and all limits in either order: some run of loop, timer and crossings that leaves the settings alone comes to a crossing that arms a negative delay, exactly if one of the limits is under -100 |
| Triac.PhasesMakeAnIteration | src/dimmer.c:113-136 | The interruptible phases add up to one iteration of the loop |
| Medidor.Checksum | src/medidor.c:5-17 | True exactly when the 21 bytes after the header sum to the last one modulo 256 |
| Medidor.OnePosition | src/medidor.c:78-90 | The bytes received determine the position |
| Medidor.FindHeader | src/medidor.c:78-90 | The first header pair among the received bytes, -1 if it begins at 48 or later, 0 if there is none |
| Medidor.Read | src/medidor.c:78-108 | Succeeds exactly when that position is not -1 and the frame there passes, with its six registers |
| Medidor.FrameRoundTrip | src/medidor.c:103-108 | An encoded frame passes and decodes to the registers encoded |
| Medidor.WindowSyncs | src/medidor.c:78-108 | In a window cut anywhere from a stream of valid frames without false headers, the first header is that of the first whole frame, which passes and decodes |
| Medidor.ReadWindow | src/medidor.c:53-108 | On such a window the read returns the registers of that frame |
| Medidor.OneWrongByteFails | src/medidor.c:5-17 | Changing any one of the 21 summed bytes of a right frame makes the checksum fail |
| Medidor.VerdictOnReceivedBytes | src/medidor.c:78-97 | For every buffer and number of received bytes, these alone determine what the whole read returns, exactly if the first header pair among them begins at 48 or later or its frame ends within them, and, without a pair, a frame fits and the last byte cannot begin a header, or comes at 48 or later while the frame at 0 is refused |
| Medidor.HeaderlessReadSucceeds | src/medidor.c:78-97 | A read of 64 zeros, with no header in it, succeeds |
| Medidor.LateHeaderUndecided | src/medidor.c:82-97 | The result of a read whose first header begins at 41 depends on bytes that were not received |
| Medidor.LastByteUndecided | src/medidor.c:80 | A read whose last byte can begin a header succeeds or fails on the byte behind it alone |

## Left out

- XRead.XrRead: callbacks are collected in a sequence instead of being called one by one; `Kostal.XmlHandler.Read` hands them to the handler in order.
- Kostal.XmlHandler.Read: names of 32 bytes and more, and Value, Unit or Type values of 24 and more, which C would copy past its buffers, are excluded.
- MsgQueue.Ring.Send: payloads of exactly 512 and topics of exactly 128 characters are accepted as the code does, without the NUL that C writes behind them; failed allocations are not modelled.
- Pid.PidInc.Run: gains are reals and sums unbounded, so rounding of floats and 32-bit overflow are not modelled.
- Triac.TriacTiming: the timer is taken to fire exactly on time, and nothing is said of negative delays, whose conversion to 64 unsigned bits is up to `esp_timer`.
- MsgSystem.EveryLetterInOnePlace: a send that waits for room is a send made once there is room, and any send may find the queue full; how long a send may wait is not modelled.
- Medidor.Read: the quotients of the registers are floats and not modelled.
- DimmerTask.Task.Round: the level is not put on the ring here, and several dimmer tasks, which a repeated `dimmer_init` would start, are not modelled.
- Drivers, NVS, HTTP, MQTT, JSON, GPIO setup, LEDs, OTA, web pages and task creation.
- `queue_receive_instat`, `queue_load`, `queue_reset`: not called anywhere.
- `PID_Loc`: not called anywhere.
- `src/hlw8032.c`, `src/led_strip_encoder.c`, `old/dimmer.c`: unused, foreign, or the same algorithm again.
- The fixed skip of 38 bytes in `Kostal_requests`: the model starts at the string handed to `xr_read`.
