# ESP8266 wifi-probe stack: a verified model

A Dafny model of the wifi-probe stack: the kernel SPI driver for the ESP8266, the interrupt hand-off
between that driver and its waiting threads, the HAL port that builds messages and polls the interrupt,
and the pin sequencing and probing around them. `dafny verify dfyconfig.toml` checks everything.

| file | contents |
|---|---|
| `Layout.dfy` | byte layout of header, frame and message; C strings |
| `Framing.dfy` | the fragment encoder over every legal length, and a reference receiver that inverts it |
| `Wire.dfy` | what one send puts on the bus, the reply, whole sessions |
| `BusBytes.dfy` | the same in plain numbers: every byte, transfer, wait and retry of each kind of send |
| `Delivery.dfy` | what the slave can recover from the frames that are put out and from those that arrive |
| `Monitor.dfy` | an observer of the command thread that knows neither messages nor slave |
| `Grammar.dfy` | the converse: every trace the observer accepts is a session of the driver, every unbroken one part of one |
| `EspDriver.dfy` | `esp_spi_sync`, `esp_spi_write`, `esp_spi_read`, `esp_spi_send` over byte arrays |
| `Decimal.dfy`, `WifiProbePort.dfy` | decimal payloads and the HAL methods |
| `Eint.dfy`, `EintGlobals.dfy` | the interrupt protocol as interleaved steps, and its globals updated in place |
| `Pollers.dfy` | the polling workers and `destroyThread` |
| `Pins.dfy` | the lookup of the pin states, and OPEN and CLOSE, one pin change at a time |
| `Probe.dfy` | any sequence of `esp_probe` attempts, and `esp_open` |
| `ProbeLine.dfy` | the probe and the interrupt line together |
| `Options.dfy` | a value that may be missing |

How the parts fit. Every class that models globals keeps its history as ghost state, and its invariant
says that the fields are where that history leads: `EspDevice` a bus trace equal to
`Session(sent, slave, 0)`, `Line` a run of the interrupt model, `PollGlobals` a run of the polling model,
`SecurityIc` a list of ioctls, `EspModule` a list of probe attempts. So every
lemma about sessions and runs holds for the object in every state, and for `Line` also conversely: every
clean run is the history of some line (`Replay`). The slave is a pair of arbitrary functions (which
transfers succeed, which byte is shifted out when). The command thread of the interrupt model is any
thread that the observer of `Monitor.dfy` follows. The observer ends idle on exactly the sessions of the
driver (`SessionsAreExactlyTheAcceptedTraces`) and stays unbroken on exactly their beginnings
(`UnbrokenTracesArePartsOfSessions`), and both directions hold between observer and runs
(`CommandIsPartOfSession`, `ObservedIsRun`), so the interleaving results are about this driver and nothing
narrower or wider. `ProbeLine.dfy` makes every `enable_irq` of a probe attempt an event of the line.

Assumptions. Structures are laid out little-endian without padding. `header.len` is at most 2048; for an
upgrade the low 16 bits of the length are at most 2048 and the vector is at least that long. Allocations
and copies from and to user space succeed. A failed SPI transfer leaves the receive buffer as it was.
`enable_irq` at depth 0 leaves the depth at 0. One thread issues commands (the HAL's thread pool has one
thread), any number of others only wait for the interrupt.

Results where the code falls short of what one would expect, each with the exact condition and with
inputs that show the failure:

* A wake-up can be lost. Inside one wait of a lone poller it cannot (`OneWaitLosesNothing`), but
  `esp_wait_spi_eint` first clears a flag that another waiter has not seen (`TwoPollersLoseAWakeUp`), or
  that was set since this poller's last wait (`PollerErasesItsOwnWakeUp`). A wake-up survives exactly
  as long as no poller starts a wait (`WakeUpKeptIff`).
* The command thread has the same gap: an answer handled after the write and before the clear of the
  timed wait is erased (`CommandErasesItsOwnAnswer`); the wait sees an answer if and only if its tasklet
  ran after that clear (`TimedWaitSeesIff`, `TimedWakeUpKeptIff`).
* And it takes a stale answer: an interrupt that arrived before the frame was written can end the wait for
  that frame (`StaleAnswer`). A flag set after the write is due to an interrupt since the write if and only
  if none was unserved at the write or a flag was set in between (`AnswerIsNewIff`, `TimedWaitIsFresh`).
* `esp_init_interrupt` calls `enable_irq` on a line that `request_irq` has already enabled. The disable
  depth stays balanced exactly when no interrupt is in flight at such a call (`BalancedIff`); otherwise
  two interrupts can end in one wake-up (`EarlyEnableLosesAnInterrupt`). Already the first probe can meet
  this, if an interrupt arrives between its two calls; a failed probe leaves the interrupt requested, so
  a later attempt meets a live line.
* A fragmented send leaves `is_eint_timeout` at 1. An interrupt between two sends wakes the pollers if
  and only if the last send did not fragment (`InterruptWakesPollersIff`, `PollersWokenIff`); both cases
  happen after every session (`InterruptAfterSession`).
* The pin setters skip silently when one of their lookups failed, and use a null pin state when an
  earlier one did. `LawfulIff` gives the exact condition for every run: without the SPI states OPEN needs
  pins that happened to be GPIO and a transfer pins that happened to be SPI, which is derived from the pin
  changes. A failed reset or power-down lookup breaks the law by definition, because the law forbids
  selecting a null state; derived is only that exactly then one is selected, already by the probe
  (`NullStateUsedIff`). The law holds for all runs exactly when the first twelve lookups succeeded
  (`LawfulIffAllFound`).
* A probe that fails after its device was listed destroys the device node before removing the list
  entry; unwinding is in reverse order exactly when no attempt fails there (`UnwindingIsReversedIff`,
  carried out by `FailAfterListing`).
* The slave decodes exactly what was sent if and only if every write succeeds and every echo of a data
  read has a length field below 28 (`SessionArrivesIff`). A message that loses its last fragment, or an
  echo that is too long, puts its data in front of the next command (`LostEndTaintsTheNext`,
  `LongEchoTaintsTheNext`, `LongEchoSpoilsACommand`). SUCCESS after the last fragment does not show that
  the upgrade arrived (`SuccessDespiteLoss`, `LostFragmentIff`).
* Commands are not delivered exactly once, even when every write succeeds: they are if and only if every
  short one is acknowledged at its first attempt (`DeliveredExactlyOnceIff`); one that never is arrives
  three times (`UnacknowledgedArrivesThrice`).
* A data read whose last read fails echoes a cleared frame, which is the command for an empty upgrade
  (`FailedDataReadSendsAnUpgrade`).
* Stopping the pollers is undone for every worker that a restart overtakes, and for no other
  (`RestartRevivesIff`, `RestartRevivesAWorker`).

## Model

| member | source | states |
|---|---|---|
| Framing.FragmentFields | security_ic/ESP8266/esp_common.c:349-362 | fragment i has the message's result and id, length 28 before the last and len % 28 in the last, carries payload bytes 28i onward, stays inside `para`, and is zero behind its data |
| Framing.FragmentLengthsAddUp | security_ic/ESP8266/esp_common.c:349-358 | the lengths of the len/28 + 1 fragments add up to len, and every proper prefix of n fragments carries 28n bytes |
| Framing.ShortMessageIsItsOwnFrame | security_ic/ESP8266/esp_common.c:322-326 | for len < 28 and a clean tail the encoder yields exactly the raw first 32 bytes that the short branch copies |
| Framing.ReceiveStream | security_ic/ESP8266/esp_common.c:347-378 | collecting data until a frame shorter than 28 recovers every list of messages from its concatenated frames |
| Framing.StreamIsUniquelyDecodable | security_ic/ESP8266/esp_common.c:347-378 | two lists of messages share a frame stream if and only if they carry the same commands |
| Framing.CommandDeterminesMessage | hardware/interfaces/wifi_probe/1.0/default/WifiProbePort.cpp:121-124 | a message cleared before filling is determined by result, id and payload, so decoding loses nothing |
| Wire.Attempts | security_ic/ESP8266/esp_common.c:298-315 | one to three reads, every read but the last without SUCCESS, fewer than three only if the last brought SUCCESS |
| Wire.AttemptsUnique | security_ic/ESP8266/esp_common.c:324-345 | that contract determines the number of attempts: the first SUCCESS, or three |
| BusBytes.MessageInBytes | security_ic/ESP8266/esp_common.h:50-68 | a message is 2052 bytes: result, id, length with the low byte first and at most 2048, payload; 0xaa makes a data read, a length below 28 a short send |
| BusBytes.RequestInBytes | hardware/interfaces/wifi_probe/1.0/default/WifiProbePort.cpp:120-124 | the bytes of a request: result, id, length, payload, zeros up to 2052 |
| BusBytes.SessionInFormat | security_ic/ESP8266/esp_common.c:244-277 | in every session each write is 34 bytes behind 02 00, each read 36 bytes behind 03 00 with zeros, each wait 200 or 500 ticks |
| BusBytes.DataReadInBytes | security_ic/ESP8266/esp_common.c:296-320 | byte by byte: selector 0, one to three reads up to the first 0x55, the last frame written back and returned |
| BusBytes.ShortInBytes | security_ic/ESP8266/esp_common.c:322-346 | byte by byte: selector 1, one to three rounds of the raw 32 bytes with a wait of 200 ticks, selector 0, the last frame returned |
| BusBytes.FragmentedInBytes | security_ic/ESP8266/esp_common.c:347-378 | byte by byte: selector 1, len / 28 + 1 rounds with a wait of 500 ticks, the last frame returned |
| BusBytes.ThirdAttemptDecides | security_ic/ESP8266/esp_common.c:324-345 | if the reads of the first two attempts lack 0x55 there are exactly three writes, and the verdict is that of the third read |
| BusBytes.ThirdReadDecides | security_ic/ESP8266/esp_common.c:298-315 | the same for the three reads of a data read |
| Wire.VerdictIsFresh | security_ic/ESP8266/esp_common.c:328-345 | the returned result byte is SUCCESS if and only if the slave shifted SUCCESS in during this very call: in any read of a retried send, in the read after the last fragment otherwise; failed transfers never leave a stale success |
| Wire.ReplyIsTheLastRead | security_ic/ESP8266/esp_common.c:380 | the message handed back is the frame of the last read of the same send followed by zeros |
| Wire.ReplyStringIsBounded | security_ic/ESP8266/esp_common.c:292-301 | for every slave the reply is zero from payload byte 28 on, so its C string ends inside the message within 28 characters |
| Wire.DataReadEcho | security_ic/ESP8266/esp_common.c:316-320 | a data read ends by writing back the last response read, which is also the head of the reply, whether or not it succeeded |
| Delivery.FrameRoundTrip | security_ic/ESP8266/esp_common.c:244-277 | dropping the two command bytes of a write gives the frame back, and a frame placed at offset 2 of a read is recovered whole |
| Delivery.BothBranchesEncode | security_ic/ESP8266/esp_common.c:321-362 | with a clean tail, each attempt of the short branch and the fragmenting branch write frames of one and the same encoder |
| Delivery.SessionDecodesIff | security_ic/ESP8266/esp_common.c:296-379 | whatever the slave answers, the frames put out for any list of messages decode to what the sends spell, in order (a short command once per attempt, a data read as its echo), if and only if every echoed frame has a length field below 28 |
| Delivery.FragmentedSessionDecodes | security_ic/ESP8266/esp_common.c:347-378 | with fragmented sends alone the frame stream decodes to exactly the list of messages |
| Delivery.SessionArrivesIff | security_ic/ESP8266/esp_common.c:279-383 | for every session and slave, the frames that really arrive decode to what was sent if and only if every write transfer succeeds and every echo is short |
| Delivery.BytesArriveIff | security_ic/ESP8266/esp_common.c:244-277 | the same for a slave that sees only the bytes of whole transfers and recognises a write by its first byte |
| Delivery.DeliveredExactlyOnceIff | security_ic/ESP8266/esp_common.c:321-346 | when every write of a session of commands succeeds, the slave decodes exactly the list of commands, each once, if and only if every short one is acknowledged at its first attempt |
| Delivery.UnacknowledgedArrivesThrice | security_ic/ESP8266/esp_common.c:324-345 | a short command whose writes all succeed and whose reads never bring SUCCESS is decoded three times |
| Delivery.LostEndTaintsTheNext | security_ic/ESP8266/esp_common.c:352-377 | if only the last fragment is lost, the data of the others lands in front of the first command decoded from the rest of the session, whatever follows |
| Delivery.LongEchoTaintsTheNext | security_ic/ESP8266/esp_common.c:316-320 | an echo with a length field of 28 or more lands in front of the next command in the same way |
| Delivery.LongEchoSpoilsACommand | security_ic/ESP8266/esp_common.c:316-320 | a data read and a search command, all writes successful, that the slave does not decode |
| Delivery.LostFragmentIff | security_ic/ESP8266/esp_common.c:352-377 | a fragmented message reaches a fresh slave whole if and only if every one of its writes succeeds |
| Delivery.SuccessDespiteLoss | security_ic/ESP8266/esp_common.c:370-377 | a lost fragment whose message is nevertheless answered with SUCCESS |
| Wire.SessionAppend | security_ic/ESP8266/esp_common.c:279-383 | a session extended by a message is the old trace followed by that send, started at the next transfer |
| Monitor.SendIsObserved | security_ic/ESP8266/esp_common.c:296-379 | every send obeys the wire grammar, the retry rule and the selector discipline, and leaves the selector at 1 exactly when it fragmented |
| Monitor.SelectorDiscipline | security_ic/ESP8266/esp_common.c:297-371 | in every session the selector is 1 at every timed wait and the read behind it, and 0 at every read of a data read |
| Grammar.SessionsAreExactlyTheAcceptedTraces | security_ic/ESP8266/esp_common.c:279-383 | a list of bus operations comes from some messages sent to some slave if and only if the observer accepts it |
| Grammar.UnbrokenTracesArePartsOfSessions | security_ic/ESP8266/esp_common.c:279-383 | a list of bus operations can be continued to a session of the driver if and only if the observer has not refused it |
| Grammar.ParseSend | security_ic/ESP8266/esp_common.c:296-379 | the head of every accepted trace is one whole send of some message |
| Grammar.ChainIsEncoding | security_ic/ESP8266/esp_common.c:349-362 | every well-formed chain of at least two fragments is the encoding of a message |
| EspDriver.EspDevice.EspSpiSync | security_ic/ESP8266/esp_common.c:213-241 | one transfer; a successful one fills the receive buffer with what the slave shifts out, a failed one leaves it |
| EspDriver.EspDevice.EspSpiWrite | security_ic/ESP8266/esp_common.c:244-263 | one transfer of the bytes 02 00 and the frame |
| EspDriver.EspDevice.EspSpiRead | security_ic/ESP8266/esp_common.c:265-277 | one transfer of 03 00 and 34 zeros; the answer is in the caller's buffer if it succeeds |
| EspDriver.EspDevice.SendDataRead | security_ic/ESP8266/esp_common.c:296-320 | the loop performs exactly the specified reads, echo and reply, with the selector at 0 |
| EspDriver.EspDevice.SendShort | security_ic/ESP8266/esp_common.c:322-346 | the retry loop performs exactly the specified rounds and reply, and drops the selector |
| EspDriver.FillFragment | security_ic/ESP8266/esp_common.c:353-362 | the buffer ends up holding fragment i of the encoded message |
| EspDriver.EspDevice.SendFragments | security_ic/ESP8266/esp_common.c:347-378 | the loop performs one round per fragment of the encoded message and leaves the selector at 1 |
| EspDriver.EspDevice.EspSpiSend | security_ic/ESP8266/esp_common.c:279-383 | in place: the message becomes the reply, the trace grows by this send, and the device invariant is kept |
| Decimal.RoundTrip | hardware/interfaces/wifi_probe/1.0/default/WifiProbePort.cpp:142 | printing an integer in decimal and reading it back is the identity |
| Decimal.TextInCharacters | hardware/interfaces/wifi_probe/1.0/default/WifiProbePort.cpp:142 | a hyphen for negative numbers, then digits between 48 and 57, the last one the value modulo ten behind the text of the quotient |
| Decimal.TextLength | hardware/interfaces/wifi_probe/1.0/default/WifiProbePort.cpp:142-143 | an int32 prints in 1 to 11 characters, 11 exactly for negative ten-digit numbers |
| WifiProbePort.NumberOnTheWire | hardware/interfaces/wifi_probe/1.0/default/WifiProbePort.cpp:134-151 | each of the one to three frames of a number command decodes to the command, holds the whole text with its terminator, and reads back as the number |
| WifiProbePort.FailedDataReadSendsAnUpgrade | security_ic/ESP8266/esp_common.c:298-320 | when the last read of a data read fails and the echo goes through, the slave decodes the command that an empty firmware upgrade sends |
| WifiProbePort.Port.Submit | hardware/interfaces/wifi_probe/1.0/default/WifiProbePort.cpp:72-76 | the verdict is 0 if and only if the slave acknowledged during this call |
| WifiProbePort.Port.Search | hardware/interfaces/wifi_probe/1.0/default/WifiProbePort.cpp:61-96 | every write of the call is 02 00 00, the id 5 or 6, and zeros; 0 if and only if a read of this call brought SUCCESS; without a device -1 |
| WifiProbePort.Port.StartFirmwareUpgrade | hardware/interfaces/wifi_probe/1.0/default/WifiProbePort.cpp:115-132 | as many bytes are sent as the low 16 bits of the length say, in one transfer with id 0 or in chunks of 28; 0 if and only if acknowledged after the last fragment (28 bytes or more) or in any attempt (fewer); -1 without a device, for any arguments |
| WifiProbePort.Port.SetRate | hardware/interfaces/wifi_probe/1.0/default/WifiProbePort.cpp:134-151 | every write of the call carries id 1 and the decimal text in one transfer; 0 if and only if a read of this call brought SUCCESS |
| WifiProbePort.Port.SetFirmwareSize | hardware/interfaces/wifi_probe/1.0/default/WifiProbePort.cpp:226-243 | the same with id 4 |
| WifiProbePort.Port.SetFirmwareDone | hardware/interfaces/wifi_probe/1.0/default/WifiProbePort.cpp:245-262 | the same with id 7 |
| WifiProbePort.TextOnTheBus | hardware/interfaces/wifi_probe/1.0/default/WifiProbePort.cpp:61-151 | every write of a text command is 02 00 00, id, length, 00, text, zeros |
| WifiProbePort.ChunksOnTheBus | hardware/interfaces/wifi_probe/1.0/default/WifiProbePort.cpp:115-132 | a longer payload goes out as chunks of 28 bytes and a shorter last one, each in such a transfer |
| WifiProbePort.Port.GetVersion | hardware/interfaces/wifi_probe/1.0/default/WifiProbePort.cpp:98-113 | one request with id 3; the text is that before the first zero in bytes 6 to 33 of the last answer of this call, empty if that transfer failed; no callback without a device |
| WifiProbePort.Port.GetData | hardware/interfaces/wifi_probe/1.0/default/WifiProbePort.cpp:153-177 | state is byte 2 of the last answer of this call; kind is "version" for 13 in byte 3, "transfer_done" for 12, otherwise "transfer"; the text is in bytes 6 to 33; state 0, "transfer" and no text if the transfer failed |
| Eint.BalancedIff | security_ic/ESP8266/esp_common.c:152-190 | in every state of a run the disable depth is 0 or 1 and equals the interrupts in flight, if and only if no probe-time `enable_irq` meets one |
| Eint.EarlyEnableLosesAnInterrupt | security_ic/ESP8266/esp_common.c:168-190 | a run in which that call meets an interrupt, the line loses its balance and a schedule is swallowed |
| Eint.NothingCoalesces | security_ic/ESP8266/esp_common.c:168-179 | in such runs the tasklets are never both active and no schedule is swallowed |
| Eint.SelectorInEveryState | security_ic/ESP8266/esp_common.c:297-348 | under every interleaving the selector is 1 during a timed wait, 0 during a data read, and otherwise what the last send left |
| Eint.CommandIsObserved | security_ic/ESP8266/esp_common.c:279-383 | the command thread of a run does what the observer follows |
| Eint.CommandIsPartOfSession | security_ic/ESP8266/esp_common.c:279-383 | at every moment of every run, what the command thread has done can be continued to a session of the driver |
| Eint.ObservedIsRun | security_ic/ESP8266/esp_common.c:279-383 | every trace the observer accepts is the command thread of some run, even of one without interrupts and pollers |
| Eint.WaitIsSound | security_ic/ESP8266/esp_common.c:195-202 | for any number of pollers, a return without a signal means a data tasklet ran inside this very wait |
| Eint.TimedWaitIsSound | security_ic/ESP8266/esp_common.c:204-211 | a timed wait that ends neither by timeout nor by signal saw a timeout tasklet after its own clear |
| Eint.WakeUpKeptIff | security_ic/ESP8266/esp_common.c:152-158 | a wake-up stays visible if and only if no poller starts a wait in between |
| Eint.OneWaitLosesNothing | security_ic/ESP8266/esp_common.c:195-202 | inside one wait of a lone poller the condition stays true from the tasklet until the poller leaves |
| Eint.WaitSeesIff | security_ic/ESP8266/esp_common.c:195-202 | a wait condition holds if and only if a data tasklet ran after the clear, while no other poller clears |
| Eint.TimedWakeUpKeptIff | security_ic/ESP8266/esp_common.c:160-211 | the flag of the timed wait stays up if and only if the command thread does not clear it in between |
| Eint.TimedWaitSeesIff | security_ic/ESP8266/esp_common.c:204-211 | a timed wait sees an answer if and only if the timeout tasklet ran after the clear of this wait |
| Eint.TwoPollersLoseAWakeUp | security_ic/ESP8266/esp_common.c:195-202 | a run of two pollers that ends with both asleep after an interrupt was handled |
| Eint.PollerErasesItsOwnWakeUp | hardware/interfaces/wifi_probe/1.0/default/WifiProbePort.cpp:193-204 | any run can go on with an interrupt handled between two waits of a poller, which then sleeps with no flag and nothing in flight |
| Eint.CommandErasesItsOwnAnswer | security_ic/ESP8266/esp_common.c:327-328 | at every exchange of any run an answer handled between the write and the clear leaves the timed wait with no flag and nothing in flight |
| Eint.AnswerIsNewIff | security_ic/ESP8266/esp_common.c:152-179 | from any moment on, a flag is set by an interrupt that arrived since then if and only if none was unserved at that moment or a flag was set in between |
| Eint.TimedWaitIsFresh | security_ic/ESP8266/esp_common.c:327-328 | a wait woken after a write that found no interrupt unserved was woken by one that arrived after the write |
| Eint.StaleAnswer | security_ic/ESP8266/esp_common.c:327-328 | at every exchange of any run an interrupt whose top half ran before the write can end the wait for its answer |
| Eint.FlagFollowsItsTopHalf | security_ic/ESP8266/esp_common.c:152-179 | every flag assignment belongs to the latest top half and is the one the selector chose then |
| Eint.TopHalfIsAnswered | security_ic/ESP8266/esp_common.c:152-179 | between two top halves the flag chosen by the first is set |
| Eint.InterruptWakesPollersIff | security_ic/ESP8266/esp_common.c:168-179 | an interrupt sets the pollers' flag if and only if the selector was not 1 at its top half; between sends, if and only if the last send did not leave it at 1 |
| Eint.PollersWokenIff | security_ic/ESP8266/esp_common.c:296-379 | an interrupt after a session wakes the pollers if and only if the last send of that session did not fragment |
| Eint.InterruptAfterSession | security_ic/ESP8266/esp_common.c:346-378 | after every session some run has a poller begin to wait and an interrupt handled, and ends with its condition true or with it asleep according to the last send |
| Eint.FragmentedSendStarvesPollers | security_ic/ESP8266/esp_common.c:346-378 | after a fragmented send no wait begun before the next clearing of the selector ends without a signal |
| Eint.ServeInterrupt | security_ic/ESP8266/esp_common.c:152-179 | an interrupt served without interference sets the selected flag and leaves everything else, the line included, as it was |
| EintGlobals.Line.EspInitInterruptEnable | security_ic/ESP8266/esp_common.c:190 | the object stays the end of a clean run, and unchanged, if and only if no interrupt is in flight |
| EintGlobals.Line.RequestInterruptDisable | security_ic/ESP8266/esp_common.c:171 | runs only with nothing in flight; afterwards one interrupt is, and the depth is 1 |
| EintGlobals.Line.RequestInterruptChoose | security_ic/ESP8266/esp_common.c:172-174 | the branch is the timeout tasklet exactly for a selector of 1: during every timed wait, during no data read, and between sends as the last one left it |
| EintGlobals.Line.RequestInterruptSchedule | security_ic/ESP8266/esp_common.c:173-175 | both tasklets were idle; exactly the chosen one becomes pending |
| EintGlobals.Line.EspSpiEintHandlerFlag | security_ic/ESP8266/esp_common.c:152-156 | `flag_irq` is raised on behalf of the latest top half, which read a selector other than 1 |
| EintGlobals.Line.EspSpiEintHandlerTimeoutFlag | security_ic/ESP8266/esp_common.c:160-164 | `flag_irq_timeout` is raised on behalf of the latest top half, which read a selector of 1 |
| EintGlobals.Line.EspSpiEintHandlerEnable | security_ic/ESP8266/esp_common.c:157-165 | the depth returns from 1 to 0 with nothing in flight |
| EintGlobals.Line.HandleInterrupt | security_ic/ESP8266/esp_common.c:152-179 | one interrupt from top half to `enable_irq`: the flag picked by the selector goes up and every other field is as before |
| EintGlobals.Line.EspWaitSpiEintCheck | security_ic/ESP8266/esp_common.c:199 | the wait ends if and only if the flag is set or a signal is pending; without a signal a data tasklet ran inside this wait, and if it goes on, none has run since the last clear |
| EintGlobals.Line.EspWaitSpiEintTimeoutClear | security_ic/ESP8266/esp_common.c:207 | the timed wait begins with its flag down and the selector at 1 |
| EintGlobals.Line.EspWaitSpiEintTimeoutCheck | security_ic/ESP8266/esp_common.c:208 | the timed wait ends if and only if the flag is set, time is up or a signal is pending; otherwise than by the last two only if a timeout tasklet ran after its clear |
| EintGlobals.Line.AssignSelector | security_ic/ESP8266/esp_common.c:346-348 | the command thread only ever assigns 0 or 1 to `is_eint_timeout` |
| EintGlobals.Line.EspWaitSpiEintInterrupted | security_ic/ESP8266/esp_common.c:199 | a signal noticed after the condition was found false ends the wait, whatever the flag has become |
| EintGlobals.Line.EspWaitSpiEintTimeoutGivesUp | security_ic/ESP8266/esp_common.c:208 | the same for a signal or the end of time in the timed wait |
| EintGlobals.Line.AnsweredExchange | security_ic/ESP8266/esp_common.c:327-330 | write, clear, interrupt, check, read: the interrupt ends the wait, nothing stays in flight |
| EintGlobals.Line.ErasedAnswer | security_ic/ESP8266/esp_common.c:327-328 | with the interrupt served between write and clear the check fails: the flag is down and nothing is in flight |
| EintGlobals.Line.AcknowledgedCommand | security_ic/ESP8266/esp_common.c:322-346 | a short command acknowledged at once, from selector to selector: its five operations, and the selector back at 0 |
| EintGlobals.Line.Perform | security_ic/ESP8266/esp_common.c:152-211 | every enabled event of the model that is no early enable is a step of some method |
| EintGlobals.Replay | security_ic/ESP8266/esp_common.c:152-211 | every clean run is the history of some line |
| Pollers.CallbacksAfterStop | hardware/interfaces/wifi_probe/1.0/default/WifiProbePort.cpp:179-217 | once the flag is up and no start follows, callbacks still delivered are at most the workers past their loop test, and worker steps are bounded by a measure; exact while a callback stays set |
| Pollers.StopStopsEveryone | hardware/interfaces/wifi_probe/1.0/default/WifiProbePort.cpp:188-206 | when no worker can move any more all have exited, after exactly the measure's number of steps |
| Pollers.StepAfterStop | hardware/interfaces/wifi_probe/1.0/default/WifiProbePort.cpp:193-204 | each worker step uses up one unit of the measure, other steps none |
| Pollers.RestartRevivesIff | hardware/interfaces/wifi_probe/1.0/default/WifiProbePort.cpp:208-217 | after any events, a worker's next loop test ends it if and only if the handler ran and no start came after it (or the flag was up and no start came) |
| Pollers.RestartRevivesAWorker | hardware/interfaces/wifi_probe/1.0/default/WifiProbePort.cpp:208-217 | a run in which a stopped worker reads on beside the one of a restart |
| Pollers.GlobalsTellHistory | hardware/interfaces/wifi_probe/1.0/default/WifiProbePort.cpp:179-224 | after any run there is one worker per start, the callback is that of the latest call, and the callbacks delivered are the reports made while one was set |
| Pollers.PollGlobals.GetEint | hardware/interfaces/wifi_probe/1.0/default/WifiProbePort.cpp:208-224 | a start lifts every stop made so far; a stop by itself, before the handler runs, stops no worker and delivers nothing |
| Pollers.PollGlobals.Sighandler | hardware/interfaces/wifi_probe/1.0/default/WifiProbePort.cpp:179-186 | the stop is in force, and however the run goes on without a start, callbacks and worker steps stay within the workers' bounds |
| Pollers.PollGlobals.LoopTest | hardware/interfaces/wifi_probe/1.0/default/WifiProbePort.cpp:193 | the worker returns if and only if a stop is in force: the handler ran and no start came after it |
| Pollers.PollGlobals.ReportResults | hardware/interfaces/wifi_probe/1.0/default/WifiProbePort.cpp:201-203 | a callback is delivered if and only if the latest start or stop left one; one worker fewer is in flight |
| Pollers.PollGlobals.ThreadStart | hardware/interfaces/wifi_probe/1.0/default/WifiProbePort.cpp:188-206 | the loop of one worker whose handler runs during its k-th read, counted from 0, delivers exactly k + 1 callbacks and exits |
| Pins.EveryRunIsLawful | security_ic/ESP8266/esp_common.c:526-540 | with the reset, power-down and SPI states found, over every list of ioctls and any initial pins: reset rises only with power-down high and all SPI pins as GPIO, pins leave SPI mode only in reset, transfers see all four pins in SPI mode, and power-down equals reset after an OPEN or CLOSE |
| Pins.OpenInMoments | security_ic/ESP8266/esp_common.c:526-534 | OPEN as eleven pin changes in order: power-down high, reset low, four pins to GPIO, reset high, four pins to SPI; three of them without the SPI states |
| Pins.CloseInMoments | security_ic/ESP8266/esp_common.c:535-540 | CLOSE lowers power-down, and only then reset |
| Pins.LawfulIff | security_ic/security_se.c:50-222 | for every first failing lookup, initial pins and run: lawful if and only if all states were found, or only an SPI lookup failed and the initial pins happen to suit the run's OPENs and transfers; the use of a null state is unlawful by definition |
| Pins.NullStateUsedIff | security_ic/security_se.c:50-222 | in any run a pin state that was never looked up is selected if and only if a reset or power-down lookup failed or none was made, and then already by the probe |
| Pins.LawfulIffAllFound | security_ic/security_se.c:153-222 | the law holds for all runs if and only if every reset, power-down and SPI state was found |
| Pins.SecurityIc.GetGpioInfo | security_ic/security_se.c:50-121 | the lookups before the first failure are made, that one is an error pointer, the later ones stay null |
| Pins.SecurityIc.SetReset | security_ic/security_se.c:153-170 | -1 and no change exactly when one of its own two lookups failed; otherwise the log grows by the reset change, or by a fault when an earlier lookup failed |
| Pins.SecurityIc.SetDown | security_ic/security_se.c:172-189 | the same for power-down |
| Pins.SecurityIc.SetSpiMode | security_ic/security_se.c:197-222 | the same for the four pins, changed in the order clock, chip select, input, output |
| Pins.SecurityIc.Open | security_ic/ESP8266/esp_common.c:526-534 | the object stays the end of a run; with all states found the log grows by those eleven changes, the whole history is lawful, and the chip is up with its pins in SPI mode |
| Pins.SecurityIc.Close | security_ic/ESP8266/esp_common.c:535-540 | the object stays the end of a run; the log grows by power-down low and then reset low, and with all states found the whole history is lawful |
| Probe.EspModule.EspProbe | security_ic/ESP8266/esp_common.c:715-875 | 0 exactly when the attempt brings the module up; -1 and no change after an earlier success; otherwise the code of the first call that failed; device, list, interrupt, number and every acquisition and release are those of the attempt |
| Probe.StatusIsFirstFailure | security_ic/ESP8266/esp_common.c:720-831 | the status is 0 or the code of the first failing call in the order of the source: -12, -12, -19, the code of the number, -19, -19, the code of cdev_add |
| Probe.ActsOfAttempt | security_ic/ESP8266/esp_common.c:731-870 | every acquisition and release of an attempt, written out for each place where it can end |
| Probe.EspModule.RegisterDevice | security_ic/ESP8266/esp_common.c:781-859 | class to device number with their unwinding labels, around the listing of the device |
| Probe.EspModule.EspInitInterrupt | security_ic/ESP8266/esp_common.c:181-193 | a request is granted if and only if the kernel agrees and none was granted before; a second one is refused with -EBUSY; `enable_irq` is called in any case |
| Probe.EspModule.EspOpen | security_ic/ESP8266/esp_common.c:658-682 | after any attempts: 0 if and only if one of them succeeded and the kernel handed out this very number in it, and then it yields that device; otherwise -6 |
| Probe.AnyProbeRun | security_ic/ESP8266/esp_common.c:715-875 | for every sequence of attempts: up if and only if some attempt could succeed, exactly that device listed and held under the number handed out, otherwise nothing; the interrupt stays requested once granted |
| Probe.OnlyEffectiveAttemptsCount | security_ic/ESP8266/esp_common.c:720-724 | attempts after the first success change nothing |
| Probe.AttemptLeaves | security_ic/ESP8266/esp_common.c:715-870 | read off the acquisitions and releases of one attempt: all nine resources held or none, and releases in reverse order unless it fails after its device was listed |
| Probe.UnwindingIsReversedIff | security_ic/ESP8266/esp_common.c:839-870 | over any attempts, releases are in reverse order of acquisition if and only if no attempt fails after its device was listed |
| Probe.FailAfterListing | security_ic/ESP8266/esp_common.c:808-853 | every such attempt, carried out: out of order, nothing left but the interrupt |
| ProbeLine.EspProbeOnLine | security_ic/ESP8266/esp_common.c:181-193 | the line and the module count the same `enable_irq` calls; the line stays balanced and unchanged if and only if the attempt makes none while an interrupt is in flight |
| ProbeLine.ProbeAttempts | security_ic/ESP8266/esp_common.c:715-875 | any attempts on a quiet line leave it as it was, with one enable for every attempt that requested the interrupt |

## Left out

- EspDriver.EspDevice.EspSpiSend: requires `header.len` at most 2048; the C code does not check it and copies past `para` beyond that, which has no defined result to model.
- WifiProbePort.Port.StartFirmwareUpgrade: requires the low 16 bits of the length to be at most 2048 and the vector at least that long; the C++ code copies beyond either without a check.
- EspDriver.EspDevice.EspWaitSpiEintTimeout: is only an event in the bus trace; its waiting is modelled in `Eint.dfy`.
- Pins.LawfulIff: what the kernel does with a null pin state is not modelled; selecting one counts as a fault, after which the log only serves to show it.
- The lookup of `security_eint_en0`, the thirteenth, matters only to a setter that this driver never calls.
- A probe that gives up waiting for the platform driver and runs beside its lookups: in the model they are over, or were never made, before a pin is touched.
- The value handed to a polling callback: `spi_eint` is never assigned, so it is 0 with a device and -1 without.
- The thread id kept by the HAL and a signal sent to a thread that has already exited: the handler runs at an arbitrary moment in the model.
- Calls before the device node was opened, and the one-line ioctl wrappers and function tables of the HAL library: folded into the call from the HAL to the driver.
- Commands issued by several processes at once: the driver has no lock around a write and the read that follows it.
- Time: delays do nothing, a timed wait may end at any moment. Memory is sequentially consistent, and evaluating a wait condition is one step.
- Interrupt edges that arrive while the line is disabled: the kernel replays them, which in the model is an interrupt arriving at some later moment.
- The kernel SPI master, DMA setup, pin lookup, device tree, logging, clock switching, the debug file, the hrtimer sample code, `esp_remove`, and the unsupported read, write and poll entries.
- The pin muxing that each probe attempt repeats is modelled once, for the successful attempt.
- The talkie and gesturewake services, which repeat the polling pattern over drivers that are not part of this model.
