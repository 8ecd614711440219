# mqomstat: a Dafny model of the Omnistat serial engine

mqomstat bridges HAI Omnistat RC-series thermostats on an RS-485 multidrop
line to MQTT. This project models its core and proves properties of it:

- **Serial channel engine (`src/mqoms.c`, `src/mqoms.h`).** It keeps at most
  one request outstanding on the line.
  - Requests wait in a FIFO send queue.
  - `oms_chan_dispatch` frames the oldest request as
    `[address, length<<4 | command, data…, byte sum]`, writes it, marks it
    outstanding and arms the reply timer.
  - `oms_chan_recv` passes the reply through a byte-at-a-time state machine:
    IDLE, RECV, TYPE, DATA, CKSUM.
  - Each complete reply is classified as bad checksum, NACK, bad address or
    good. The timer is then cancelled and the next request dispatched, and
    only after that does the reply handler run.
  - The handler updates the node from a group-1 reply and reports register
    data value by value.
  - The timeout path, the node table, the message builders and the
    per-minute and per-hour polling loops are modelled as well.
- **Register tables and conversions (`src/omnistat.c`, `src/omnistat.h`).**
  - The wire constants.
  - The per-model register tables (rc8x and rc2000), as functions from
    register address to flags and conversion routines.
  - The integer byte-to-string (`omcs_*`) and string-to-byte (`omcb_*`)
    conversions.
  - The `omcs_regval` dispatch.
- **Helpers.** `g_list_shift` (`src/glib_extra.c`) and `timeval_subtract`.
  The latter is in `src/utils.c`, with identical copies in
  `src/timeval_subtract.c` and `src/mqoms.c`.

Modules, in dependency order:

- `Wrappers`: `Option`, plus one sequence lemma.
- `CText`: the C library the conversions use. This covers `sprintf` with
  `%d`, `%+d`, `%02d` and `%02x`; `atoi`; one `%d` of `sscanf`;
  `strcasecmp`; and C's truncating `/` and `%`.
- `OmnistatWire`: constants, the flag enum and the register-entry record.
- `OmnistatConv`: the conversions.
- `OmnistatRegs`: the tables and `omcs_regval`.
- `GListExtra`: `g_list_shift`.
- `Timeval`: `struct timeval` as a class, and `timeval_subtract` updating
  its arguments in place.
- `OmsTypes`: the records of `mqoms.h`. `OmsMessage` and `OmsNode` are
  classes whose reply side and node fields are updated in place.
- `OmsSpec`: the channel engine as values, used as the specification:
  - a `Core` of the channel fields;
  - `Dispatched`, `Enqueued`, `Cleared`;
  - the receive step `Step` and the whole read `Feed`;
  - the reply handler as a function from a handled reply to the events it
    causes;
  - the requests of the polling loops.
- `OmsChan`: the channel as a class (`struct _OmsChan`). Its methods update
  its fields in place and are proved to agree with `OmsSpec`.

`OmsChan` keeps a ghost trace of what the engine does that can be seen from
outside. It records four kinds of event:

- frames written to the port;
- calls of the reply handler, with the reply as it stood;
- MQTT publications;
- register values reported.

Because it is one ordered trace, "the next frame is written before the
handler runs" is stated as order in that trace.

## Model

| member | source | states |
|---|---|---|
| OmnistatWire.FlagAlgebra | src/omnistat.h:82-89 | RESV is 0, OK is ROK\|WOK and OKG is SV\|OK; each of ROK, WOK and SV is an independent bit of these words |
| OmnistatWire.WireLayout | src/omnistat.h:9-117 | A command byte and up to 15 data bytes fit in an 18-byte packet. The 14-register status block runs from 0x3B to the output-state register 0x48 and holds the current temperature. Command and status codes fit in a nibble. The desync flag is above every address, and broadcast is 0 |
| OmsTypes.CodesDistinct | src/mqoms.h:33-50 | KE_NOERROR is 0 and the nine error codes are pairwise distinct; the six receive states are distinct and IDLE is 0 |
| OmsTypes.Message.constructor | src/mqoms.c:441-445 | a new message (g_new0) has the given id, address and send side, a zeroed 18-byte reply buffer, and zero reply length and status |
| OmsTypes.Node.constructor | src/mqoms.c:89-93 | a new node has the given address and name and all other fields zero |
| GListExtra.Shift | src/glib_extra.c:14-24 | on an empty list: nothing returned and the list unchanged; otherwise the first element is returned and the list becomes its tail, one shorter |
| GListExtra.DrainInOrder | src/glib_extra.c:14-24 | shifting until the list is empty returns its elements in order |
| GListExtra.ShiftAfterAppend | src/glib_extra.c:14-24 | appending then shifting returns the old head (or the new element on an empty list) and keeps FIFO order |
| Timeval.Subtract | src/utils.c:5-27 | fills result, rewrites y and returns the sign flag exactly as the two carry steps and the field-wise difference prescribe; x is unchanged |
| Timeval.SubtractExact | src/timeval_subtract.c:70-85 | result, in microseconds, is x minus the original y |
| Timeval.SubtractKeepsY | src/utils.c:9-18 | the carry steps rewrite y without changing the time it stands for |
| Timeval.SubtractNormalised | src/utils.c:9-23 | with both microsecond fields in [0, 10^6), the result's microsecond field is in [0, 10^6) |
| Timeval.SubtractSign | src/timeval_subtract.c:84-88 | the return value is 0 or 1, and 1 exactly when the result's seconds are negative |
| Timeval.MinuteDelayFires | src/mqoms.c:592-606 | for a time after the epoch, the next minute is a multiple of 60 within the next 60 seconds. The delay is 1 to 60001 ms, and it exceeds the wait until that minute by at most one millisecond |
| OmsChan.MinuteDelay | src/mqoms.c:592-606 | the delay computed in place with timevals and timeval_subtract, and handed to g_timeout_add, is the delay whose bounds MinuteDelayFires proves |
| CText.AtoiDecInt | src/omnistat.c:406-416 | atoi reads back any integer printed with %d |
| CText.AtoiPlusDec | src/omnistat.c:502-516 | atoi reads back any integer printed with %+d |
| CText.ScanPad2 | src/omnistat.c:456-479 | a %d conversion of sscanf reads a two-digit zero-padded field and stops at the next non-digit |
| CText.CRem | src/mqoms.c:592 | C's % takes the sign of the dividend: a = q*d + r with \|r\| < d |
| OmnistatConv.IntRoundTrip | src/omnistat.c:406-416 | omcb_int(omcs_int(b)) == b for every byte |
| OmnistatConv.IntKeepsLowByte | src/omnistat.c:406-412 | for every integer n printed with %d, omcb_int gives n mod 256 |
| OmnistatConv.OmcsPtime | src/omnistat.c:468-479 | "none" exactly for b >= 96; otherwise "HH:MM" with the minutes one of 00, 15, 30, 45 |
| OmnistatConv.TimeText | src/omnistat.c:477 | the %02d:%02d rendering is five characters with a colon in the middle |
| OmnistatConv.PtimeParsed | src/omnistat.c:456-467 | with both fields scanned, omcb_ptime is hour*4 + min/15, with C's division, kept in a byte |
| OmnistatConv.PtimeFields | src/omnistat.c:456-467 | reading back hour h and minute m gives h*4 + m/15 |
| OmnistatConv.QuarterIndex | src/omnistat.c:472-478 | the hour and minute of quarter-hour b recombine to b |
| OmnistatConv.PtimeRoundTrip | src/omnistat.c:456-479 | omcb_ptime(omcs_ptime(b)) is b for b < 96 and 96 otherwise |
| OmnistatConv.PtimeQuarter | src/omnistat.c:456-479 | each quarter-hour before midnight reads back as itself |
| OmnistatConv.PtimeOfFields | src/omnistat.c:456-467 | fields whose quarter-hour index is v parse to v |
| OmnistatConv.OmcbCcal | src/omnistat.c:502-512 | the result is always in 1..59: atoi(s)+30 when that lies in 1..59, 1 below that range and 59 above it |
| OmnistatConv.CcalRoundTrip | src/omnistat.c:502-516 | omcb_ccal(omcs_ccal(b)) == b for every b in 1..59 |
| OmnistatConv.FirstMatch | src/omnistat.c:611-620 | the index of the first name equal to s ignoring case, with no earlier match; the table length if there is none |
| OmnistatConv.SearchByte | src/omnistat.c:611-620 | a matched string gives the index of its first case-insensitive match; an unmatched string gives 0 |
| OmnistatConv.Search | src/omnistat.c:611-620 | the linear-search loop returns the first case-insensitive match, or 0 |
| OmnistatConv.OmcbMode | src/omnistat.c:611-620 | omcb_mode is the search over the five mode names |
| OmnistatConv.OmcbFanm | src/omnistat.c:644-653 | omcb_fanm is the search over the two fan names |
| OmnistatConv.ModeNamesDistinct | src/omnistat.c:608 | no two mode names are equal ignoring case |
| OmnistatConv.FanNamesDistinct | src/omnistat.c:643 | the two fan names differ ignoring case |
| OmnistatConv.SearchRoundTrip | src/omnistat.c:611-628 | over a table of case-distinct names, searching for name b returns b |
| OmnistatConv.ModeRoundTrip | src/omnistat.c:611-628 | omcb_mode(omcs_mode(b)) == b for b < 5 |
| OmnistatConv.FanRoundTrip | src/omnistat.c:644-661 | omcb_fanm(omcs_fanm(b)) == b for b < 2 |
| OmnistatConv.ModeFallback | src/omnistat.c:622-628 | omcs_mode yields a mode name exactly for b < 5; the "mode b?" rendering of other bytes parses back to 0 |
| OmnistatConv.FanFallback | src/omnistat.c:655-661 | omcs_fanm yields a fan name exactly for b < 2; the "fan mode b?" rendering parses back to 0 |
| OmnistatConv.DayFallback | src/omnistat.c:631-640 | omcs_day yields a weekday name exactly for b < 7, with 0 being Monday and 6 Sunday |
| OmnistatConv.SearchIgnoresCase | src/omnistat.c:611-620 | strings equal after lower-casing search to the same byte |
| OmnistatConv.OmcbHold | src/omnistat.c:665-674 | 255 exactly for "hold" (case-sensitive), 0 for every other string |
| OmnistatConv.OmcsHold | src/omnistat.c:676-684 | bytes other than 0 and 255 render as "hold mode b?" |
| OmnistatConv.HoldRoundTrip | src/omnistat.c:664-684 | 0 and 255 round-trip through "auto" and "hold", in both directions |
| OmnistatConv.OmcsOutst | src/omnistat.c:688-703 | the strcpy/strcat sequence leaves the heat/cool word followed by the tokens of the set bits 1..4 |
| OmnistatConv.OutputsTextSteps | src/omnistat.c:688-703 | the rendering is "heat" or "cool", then "\|em-heat", "\|run", "\|fan" and "\|s2" in that order, each present exactly when its bit is set |
| OmnistatConv.OutputsRoundTrip | src/omnistat.c:688-703 | the rendering is one-to-one on bits 0..4: reading the tokens back recovers them |
| OmnistatConv.OutstDecodes | src/omnistat.c:688-703 | the status byte is recovered from its rendering except for bits 5..7, which are ignored |
| OmnistatRegs.OmModelTable | src/omnistat.c:562-582 | rc8x exactly for models {0,1,8,9,16,17,34,48,49,50}, rc2000 exactly for 0x78, none otherwise |
| OmnistatRegs.TableSizeAgrees | src/omnistat.c:584-603 | the size is 0 exactly when there is no table, and is otherwise the length of the selected table (74 or 172) |
| OmnistatRegs.ModelNamedIffTable | src/omnistat.c:520-560 | omcs_model gives an "RC-" name exactly for the models that have a table, and "rc<n>?" for every other byte |
| OmnistatRegs.TablesUseKnownFlags | src/omnistat.c:25-393 | every flag word in both tables is one of RESV, ROK, OK or SV\|OK |
| OmnistatRegs.RenderRoutines | src/omnistat.c:25-393 | the only entry without a render routine is rc8x register 0x39 |
| OmnistatRegs.WritableHasParser | src/omnistat.c:25-393 | every writable register has a parse routine, except rc2000 register 7 |
| OmnistatRegs.StatusBlockReadable | src/omnistat.c:91-106 | in both tables all of the status block except 0x45 is readable, and it renders the current temperature and the output state with their routines |
| OmnistatRegs.ModelRegister | src/omnistat.c:106 | register 0x49 is in both tables, read-only, and rendered by omcs_model |
| OmnistatRegs.ProgramTriples | src/omnistat.c:49-86 | the day programs 0x15..0x38 come in threes (time, cool setpoint, heat setpoint) and are all saved registers |
| OmnistatRegs.RegvalGuardOverrun | src/omnistat.c:710-720 | the guard as written admits regaddr == max_regs, one past the end of either table |
| OmnistatRegs.RegvalGuardOverrunExample | src/omnistat.c:715 | model 0 with register 74 passes the guard as written but is not an rc8x index |
| OmnistatRegs.Regval | src/omnistat.c:710-720 | a floating-point rendering comes only from a table entry and is of the given value; an address outside the table (bound `regaddr < max_regs`) or an unknown model gives the 17-character "rc.." text |
| OmnistatRegs.RegvalFallback | src/omnistat.c:710-720 | unknown models and registers past the table get the "rc%02x:REG0x%02x_0x%02x" rendering, 17 characters long |
| OmnistatRegs.RegvalModel | src/omnistat.c:710-720 | the model register renders the model name under every known model |
| OmnistatRegs.RegvalOutputState | src/omnistat.c:710-720 | the output-state register renders as omcs_outst, and the rendering decodes to the output bits |
| OmnistatRegs.RegvalIntRoundTrip | src/omnistat.c:710-720 | every table register with the integer render routine renders a value that omcb_int reads back |
| OmsSpec.ChecksumSnoc | src/mqoms.c:168-171 | the byte sum over one more byte is the old sum plus that byte, mod 256 |
| OmsSpec.ChecksumStep | src/mqoms.c:168-171 | the running sum after i+1 bytes is the sum after i plus byte i, mod 256 |
| OmsSpec.FrameLayout | src/mqoms.c:159-171 | a frame is slength+2 bytes: the address, (slength-1)<<4 \| (command & 0x0f), sdata[1..slength-1], then the sum mod 256 of all bytes before it |
| OmsSpec.DispatchKeepsInv | src/mqoms.c:129-184 | dispatch keeps the channel invariant (a timer is armed only while a reply is awaited; with nothing outstanding the channel is idle with no timer) and writes at most one frame |
| OmsSpec.DispatchOnlyWrites | src/mqoms.c:129-184 | dispatch does nothing visible but write a frame |
| OmsSpec.DispatchSendsOldest | src/mqoms.c:140-184 | a frame is written exactly when the channel is idle and the head of the queue has a good length. That frame is the head's, and the head becomes outstanding with the state RECV and the timer armed. When not idle, or when the queue is empty, nothing changes |
| OmsSpec.BadMessageStalls | src/mqoms.c:146-154 | a head of bad length is removed and dropped: nothing is written, the channel stays idle with no timer armed, and the rest of the queue (possibly empty) waits |
| OmsSpec.EnqueueKeepsInv | src/mqoms.c:381-393 | enqueueing keeps the invariant; when not idle it only appends to the queue |
| OmsSpec.EnqueueAllSnoc | src/mqoms.c:381-393 | enqueueing one more message extends the state and events of a run of enqueues |
| OmsSpec.EnqueueTwo | src/mqoms.c:381-393 | two enqueues one after the other are the run of enqueues of both |
| OmsSpec.EnqueueAllStep | src/mqoms.c:381-393 | a run of enqueues followed by another run is the run of the concatenation |
| OmsSpec.EnqueueAllConcat | src/mqoms.c:381-393 | enqueueing a list is enqueueing its parts in turn, with the events concatenated |
| OmsSpec.EnqueueAllKeepsInv | src/mqoms.c:381-393 | any run of enqueues keeps the invariant |
| OmsSpec.OneAtATime | src/mqoms.c:178-183 | a batch of good messages enqueued on an idle empty channel writes exactly one frame, the first message's; the first is outstanding, the rest wait in order, and the state is RECV |
| OmsSpec.ClearKeepsInv | src/mqoms.c:106-124 | the timeout keeps the invariant and only writes frames. It ends idle with nothing outstanding, unless it dispatched the next message. It never calls the handler |
| OmsSpec.Classify | src/mqoms.c:254-268 | bad checksum exactly when the checksum byte differs; else NACK exactly on status 1; else bad address exactly when the address is not 0x80\|nodeno; else no error |
| OmsSpec.Feed | src/mqoms.c:210-278 | a read with no message outstanding leaves the machine as it was and does nothing |
| OmsSpec.FeedConcat | src/mqoms.c:210-278 | a read is the same as its bytes read in two parts |
| OmsSpec.IdleIgnores | src/mqoms.c:214-221 | an idle channel ignores every byte but 0xAC |
| OmsSpec.StepKeepsInv | src/mqoms.c:211-277 | one byte keeps the invariant, and while a message was captured some message stays outstanding (after a checksum byte it may be the next one dispatched) |
| OmsSpec.FeedKeepsInv | src/mqoms.c:210-278 | a whole read keeps the invariant |
| OmsSpec.StoredSnoc | src/mqoms.c:241-243 | storing one more data byte puts it at the reply count and increments the count |
| OmsSpec.FeedData | src/mqoms.c:239-247 | the data bytes of a frame each add to the checksum and are stored in turn, while the count of data left falls |
| OmsSpec.DataStep | src/mqoms.c:239-247 | one more data byte grows the sum and the stored bytes by it |
| OmsSpec.StepInData | src/mqoms.c:239-247 | a data byte adds to the checksum, is stored while the buffer has room, and moves to CKSUM when the count runs out |
| OmsSpec.FeedSnoc | src/mqoms.c:210-278 | a read with one more byte at the end is one more step |
| OmsSpec.StepInType | src/mqoms.c:227-238 | the status byte sets the length and status nibbles and resets the reply count, then moves to DATA, or to CKSUM for no data |
| OmsSpec.FeedFromType | src/mqoms.c:227-276 | after the address byte, the status byte, the data and the checksum byte complete the reply |
| OmsSpec.StepAtChecksum | src/mqoms.c:249-276 | the checksum byte completes the reply |
| OmsSpec.FeedToChecksum | src/mqoms.c:227-247 | the status byte and the data bring the machine to CKSUM with the data stored |
| OmsSpec.ReplyFromRecv | src/mqoms.c:222-276 | from RECV, the address byte seeds the checksum and is kept as the reply address |
| OmsSpec.ReplyRoundTrip | src/mqoms.c:222-268 | from RECV, a thermostat's frame [0x80\|nodeno, n<<4\|st, d, sum] with st != NACK is read as a completed reply classified as no error. Its reply side has status st, count n, and d in front of the old buffer contents |
| OmsSpec.FrameParts | src/mqoms.c:159-171 | a frame is its address, length and status byte, its data, then its sum |
| OmsSpec.HeadParts | src/mqoms.c:159-166 | the head of a frame is [address, length<<4 \| status] + data |
| OmsSpec.Nibbles | src/mqoms.c:229-230 | helper for OmsSpec.StepInType: the length and status nibbles of the second byte read back |
| OmsSpec.StoredFresh | src/mqoms.c:231-247 | a reply's data is stored from the start of the buffer after the status byte resets the count |
| OmsSpec.DesyncNeverOk | src/mqoms.c:214-268 | a frame begun by 0xAC while idle has its address cleared and can never resolve as no error. With a matching checksum byte it is reported as a bad address, not as the checksum error the code means to force, and the handler does nothing with it |
| OmsSpec.RegdataReported | src/mqoms.c:359-370 | a register-data reply [start, v0..vn-1] reports value vi at register start+i (the first value at start itself), in order, and nothing else |
| OmsSpec.StaleSecondReply | src/mqoms.c:210-276 | two empty replies in one read, with one message queued: the queued message's frame is written, then both replies are handed to the message captured when the read began. The channel ends idle with the new message outstanding but its timer cancelled |
| OmsSpec.EmptyReply | src/mqoms.c:227-276 | from RECV, a reply without data is handled without error with count 0 and the old buffer kept, after the next queued message is dispatched |
| OmsSpec.NodeAfterConcat | src/mqoms.c:282-318 | the node after two runs of events is the node after each in turn |
| OmsSpec.NodeAfterInert | src/mqoms.c:282-318 | frames, publications and register reports leave nodes alone |
| OmsSpec.HandledAlone | src/mqoms.c:282-318 | a handled reply surrounded by such events acts on the node alone |
| OmsSpec.HandlerInert | src/mqoms.c:282-318 | the handler's own events never include a handled reply |
| OmsSpec.EffectsConcat | src/mqoms.c:282-318 | the handler's reactions to two runs concatenate |
| OmsSpec.EffectsOfInert | src/mqoms.c:282-318 | events other than handled replies are kept as they are |
| OmsSpec.InertSplit | src/mqoms.c:282-318 | a run without handled replies splits into a shorter such run and a last event that is not one |
| OmsSpec.EffectsKeepNodes | src/mqoms.c:282-318 | the handler's publications and reports leave every node as the events alone do |
| OmsSpec.EffectKeepsNode | src/mqoms.c:282-318 | one event with the handler's reaction acts on a node as the event alone |
| OmsSpec.EffectsOfComplete | src/mqoms.c:270-274 | a completed reply amounts to the next dispatch's frame, then the handled reply, then the handler's reaction, in that order |
| OmsSpec.NodeAfterComplete | src/mqoms.c:270-274 | of all a completed reply does, only the handled reply reaches a node |
| OmsSpec.GroupReplyUpdatesNode | src/mqoms.c:210-356 | end to end, from RECV a six-byte group-1 reply from the awaited node sets the node's setpoints, mode, fan mode, hold and current temperature from the six values and stamps its last-response time |
| OmsSpec.GroupCompleteUpdatesNode | src/mqoms.c:249-356 | a group-1 reply handled without error updates the node from its six values |
| OmsSpec.GroupPublished | src/mqoms.c:338-341 | a group-1 reply handled without error publishes the current temperature on "omnistat/<name>/current" |
| OmsSpec.Reacted | src/mqoms.c:270-274 | whatever the handler does for a completed reply is among its effects |
| OmsSpec.RegisterReplyReported | src/mqoms.c:210-370 | end to end, from RECV a register-data reply from the awaited node reports every value at its register address |
| OmsSpec.RegisterCompleteReported | src/mqoms.c:249-370 | a register-data reply handled without error reports every value at its register address |
| OmsSpec.RegisterHandled | src/mqoms.c:282-370 | the handler reports a good register-data reply value by value |
| OmsSpec.RequestsSnoc | src/mqoms.c:538-565 | the requests of a list with one more message gain that message's request at the end |
| OmsSpec.RequestsConcat | src/mqoms.c:538-565 | the requests of two lists concatenate |
| OmsSpec.RequestsTwo | src/mqoms.c:505-534 | two messages ask for their two requests, in order |
| OmsSpec.NodeRequestsStep | src/mqoms.c:541-549 | one more node's requests extend those issued so far toward the total |
| OmsSpec.NodeRequestsCover | src/mqoms.c:541-549 | every known node from the start address up gets its requests |
| OmsSpec.NodeRequestsOnlyKnown | src/mqoms.c:541-549 | only known nodes get requests |
| OmsSpec.PollCoversKnownNodes | src/mqoms.c:538-551 | every known node at addresses 1..127 is asked for group 1 and for the 14-register status block from 0x3B |
| OmsSpec.PollOnlyKnownNodes | src/mqoms.c:538-551 | a poll asks nothing of an address without a known node |
| OmsSpec.ClockCoversKnownNodes | src/mqoms.c:553-565 | every known node at 1..127 gets the day-register write and the time write |
| OmsSpec.ClockOnlyKnownNodes | src/mqoms.c:553-565 | the clock setting writes to no address without a known node |
| OmsChan.FrameBytes | src/mqoms.c:159-172 | the bytes assembled in the 256-byte local buffer are the frame of the message |
| OmsChan.FillHead | src/mqoms.c:159-166 | the head of the frame (address, length and command, data) is written at the start of the buffer |
| OmsChan.StoreSum | src/mqoms.c:168-171 | the checksum loop leaves the byte sum of the bytes before it in the next slot and changes nothing before it |
| OmsChan.NextIdTwice | src/mqoms.c:440-443 | helper for PollNode and SetClock: two ids taken in a row advance the guint counter by two, with wrap-around |
| OmsChan.SendData | src/mqoms.c:442-449 | the send buffer starts with scmd & 0x0f, followed by the data bytes that reach the wire |
| OmsChan.Min | src/mqoms.c:442 | helper for SendMsg and SetRegs: MIN of two integers is the smaller one |
| OmsChan.FeedTrace | src/mqoms.c:211-278 | the trace after one more byte is the trace of the read one byte longer |
| OmsChan.CompleteTrace | src/mqoms.c:249-276 | the state and trace after the checksum byte are those of a completed reply |
| OmsChan.Channel.constructor | src/mqoms.c:64-67 | a zeroed channel: idle, nothing queued or outstanding, no timer, timeout 1250 ms, an empty table of 128 nodes, and nothing done yet |
| OmsChan.Channel.Close | src/mqoms.c:70-77 | the reply timer is cancelled and nothing else changes |
| OmsChan.Channel.AddNode | src/mqoms.c:79-97 | addresses 0 and above 127 are refused and leave the table as it was. Otherwise a fresh node with that address and name takes the slot, replacing any node there, and no other slot changes |
| OmsChan.Channel.Dispatch | src/mqoms.c:129-184 | the new fields and the frame written are those of the dispatch specification |
| OmsChan.Channel.Clear | src/mqoms.c:106-124 | the new fields and the frame written are those of the timeout specification |
| OmsChan.Channel.Enqueue | src/mqoms.c:381-393 | the message is stamped with the time and appended, and is dispatched when idle, as the enqueue specification says |
| OmsChan.Channel.SendMsg | src/mqoms.c:437-451 | the new message has the next id (a guint that wraps) and the address addr & 0x7f. It asks for command scmd & 0x0f with the first min(sblen, 15) bytes of data, and is enqueued. A negative sblen gives a message the dispatcher will drop |
| OmsChan.Channel.SendGetg | src/mqoms.c:454-462 | enqueues a group-1 read with no data |
| OmsChan.Channel.NodeSendGetg | src/mqoms.c:467-474 | enqueues a group-1 read for the node's address |
| OmsChan.Channel.ReadRegs | src/mqoms.c:476-488 | enqueues a register read of the start register (low byte) and a count clamped to 14 |
| OmsChan.Channel.SetRegs | src/mqoms.c:490-502 | enqueues a register write of the first min(count, 15) bytes of the buffer |
| OmsChan.Channel.SetDay | src/mqoms.c:519-526 | enqueues the write of the day register 0x3A, Monday as 0 and Sunday as 6 |
| OmsChan.Channel.SetTime | src/mqoms.c:515-532 | enqueues the write of seconds (a leap second as 59), minutes and hours from register 0x41 |
| OmsChan.Channel.SetClock | src/mqoms.c:505-534 | enqueues two writes: the day (Monday = 0) at 0x3A, then seconds (clamped to 59), minutes and hours from 0x41 |
| OmsChan.Channel.PollNode | src/mqoms.c:544-547 | enqueues the group-1 read and the status-block read of one node |
| OmsChan.Channel.PollAt | src/mqoms.c:542-549 | the loop body at address i keeps the requests issued equal to the poll of the nodes below i+1 |
| OmsChan.Channel.ListPerMinute | src/mqoms.c:538-551 | the requests enqueued are exactly the poll of the known nodes, in address order, and the channel is their run of enqueues |
| OmsChan.Channel.ClockAt | src/mqoms.c:557-563 | the loop body at address i keeps the requests issued equal to the clock setting of the nodes below i+1 |
| OmsChan.Channel.ListPerHour | src/mqoms.c:553-565 | the requests enqueued are exactly the clock setting of the known nodes, in address order |
| OmsChan.Channel.PerMinuteCallback | src/mqoms.c:570-618 | the poll runs when data is given, and the clock setting runs when the hour changes, in that order. The hour is remembered and the delay is the wait until the next minute |
| OmsChan.Channel.NdRegdata | src/mqoms.c:373-379 | one register value is reported and nothing is stored |
| OmsChan.Channel.ReplyRegdata | src/mqoms.c:359-370 | reports the values of the reply after its start register, none when the count is under 2 |
| OmsChan.Channel.ReplyGetg | src/mqoms.c:321-356 | a six-byte reply sets the two setpoints, mode, fan mode, hold and current temperature and publishes the temperature; any other count changes nothing and publishes nothing |
| OmsChan.Channel.Route | src/mqoms.c:287-312 | for a known node, the good-reply branch stamps the last response, routes by status nibble and updates only that node |
| OmsChan.Channel.ReplyHandler | src/mqoms.c:282-318 | the call is logged with the reply. A good reply for a known node updates that node and routes by status. Errors and unknown nodes do nothing more, and other nodes never change |
| OmsChan.Channel.StepByte | src/mqoms.c:212-277 | one byte through the machine agrees with the step specification in fields, reply side, trace and nodes |
| OmsChan.Channel.StepQuiet | src/mqoms.c:214-247 | the bytes that complete no reply agree with the step specification |
| OmsChan.Channel.StepType | src/mqoms.c:227-238 | the status byte agrees with the step specification |
| OmsChan.Channel.StepData | src/mqoms.c:239-247 | a data byte agrees with the step specification |
| OmsChan.Channel.StepChecksum | src/mqoms.c:249-276 | the checksum byte classifies, goes idle, cancels the timer, dispatches, then calls the handler, as the completion specification says |
| OmsChan.Channel.StepFinal | src/mqoms.c:249-276 | the same completion, with every node of the table advanced by the events it produced |
| OmsChan.Channel.FeedByte | src/mqoms.c:211-278 | the loop body keeps the channel at the run of the bytes read so far |
| OmsChan.Channel.Recv | src/mqoms.c:190-279 | a read leaves fields, the captured message's reply side, the trace (each handled reply followed by what the handler makes of it) and every node as the read specification says, with the message captured once when the read begins |

## Left out

- Serial I/O: `tty_open`, the port set-up, `write` and `read` (`src/tty.c` is not part of this model). A frame written is a trace event. The bytes of one read are the argument of `Recv`.
- Recv: the failing `read` (n < 0) and the 32-byte limit of one read are not modelled. The bytes are any finite sequence.
- Recv: requires that a read with nothing outstanding contains no 0xAC byte. On such a byte the source enters TYPE and then writes `msg->rstatus` through a NULL pointer; the model makes the caller exclude this.
- Clock and timers: `time(NULL)` is the parameter `now`, one value for the whole call. OmsChan.Channel.SetClock and ListPerHour use the one `Tm` given to the callback, where `oms_node_set_clock` calls `time` and `localtime` itself for each node (src/mqoms.c:512-513). `gettimeofday` and `localtime` are parameters of `PerMinuteCallback` (seconds, microseconds and a `Tm`); the `Tm` is not derived from the seconds. The glib timer source is a boolean (armed or not), and the re-arming of `per_minute_callback` is its returned delay.
- The statics `msgid` of `oms_chan_send_msg` and `last_hour` of `per_minute_callback` are fields of the channel (`msgId`, `lastHour`). The global `g_omc` is the channel object itself.
- MQTT: `mqtt_publish` is a trace event carrying the topic and the raw temperature byte. The `%.1f` payload is not modelled.
- Floating point: `omcb_temp`, `omcf_temp`, `omcs_temp`, `omcb_tcal`, `omcs_tcal` and the `omst_celsius` switch are not modelled. Nodes keep the raw setpoint and temperature bytes. `omcs_regval` returns the routine and the raw byte for these registers.
- Printing: the verbose flag and its `printf`s, `oms_msg_print`, `oms_chan_print`, `strftime` output, and the error messages to stderr.
- `src/main.c`, `src/oms_list.c` and `src/asciiutils.c` are not part of this model. The same goes for the `main` of `src/timeval_subtract.c` and the MQTT glue in `src/glib-mqtt.c`.
- Register names and the PUBA/PUBC flags with their topic names in `rc8x_regs` (src/omnistat.c:91-106) are left out. These flags are not in the `omreg_flags` enum and `struct omst_reg` has no topic field, so the model keeps only the enum's flags.
- `REGS2000_HACK`: only the table without the conditional entries (172 registers) is modelled.
- OmnistatRegs.Regval: requires that the selected entry has a render routine. Rc8x register 0x39 has a NULL `cvt_str` (src/omnistat.c:88), and calling it would be a NULL call. Its bound is the corrected `regaddr < max_regs`, not the `<=` of src/omnistat.c:715: at regaddr == max_regs the model gives the raw rendering where the source reads one entry past the table (see "## Findings").
- Timeval.Subtract: C `int` overflow in the carry arithmetic is not modelled; the fields are unbounded.
- OmsChan.Channel.SendMsg: requires `sblen` to be a C `int` below INT_MAX so that `sblen + 1` does not overflow. It also requires `sbuf` to be long enough for the `memcpy`, which copies one byte more than reaches the wire.
- OmsChan.Channel.ReadRegs and SetClock: the `memcpy` reads stack bytes past those set (`sbuf[2]`), whose values are indeterminate. They are taken as 0, and none of them reaches the wire.
- CText.Atoi: overflow of `atoi` is not modelled; the integer is unbounded.
- OmnistatConv.OmcbPtime: gives None when `sscanf` does not fill both fields. The source then computes with an uninitialised variable.
- OmsSpec.HandlerEvents: also gives no events when the message's address is outside the table it is given. The channel's table has 128 slots and addresses are 7-bit, so this never applies to the channel.
- `oms_chan_close` and `oms_chan_open`: the file descriptor and the device name are not modelled. The success path of `oms_chan_open` (src/mqoms.c:64-68) falls off the end without `return omc;`, so its caller receives an indeterminate pointer; OmsChan.Channel.constructor models the channel that was evidently meant to be returned.
- The `g_free` of a replaced node or a timed-out message is not modelled; objects are garbage collected.
- GListExtra.Shift: the update of the caller's list through `GList **` is modelled as returning the new list. It does turn into a reassignment of `sendq` in `Dispatch`.

## Findings

| source | as written | input that shows it | evidently intended | confidence | as-written member | corrected member |
|---|---|---|---|---|---|---|
| src/omnistat.c:715 | `omcs_regval` checks `regaddr <= max_regs` before `regtab[regaddr].cvt_str(...)` | model 0 (RC-80) with regaddr 74: the guard passes, but rc8x_regs has 74 entries (0..73), so entry 74 is read one past the end and its routine is called | `regaddr < max_regs`, with every other address taking the raw "rc..:REG0x.._0x.." rendering | not executed | OmnistatRegs.RegvalGuardOverrunExample | OmnistatRegs.RegvalFallback |
