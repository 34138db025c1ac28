# NavRun 500 importer core in Dafny

This project models the two core parts of the NavRun 500 importer plugin and
proves properties of them:

- **The serial side (`NavRunCom`).**
  - `SendTel` frames a telegram (`A0 A2 lenHi lenLo payload chkHi chkLo B0 B3`) and sends it.
  - It reads the reply through the nine-state receiver and retries under its repeat budget.
  - `GetMaxPage` scans the header table.
  - `ReadDeviceMemory` builds and sends the 5-byte read-memory request.
  - `ReadData` dumps the device memory page by page, 32 blocks of 128 bytes per page.
- **The memory-image decoder (`NavRunInterpreter`).**
  - `GetNumberOfActivities` fills the `adrlist` field from the index table.
  - `ImportActivity` decodes one activity: its summary, its lap loop, and its sample loop over a running cursor of time, longitude, latitude and altitude.
  - Its helpers are also modelled: `SetNewTime`, `ConvertBCDToHex` and `ByteArrayToStruct`.

## Modules

| module | file | what it holds |
|---|---|---|
| `Common` | `common.dfy` | Shared vocabulary: bytes; `Option`; the .NET exceptions as an `Outcome`; little-endian field reads; C#'s unchecked Int32/Int16 wrap-around |
| `Telegram` | `telegram.dfy` | The frame layout and checksum; the receiver's switch statement (`Step`); one receive attempt (`Receive`); the retry loop (`Exchange`, `SendTelSpec`); lemmas about all of these |
| `Transport` | `transport.dfy` | The serial port as a class with a queue of read events and a log of written frames; class `NavRunCom` with the imperative `SendTel`, `GetMaxPage`, `ReadDeviceMemory` and `ReadData`; the dump's specification `DumpResult` |
| `Header` | `header.dfy` | The index table at 0x100: the scan `GetMaxPage` makes (`MaxPage`); the walk `GetNumberOfActivities` makes (`ActivityPages`); an independent reading of the table (`Followers`) |
| `Calendar` | `calendar.dfy` | The .NET `DateTime` constructor's validity rule; `AddMinutes(1)` with carry; `SetNewTime`; a seconds count used as reference |
| `Records` | `records.dfy` | The bounds-checked slice `ByteArrayToStruct` makes; BCD; the packed records, each with a decoder and an encoder proved inverse to it |
| `Activity` | `activity.dfy` | What importing one activity produces: the lap loop (`Laps`), one sample step (`SampleStep`), the sample loop (`Samples`), and the whole import (`ImportSpec`) |
| `Interpreter` | `interpreter.dfy` | Class `NavRunInterpreter` with the `adrlist` field; imperative `GetNumberOfActivities` and `ImportActivity` with their loops, each proved equal to the definitions in `Header` and `Activity` |

**Port and exceptions.**
- A port is modelled by its inputs and outputs:
  - what its reads deliver, a queue of `Byte(x)` or `Timeout` events, where an exhausted queue times out forever;
  - what was written to it, a log of frames.
- Exceptions that the core raises and nothing in it catches become `Threw(kind)`. Examples: `IndexOutOfRangeException` from an index-table walk that runs off the image, and `ArgumentException` from a record that does not fit. Those caught inside `ImportActivity` become its `false` answer (`Rejected`).

**Behaviours of the code that the model keeps.** Some of them are easy to overlook when reading the code:

- **Receiver states 1 and 8.** On a wrong byte they keep waiting for `A2` and `B3`. They do not fall back to state 0.
- **The forgiven read timeout.** Only one is forgiven per `SendTel` call, not one per attempt, because `bRetry` is never reset.
- **A completed telegram with a bad checksum.** It ends the call with null and no resend: the repeat counter is set to 0 when the frame completes and then decremented.
- **The payload buffer.** It is not cleared between attempts, so bytes from an interrupted attempt stay at the front of a later reply.
- **`GetNumberOfActivities`.**
  - It lists the byte at 0x100, then the byte after each single `FF`. It does not list every non-`FF` byte.
  - It raises when the table runs off the image.
- **`GetMaxPage`.** On a one-page header it raises when the table has no `FF FF` pair. The scan runs past the image rather than stopping at the 16-bit bound.
- **`ImportActivity`.** An index at or past the end of the activity list (NavRunInterpreter.cs:183), or a summary that does not fit, makes it answer false. A negative index fails inside the `try` at NavRunInterpreter.cs:187-195, so it answers false too. A lap or sample record that does not fit raises. So does an impossible date in a time stamp, or a minute added past year 9999.
- **Lap split times.** The fourth byte of a split time is BCD hundredths of a second. It is added as 10 × value milliseconds.

## Model

| member | source | states |
|---|---|---|
| Common.Wrap32 | NavRunInterpreter.cs:289-290 | The Int32 result of C#'s unchecked `+=`: in range, congruent to the exact sum modulo 2^32, and equal to it when no overflow occurs |
| Common.Wrap16 | NavRunInterpreter.cs:291 | The Int16 result of `aktHoehe +=`: in range, congruent modulo 2^16, and exact when no overflow occurs |
| Telegram.Checksum | NavRunCom.cs:255-259 | The 16-bit checksum, the payload sum reduced modulo 65536, lies in 0..65535 |
| Telegram.Framed | NavRunCom.cs:253-270 | The wire layout of a telegram is payload length + 8 bytes |
| Telegram.FrameExample | NavRunCom.cs:253-270 | The payload `[0x10]` is sent as `A0 A2 00 01 10 00 10 B0 B3` |
| Telegram.ExchangeResets | NavRunCom.cs:280-281 | Every attempt resets the receiver state and the running checksum, so the exchange does not depend on their earlier values |
| Telegram.WaitingIgnores | NavRunCom.cs:310-322 | In states 0, 1, 7 and 8 the receiver drops every byte except the one it waits for; state 1 keeps waiting for A2 and state 8 keeps waiting for B3 |
| Telegram.ReceiveHeader | NavRunCom.cs:310-342 | The start markers and the two length bytes take the receiver from state 0 to the payload state, or to the checksum state when the length is 0 |
| Telegram.ReceivePayload | NavRunCom.cs:344-353 | The declared number of payload bytes is appended to the buffer and added to the running checksum, ending in state 5 |
| Telegram.ReceiveTrailer | NavRunCom.cs:355-382 | The checksum bytes and the end markers complete the telegram with the received checksum field |
| Telegram.ReceiveFramed | NavRunCom.cs:308-387 | A whole telegram read from state 0 completes the attempt: the payload is appended, and the running and received checksums are those of the frame |
| Telegram.SendTelFramed | NavRunCom.cs:375-401 | After garbage free of A0, a telegram ends the call on the first send. It returns its payload when the checksums agree and null otherwise, with no resend either way |
| Telegram.SendTelRoundTrip | NavRunCom.cs:308-393 | After garbage free of A0, a correctly framed reply is returned exactly, after one send, and nothing after it is consumed |
| Telegram.SendTelZeroLength | NavRunCom.cs:330-342 | A declared length of 0 goes straight to the checksum bytes: the reply is empty when its checksum field is 0, and null otherwise |
| Telegram.ReceiveWithoutEnd | NavRunCom.cs:284-388 | Input without a B3 byte never completes an attempt, and what the attempt leaves unread still has no B3 |
| Telegram.ReceiveWithoutStart | NavRunCom.cs:308-315 | Input without an A0 byte leaves the receiver in state 0, so no attempt completes, and what the attempt leaves unread still has no A0 |
| Telegram.ExchangeWithoutTelegram | NavRunCom.cs:273-399 | Input without a B3 byte, or without an A0 byte, makes the exchange fail after exactly as many sends as its budget |
| Telegram.SendTelExhausts | NavRunCom.cs:273-401 | On input without a B3 byte or without an A0 byte, no telegram can complete: the frame is sent repeat+1 times and the result is null |
| Telegram.ExchangeBound | NavRunCom.cs:273-399 | On every input the exchange sends at most its budget, at least once when the budget is positive, and nothing (returning null) otherwise |
| Telegram.SendTelBound | NavRunCom.cs:240-401 | On every input `SendTel` writes the frame at most repeat+1 times, at least once when repeat is not negative; a negative repeat returns null without sending |
| Telegram.OneTimeoutForgiven | NavRunCom.cs:286-302 | A single read timeout before the reply is forgiven: the reply is still read on the first send |
| Telegram.RetryFlagNotReset | NavRunCom.cs:249 | The forgiven timeout is not given back on a resend: with one retry, three timeouts fail both attempts, and the later reply is never read |
| Telegram.StalePayloadKept | NavRunCom.cs:244 | An interrupted attempt's payload bytes stay in the buffer: the next reply is returned with them in front, and its checksum still matches |
| Transport.SerialLink.constructor | NavRunCom.cs:216-217 | An opened port with the given read events and nothing written |
| Transport.SerialLink.Write | NavRunCom.cs:276 | A write appends the frame to the log and consumes no input |
| Transport.SerialLink.ReadByte | NavRunCom.cs:286-302 | A read takes the next event; once the input is exhausted, every read times out |
| Transport.ReadMemoryRequest | NavRunCom.cs:193-199 | The request is 5 bytes: command 0x12, the address in three little-endian bytes (which give the address back below 2^24), then the size |
| Transport.ImageAt | NavRunCom.cs:103-179 | The image is memory in address order: byte a is data byte a mod 128 of the block requested at address a − a mod 128 |
| Transport.DumpStopped | NavRunCom.cs:110-120 | A dump that stops at its first unusable block, within the header page or within the pages its header names, returns null |
| Transport.DumpBodyNeedsHeader | NavRunCom.cs:132-148 | A request past the header page happens only after a usable header page whose scan returned a last page, and it lies within pages 0 to that page |
| Transport.DumpHeaderRaised | NavRunCom.cs:132 | A complete header page whose scan raises makes the dump raise |
| Transport.DumpComplete | NavRunCom.cs:135-179 | A complete dump returns the image of all blocks, 4096 × (1 + last page) bytes |
| Transport.NavRunCom.constructor | NavRunCom.cs:32-52 | The interface holds the port that discovery opened (or null), and no request has been made |
| Transport.NavRunCom.ComputeChecksum | NavRunCom.cs:255-259 | The loop computes the checksum of the payload |
| Transport.NavRunCom.BuildFrame | NavRunCom.cs:253-270 | The send buffer is a fresh array holding exactly the telegram layout |
| Transport.NavRunCom.ReceiveReply | NavRunCom.cs:284-388 | The read loop consumes exactly the input that one receive attempt takes and ends in the same receiver state. It writes nothing |
| Transport.NavRunCom.SendTel | NavRunCom.cs:240-402 | Null without a port or with an empty payload. Otherwise the result and the unread input are those of the retry specification, and the frame was written once per send |
| Transport.NavRunCom.GetMaxPage | NavRunCom.cs:73-87 | Returns the header scan's result: 0 without a table, else the byte before the first FF FF pair, raising when the scan runs off the image |
| Transport.NavRunCom.ReadDeviceMemory | NavRunCom.cs:189-204 | Null without a port. Otherwise it returns the reply to the read-memory request, sent with two retries. Either way the block request is logged |
| Transport.NavRunCom.RequestBlock | NavRunCom.cs:108 | One 128-byte block request, logged with its reply |
| Transport.NavRunCom.ReadPage | NavRunCom.cs:105-128 | 32 consecutive block requests, whose data bytes are appended; stops at the first unusable reply, after at most 32 requests |
| Transport.NavRunCom.ReadPages | NavRunCom.cs:140-170 | Pages 1 to the last page, read in address order from 0x1000; stops at the first unusable reply, never requesting past the last page |
| Transport.NavRunCom.ReadBody | NavRunCom.cs:132-179 | After a complete header page: the result the dump specification demands for the header and the pages read after it |
| Transport.NavRunCom.ReadData | NavRunCom.cs:94-180 | The requests are consecutive blocks from address 0, within the header page until its scan returns a last page and within pages 0 to that page after. The result is null exactly when the last reply is unusable, and raises only from the header scan. Otherwise it is the image of all replies, 4096 × (1 + last page) bytes long |
| Header.FirstPair | NavRunCom.cs:80-84 | The first FF FF pair at or after an index, or the image length when there is none |
| Header.MaxPage | NavRunCom.cs:73-87 | 0 when the image is shorter than a page or the table starts with FF; otherwise the byte before the first FF FF pair, found before 0xFFFF |
| Header.MaxPageBelowTerminator | NavRunCom.cs:135-141 | On a one-page header the last page is never 0xFF, so the byte-sized page counter cannot wrap |
| Header.MaxPageRaises | NavRunCom.cs:80-81 | On a one-page header the scan raises exactly when there is a table and it holds no FF FF pair |
| Header.MaxPageExample | NavRunCom.cs:73-87 | The table `05 FF FF` gives last page 5 |
| Header.NextTerminator | NavRunInterpreter.cs:146 | The first FF at or after an index, with none before it |
| Header.Offsets | NavRunInterpreter.cs:142 | One offset per page number, each being the page number shifted left by 12 |
| Header.OffsetsOnPageBoundaries | NavRunInterpreter.cs:152 | Every activity offset is a multiple of 4096 no larger than 0xFF000 |
| Header.FirstPairSkip | NavRunInterpreter.cs:146 | Skipping bytes that are not FF does not change where the first FF FF pair is |
| Header.WalkReadsFollowers | NavRunInterpreter.cs:144-158 | The walk from an entry finishes exactly when an FF FF pair follows, and then lists the bytes after each single FF |
| Header.ActivityPagesCharacterised | NavRunInterpreter.cs:131-161 | The table walk finishes exactly when an FF FF pair exists at or after 0x100. It then lists the byte at 0x100 and the byte after every single FF before that pair |
| Header.ActivityPagesExample | NavRunInterpreter.cs:131-161 | The table `01 02 FF 03 FF FF` lists the activities on pages 1 and 3 |
| Calendar.MakeDateTime | NavRunInterpreter.cs:198-203 | The DateTime constructor returns its fields exactly when they form a valid date and time in years 1 to 9999, and raises ArgumentOutOfRange otherwise |
| Calendar.DaysBeforeNextYear | NavRunInterpreter.cs:404 | Leap years (every 4th, except every 100th unless every 400th) have 366 days in the reference count |
| Calendar.YearLength | NavRunInterpreter.cs:404 | A year is as long as its twelve months |
| Calendar.AddOneMinute | NavRunInterpreter.cs:404 | `AddMinutes(1)` keeps the date valid, and raises exactly at 9999-12-31 23:59 |
| Calendar.AddOneMinuteAdvances | NavRunInterpreter.cs:404 | Adding a minute with carry into hour, day, month and year moves the time exactly 60 seconds on |
| Calendar.SetNewTime | NavRunInterpreter.cs:382-407 | With the same minute only the second is replaced; a second outside 0..59 raises; a result is always a valid date |
| Calendar.SetNewTimeAdvances | NavRunInterpreter.cs:393-405 | The result is the old time with the new second, plus exactly one minute when the minutes differ, whatever the new minute is |
| Calendar.SetNewTimeExamples | NavRunInterpreter.cs:393-405 | 12:05:58 with (5, 59) gives 12:05:59. With (6, 1) it gives 12:06:01. Carries at the end of a year and on a leap day land on the next day |
| Records.ReadRecord | NavRunInterpreter.cs:439-444 | Raises ArgumentException exactly when offset + size exceeds the image; otherwise the size bytes at the offset |
| Records.BcdValue | NavRunInterpreter.cs:415-424 | Ten times the high nibble plus the low nibble; 0..165 for a byte |
| Records.BcdByte | NavRunInterpreter.cs:415-424 | The BCD byte of a two-digit number decodes back to that number |
| Records.BcdRoundTrip | NavRunInterpreter.cs:415-424 | A byte whose nibbles are decimal digits decodes to 0..99 and encodes back to itself |
| Records.BcdExamples | NavRunInterpreter.cs:415-424 | 0x19 → 19, 0x59 → 59, 0x00 → 0, 0xFF → 165 |
| Records.StampBytes | NavRunInterpreter.cs:58-59 | Six stamp bytes in sample order decode back to the stamp |
| Records.EncodeSummary | NavRunInterpreter.cs:23-51 | The 47-byte summary layout decodes back to the fields it encodes |
| Records.EncodeLap | NavRunInterpreter.cs:103-114 | The 16-byte lap layout decodes back to the fields it encodes |
| Records.EncodeSample | NavRunInterpreter.cs:54-100 | Each sample layout has its record's size and tag byte, and decodes back to the sample it encodes |
| Records.EncodeFull | NavRunInterpreter.cs:54-67 | The 25-byte full sample, with its year-first time stamp, decodes back |
| Records.EncodeShort | NavRunInterpreter.cs:70-83 | The 21-byte compact sample decodes back |
| Activity.StampTime | NavRunInterpreter.cs:198-203 | A summary time stamp becomes a valid date in year 2000 + its year byte, or raises |
| Activity.SplitMs | NavRunInterpreter.cs:227-231 | A split time in milliseconds. With a valid BCD byte, its whole seconds are the record's hours, minutes and seconds, and its millisecond part is ten times the hundredths. Any byte adds at most 1650 ms to the whole seconds |
| Activity.LapsRaise | NavRunInterpreter.cs:223-225 | The lap loop raises ArgumentException exactly when one of its records runs past the image |
| Activity.LapsCount | NavRunInterpreter.cs:223-241 | The lap loop appends one lap per record to the laps it started with |
| Activity.LapsRead | NavRunInterpreter.cs:219-242 | Lap j is read from the record at start + 0x40 + 16·j. It ends at that record's split and has its distance and heart rate. The first lap starts at the activity start, and each later lap starts where the one before it ended |
| Activity.DurationsTelescope | NavRunInterpreter.cs:233-240 | Laps without gaps last in total from the first start to the last end |
| Activity.LapsTelescope | NavRunInterpreter.cs:219-242 | An activity's lap durations add up to the last lap's split time |
| Activity.ReadSample | NavRunInterpreter.cs:256-340 | Reading past the image raises IndexOutOfRange. An unknown tag or 0xFF reads as "stop". A sample read is the record its tag selects |
| Activity.ReadSampleRoundTrip | NavRunInterpreter.cs:256-330 | An encoded sample is read back as itself, wherever it sits in the image |
| Activity.Advance | NavRunInterpreter.cs:261-330 | A full sample resets time and position. Empty and time-only samples keep the position. The time stays valid, and only the time can raise |
| Activity.AdvanceKeepsRange | NavRunInterpreter.cs:244-245 | The cursor stays within the ranges of its Int32 and Int16 variables |
| Activity.AdvanceShortMoves | NavRunInterpreter.cs:288-291 | A compact sample moves the position by its deltas modulo 2^32 and 2^16, and sets the time by the minute-rollover rule |
| Activity.HeartRatePoints | NavRunInterpreter.cs:342-350 | A heart-rate point at the cursor time is added exactly for a full, compact or empty sample with heart rate > 0 |
| Activity.RoutePoints | NavRunInterpreter.cs:352-366 | A route point at the cursor is added exactly for a full or compact sample whose satellite low nibble is not 0 |
| Activity.SampleStep | NavRunInterpreter.cs:253-340 | One iteration keeps the cursor time valid |
| Activity.SamplesStep | NavRunInterpreter.cs:251-340 | One pass of the loop: stop returns what was collected, a raise propagates, and otherwise the loop goes on from the next sample with the moved cursor |
| Activity.SamplesAppend | NavRunInterpreter.cs:251-367 | The sample loop only appends, at most one heart-rate and one route point per sample the summary counts |
| Activity.SamplesStop | NavRunInterpreter.cs:331-340 | 0xFF or an unknown tag ends the loop without error, keeping what was collected |
| Activity.NoDataRecordsNothing | NavRunInterpreter.cs:324-330 | A time-only sample records nothing: the loop continues 3 bytes on, with only the time changed |
| Activity.ImportRejected | NavRunInterpreter.cs:183-195 | ImportActivity answers false exactly when the index is outside the list or the summary runs past the image |
| Activity.ImportedShape | NavRunInterpreter.cs:171-371 | An imported activity has the summary's start time and total time, one lap per lap record, and at most one heart-rate and one route point per counted sample |
| Interpreter.PageStartsAppend | NavRunInterpreter.cs:142 | Appending table offsets keeps every listed offset on a page boundary at most 0xFF000 |
| Interpreter.NavRunInterpreter.constructor | NavRunInterpreter.cs:131-161 | A new decoder has an empty offset list |
| Interpreter.NavRunInterpreter.GetNumberOfActivities | NavRunInterpreter.cs:131-161 | Appends the offsets of the table walk's pages, even when the walk then raises. It returns their count when the walk finishes and raises IndexOutOfRange otherwise |
| Interpreter.NavRunInterpreter.SkipActivity | NavRunInterpreter.cs:146-149 | From an entry, the position after the next FF, raising when there is none. That position holds FF exactly when the walk finishes there |
| Interpreter.NavRunInterpreter.ByteArrayToStruct | NavRunInterpreter.cs:434-451 | The copied buffer is the bounds-checked slice |
| Interpreter.NavRunInterpreter.ImportActivity | NavRunInterpreter.cs:171-371 | The outcome is exactly the import definition: false, a raise, or the activity with its laps and track |
| Interpreter.NavRunInterpreter.ReadLaps | NavRunInterpreter.cs:218-242 | The lap loop's result is the lap definition from start + 0x40 |
| Interpreter.NavRunInterpreter.ReadSamples | NavRunInterpreter.cs:244-367 | The sample loop's result is the sample-loop definition from start + 0x1000, starting at the activity's start time with position 0 |
| Interpreter.NavRunInterpreter.SampleIteration | NavRunInterpreter.cs:251-366 | One pass of the loop body, including the appends, keeps the loop's result unchanged |
| Interpreter.NavRunInterpreter.NextSample | NavRunInterpreter.cs:253-340 | The tag dispatch reports exactly the step the definition takes. The flags select exactly the points that step contributes |
| Interpreter.NavRunInterpreter.FullSample | NavRunInterpreter.cs:256-282 | The full-sample branch takes the definition's step. Cursor, flags and next address are as the step reports them |
| Interpreter.NavRunInterpreter.ShortSample | NavRunInterpreter.cs:283-304 | The compact-sample branch takes the definition's step. This includes the wrapping adds and the minute-rollover rule |
| Interpreter.NavRunInterpreter.EmptySample | NavRunInterpreter.cs:305-323 | The empty-sample branch takes the definition's step |
| Interpreter.NavRunInterpreter.NoDataSample | NavRunInterpreter.cs:324-330 | The time-only branch takes the definition's step and raises neither flag |

## Left out

- **Port discovery and opening.** `OpenPort`, `ValidNavRunPort`, `Open` and `Close` are left out: they enumerate platform serial ports and handle exceptions. The port is a parameter of the model (`NavRunCom.constructor`).
- **`Thread.Sleep` pacing and real read timeouts.** A timeout is only a `Timeout` read event.
- **Progress reporting.** The progress percentages set on the job monitor are float arithmetic on a host object.
- **Debug logging.** `Debug.WriteLine` calls are left out.
- **Float scaling.** Distance / 10, calories / 100, latitude and longitude / 1e7 are left out. The model keeps the raw integer fields.
- **Struct marshalling.** `Marshal.PtrToStructure` and `GCHandle` reinterpretation are replaced by explicit little-endian field reads. The struct-layout check in `ByteArrayToStruct` cannot fail for the record types used, so it is not modelled.
- **Other files.** `NavRunDevice.cs` (reading the dump files, writing `rawdata.bin`, the host calls), `Plugin.cs` and `ExtendFitnessDevices.cs` are not part of this model.
- **The host's activity object.**
  - The host's series and route objects are modelled as plain sequences of points.
  - `AddActivity` is called before the laps are read, so an activity whose lap or sample loop raises is left half-filled in the host. The model reports only the raise.
- **`ulCount`.** It is written in `ImportActivity` but never read, so it is not modelled.
- **Lap start times.** A lap's start is kept as a millisecond offset from the activity start, not as a `DateTime`. `DateTime.Add` and `Subtract` with such offsets are exact, so durations are the same.
- Transport.NavRunCom.SendTel: the model requires a payload shorter than 65536 bytes. The source casts the length to `UInt16` and would build a frame with a truncated length. Every caller sends 1 or 5 bytes.
- Activity.SampleStep: its own ensures states only that the cursor time stays valid. What a step computes is stated by `Advance`, `HeartRatePoints`, `RoutePoints` and the lemmas about them.
- Interpreter.NavRunInterpreter.NoDataSample: `aktHerz` keeps the previous sample's heart rate across a time-only sample in the source. It is never used there because the heart-rate flag stays false, so the model does not carry it over.
