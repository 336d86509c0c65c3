# LWSim800 in Dafny

A model of LWSim800, a lightweight Arduino driver for the SIM800L GSM modem.
The driver sends AT commands over a serial line and reads the modem's
replies byte by byte. It searches a reply for a marker (`_findLabel`), copies
a delimited field into a bounded C buffer (`_fetchField`) and drains the rest
of the reply (`_flushSerial`). On these primitives it builds:

- start-up and configuration (`Init`);
- a restart (`Reset`);
- reading the modem's clock (`GetDateTime`, decoded by `_stringToUTC`);
- listing, reading, sending, forwarding and deleting SMS messages.

The serial line is a queue of events. Each event is either a received byte,
`Byte(c)`, or a `Gap`. A `Gap` is a pause long enough for whichever timeout is
running at that moment to fire, and the wait that gives up on it takes it off
the queue. Once the queue is exhausted, every further wait sees a pause.
Everything the driver writes is appended to an output string: `print` appends
the text, and `println` appends the text followed by `"\r\n"`.

The project has these modules:

- `Transport` (transport.dfy): the events and the `SerialLink` class that
  holds the queue and the output.
- `CText` (ctext.dfy): C buffers and library routines. It covers the text
  up to the first NUL (`strlen`), a bounded NUL-terminated copy, C `atoi`, and
  the decimal printing of a `uint8_t`.
- `Scanner` (scanner.dfy): the three stream primitives as functions of the
  queue, and their properties.
- `Timestamp` (timestamp.dfy): `_stringToUTC`. `mktime` is a parameter of
  type `Tm -> int` and is left uninterpreted.
- `Protocol` (protocol.dfy): every public operation as a function from the
  link (queue and output), the `sms` record and the console log to the
  operation's result and the new state. The properties of the operations are
  proved here.
- `Driver` (driver.dfy): the driver object.
  - `class LWSim800` holds the serial link, the `available` flag, the debug
    console lines and the `sms` record.
  - `class Sms` holds the `message` and `sender` char arrays and `dateTime`.
  - Each method runs the source's loops and in-place buffer writes. Its
    `ensures` states that the result, the link and the record are what the
    matching `Protocol` function gives for the old state. When `available` is
    false, it states that the result is false (or -1) and the link is
    unchanged.

Markers follow the `LABEL_*` names the .cpp uses:

| name in the .cpp | string |
|---|---|
| `LABEL_OK` | `"OK"` |
| `LABEL_READY_TO_RECEIVE` | `">"` |
| `LABEL_CMGL` | `"+CMGL:"` |
| `LABEL_CMGR` | `"+CMGR:"` |
| `LABEL_CPMS` | `"+CPMS:"` |
| `LABEL_CCLK` | `"+CCLK:"` |

These are the strings of the header's `CHECK_*` macros (LWSim800.h:34-41).
The header itself does not match the .cpp in several places:

- It declares `_checkResponse` and a `_findLabel(magic, interchar_timeout)`
  that the .cpp does not define. The model follows the .cpp's three-argument
  `_findLabel`.
- It does not declare `_flushSerial` or `GetSignalValue`.

## Behaviour a caller may not expect

The model does what the code does, including these points:

- Configuration steps only warn. Every step after the probe only logs a
  warning when it is not answered, and `available` becomes true once a probe
  is answered (LWSim800.cpp:329-379). The steps include `AT&F` and
  `AT+CSCS="GSM"`.
- The link state is one boolean, `available` (LWSim800.h:51).
- A field fetch that times out keeps the partial prefix in the destination,
  still NUL-terminated (LWSim800.cpp:133-137); see `Scanner.ExtractTimesOut`
  and `Driver.LWSim800.FetchField`.
- A record is not rolled back. When a later field of an SMS reply fails, the
  fields already written stay written (LWSim800.cpp:526-532;
  `Protocol.ReadBreaksOffAfterSender`).
- The year is stored as `tm_year = 2000 + YY - 1870`, which is 130+YY
  (LWSim800.cpp:194).
- An empty mailbox gives -1. The comment at LWSim800.cpp:479 says 0, but
  the code returns -1 whenever `+CMGL:` does not come
  (LWSim800.cpp:500-501; `Protocol.EmptyMailbox`).

## Model

| member | source | states |
|---|---|---|
| CText.CStr | LWSim800.cpp:184 | the text of a buffer is a prefix of it that holds no NUL and is followed by a NUL whenever it is shorter than the buffer |
| CText.CStrOfTerminated | LWSim800.cpp:184 | the text of `s`, a NUL and anything else is `s` |
| CText.Kept | LWSim800.cpp:133 | the field characters a buffer of `size` keeps: a prefix of the field, the whole field when it fits, exactly `size - 1` characters when it does not |
| CText.Stored | LWSim800.cpp:104-105 | copying a field leaves the buffer's length the same and writes nothing past `dest[size-1]`; size 0 writes nothing; otherwise the kept prefix is followed by a NUL |
| CText.StoredText | LWSim800.cpp:104-137 | whatever the buffer held, afterwards it reads as the kept part of the field, at most `size - 1` characters, and holds a NUL |
| CText.StoredTruncates | LWSim800.cpp:133-137 | a NUL-free field at least `size - 1` long reads back as its first `size - 1` characters |
| CText.StoredGrows | LWSim800.cpp:133-137 | one more field character moves the terminator one place on while there is room, and changes nothing once the buffer is full |
| CText.Decimal | LWSim800.cpp:516 | `print` of a number writes only decimal digits, one of them for a number below 10 |
| CText.Atoi | LWSim800.cpp:498 | `atoi` of an empty text, or of one that starts with neither a space, a sign nor a digit, is 0 |
| CText.AtoiBound | LWSim800.cpp:498 | `atoi` of at most n characters lies between -(10^(n-1)-1) and 10^n-1 |
| CText.AtoiDecimal | LWSim800.cpp:498 | `atoi` reads back what `print` wrote for a number |
| Scanner.ScanFrom | LWSim800.cpp:60-86 | each step of the search loop consumes at least one event unless the queue is dry, and a match from position `i` consumed the marker's remaining characters |
| Scanner.SearchLabel | LWSim800.cpp:43-87 | `_findLabel` consumes at least one event unless the queue is dry, and on success at least the marker's length |
| Scanner.ScanTakes | LWSim800.cpp:60-86 | the search takes a prefix of the queue; it is made of bytes, possibly followed by the one pause that ended it, or it is the whole queue |
| Scanner.ScanEndsWithMarker | LWSim800.cpp:71-76 | a successful search ends exactly on the marker's characters |
| Scanner.SearchShape | LWSim800.cpp:43-87 | `_findLabel` stops right after the marker's last byte on success and leaves the rest unread; a failure took a pause or ran the queue dry |
| Scanner.AbsentLabelNotFound | LWSim800.cpp:49-53 | without the marker's last character before the first pause, the search fails |
| Scanner.ScanSkipsForeign | LWSim800.cpp:78-79 | bytes that cannot start the marker leave the cursor at 0 |
| Scanner.ScanMatches | LWSim800.cpp:71-76 | the marker's remaining characters complete the match and nothing after them is read |
| Scanner.SearchFindsLabel | LWSim800.cpp:43-87 | junk without the marker's first character, then the marker: found, and the search stops right after it |
| Scanner.RestartSkipsOverlap | LWSim800.cpp:78-79 | the naive restart does not re-test the mismatching byte, so "OOK" does not yield "OK" |
| Scanner.ExtractFrom | LWSim800.cpp:109-145 | the fetch loop never grows the queue, and it consumed every field character, plus the end byte (and the begin byte when not yet inside) on success |
| Scanner.ExtractField | LWSim800.cpp:97-146 | `_fetchField` consumes the field characters it returns, plus the begin and end bytes on success |
| Scanner.InsideShape | LWSim800.cpp:125-139 | inside a field, the field characters are the bytes taken before the end byte, which they do not contain |
| Scanner.ExtractTakes | LWSim800.cpp:109-145 | the fetch takes a prefix of the queue made of bytes, possibly followed by the pause that ended it |
| Scanner.ExtractClosed | LWSim800.cpp:118-130 | a successful fetch took skipped bytes, the begin byte, the field, then the end byte, and nothing after it |
| Scanner.InsideOkIff | LWSim800.cpp:125-145 | inside a field, success iff an end byte comes before the first pause |
| Scanner.ExtractOkIff | LWSim800.cpp:109-145 | `_fetchField` succeeds iff a begin byte is followed by an end byte before the first pause |
| Scanner.InsideFramed | LWSim800.cpp:125-139 | inside a field, the content up to the end byte is returned exactly |
| Scanner.InsideTimesOut | LWSim800.cpp:125-145 | inside a field, a pause before the end byte fails with the content read so far |
| Scanner.ExtractTimesOut | LWSim800.cpp:109-145 | a field cut off by a pause fails, keeps the characters read so far, and takes the pause |
| Scanner.ExtractFramed | LWSim800.cpp:118-139 | junk, begin byte, content, end byte: success with exactly that content, and nothing after the end byte is read |
| Scanner.AfterFirstGap | LWSim800.cpp:152-178 | `_flushSerial` consumes at least one event unless the queue is dry |
| Scanner.DrainShape | LWSim800.cpp:152-178 | `_flushSerial` takes bytes up to and including the first pause |
| Scanner.DrainReply | LWSim800.cpp:158-177 | draining a reply followed by a pause leaves exactly what follows the pause |
| Timestamp.LaidOutAt | LWSim800.cpp:184-236 | the accepted layout: at least 20 characters with `/`, `/`, `,`, `:`, `:` at offsets 2, 5, 8, 11, 14 and `+` or `-` at 17 |
| Timestamp.DecodeTimestamp | LWSim800.cpp:184-239 | the decoder returns fields iff the text has the accepted layout |
| Timestamp.StringToUTC | LWSim800.cpp:182-242 | -1 for rejected text, otherwise `mktime` of the decoded fields |
| Timestamp.DecodeLayout | LWSim800.cpp:190-239 | a timestamp the modem sends decodes to year 130+YY, month MM-1, and day, hour, minute and second unchanged, with isdst -1 |
| Timestamp.ZoneIgnored | LWSim800.cpp:190-236 | offsets 18 and 19, the zone, and anything after them are never read |
| Timestamp.AtoiTwo | LWSim800.cpp:188-194 | `atoi` of two digits is their value |
| Protocol.MarkersNonEmpty | LWSim800.h:34-41 | every marker searched for is non-empty |
| Protocol.ExchangeWrites | LWSim800.cpp:397-415 | whatever the reply, `Reset`, `DelSMSByIndex` and `DelAllSMS` write their command line once and take at least one event unless the queue is dry |
| Protocol.ExchangeAcked | LWSim800.cpp:397-415 | a reply carrying the marker acknowledges the command and is consumed up to its closing pause |
| Protocol.ExchangeUnanswered | LWSim800.cpp:403-411 | without the marker before the pause the command fails, and its line has still been written |
| Protocol.AnswerAcks | LWSim800.cpp:401-411 | the marker on a line of its own followed by a pause acknowledges the command and is consumed exactly |
| Protocol.DeleteAllTwice | LWSim800.cpp:633-651 | two delete-alls answered OK both succeed and write the command twice |
| Protocol.ApplyWrites | LWSim800.cpp:330-334 | whatever the reply, a configuration step writes its command line and logs at most its own warning |
| Protocol.ConfigureWrites | LWSim800.cpp:329-376 | whatever the replies, every configuration command is written once, in order, and at most one warning per step, each a step's own, is logged |
| Protocol.ConfigureAcked | LWSim800.cpp:329-376 | configuration steps that are all answered log nothing and read exactly their answers |
| Protocol.ApplyAcked | LWSim800.cpp:330-334 | an answered step writes its command, consumes its answer and logs nothing |
| Protocol.ProvisionWrites | LWSim800.cpp:329-383 | whatever the replies, after the probe the seven commands and the delete-all are written, in order |
| Protocol.ProvisionWarns | LWSim800.cpp:329-383 | after the probe the console keeps what it held and gains at most eight lines, each a step's warning or the cleanup warning |
| Protocol.ProvisionAnswered | LWSim800.cpp:329-383 | with every step answered, no warning is logged |
| Protocol.Attempts | LWSim800.cpp:318-386 | the retry loop sends between the probes made so far and that number plus those left; an available outcome sent one more |
| Protocol.AttemptsUnanswered | LWSim800.cpp:318-324 | if no probe is answered, every remaining probe is sent and announced once on the console |
| Protocol.AttemptsAnswered | LWSim800.cpp:318-384 | after an answered probe the console holds one waiting line per probe, then warnings only, at most eight |
| Protocol.FirstProbeAnswered | LWSim800.cpp:320-384 | the answered probe makes the driver available after one more probe; the console gets one waiting line and then warnings only |
| Protocol.FirstProbeOutput | LWSim800.cpp:320-384 | the answered probe is followed on the wire by the setup lines |
| Protocol.AttemptsOutput | LWSim800.cpp:318-384 | the wire carries one probe line per attempt, then the setup lines if a probe was answered |
| Protocol.InitProbes | LWSim800.cpp:318 | `Init` sends 1 to 10 probes; unavailable means all ten were sent |
| Protocol.InitTranscript | LWSim800.cpp:318-384 | on the wire: one probe line per attempt, then, if a probe was answered, the seven commands and a single delete-all, and nothing more |
| Protocol.InitConsole | LWSim800.cpp:318-393 | on the console: one waiting line per probe; then either "GSM Module not available" after ten, or at most eight warnings and "GSM Module Ready" |
| Protocol.InitFirstProbeAnswered | LWSim800.cpp:318-379 | an OK to the first probe makes the driver available after one probe, whatever the configuration gives |
| Protocol.InitAllAnswered | LWSim800.cpp:306-394 | a modem that answers everything: one probe, no warnings, "GSM Module Ready", and nothing read past the last answer |
| Protocol.NewIndex | LWSim800.cpp:477-506 | `GetNewSMSIndex` writes exactly the list command line and consumes at least one event unless the queue is dry |
| Protocol.NewIndexRange | LWSim800.cpp:490-498 | the listed index read through the four-char buffer lies in -99..999 |
| Protocol.EmptyMailbox | LWSim800.cpp:500-501 | a reply with only OK gives -1, not 0 |
| Protocol.ListingIndex | LWSim800.cpp:484-498 | a listing whose first index is n (at most 3 digits) gives n and consumes the reply |
| Protocol.TerminatedText | LWSim800.h:69-73 | a terminated buffer of n chars holds at most n-1 |
| Protocol.ReadAt | LWSim800.cpp:510-556 | `ReadSMSByIndex` writes exactly the read command line for its index, consumes at least one event unless the queue is dry, and keeps the sms buffers' sizes |
| Protocol.HeaderFields | LWSim800.cpp:523-543 | the five field fetches never grow the queue and keep the buffers' sizes; on success they took at least the ten delimiter bytes of the five fields |
| Protocol.StampFields | LWSim800.cpp:530-543 | the name, timestamp and body fetches leave the sender untouched, keep the message buffer's size, and on success took at least six delimiter bytes |
| Protocol.ReadKeepsBounds | LWSim800.cpp:527-542 | whatever the reply, both sms buffers stay terminated: sender at most 14 chars, message at most 160 |
| Protocol.ReadWellFormed | LWSim800.cpp:515-548 | a well-formed reply sets the sender, the body (each truncated to its buffer) and the timestamp. A timestamp in the wrong layout gives -1 without failing the read |
| Protocol.HeaderWellFormed | LWSim800.cpp:523-528 | the status is skipped and the sender copied into its buffer |
| Protocol.StampWellFormed | LWSim800.cpp:531-543 | the name is skipped, the timestamp decoded, the body copied |
| Protocol.ReadBreaksOffAfterSender | LWSim800.cpp:526-532 | a reply cut off after the sender fails, yet the sender buffer keeps the new sender: no rollback |
| Protocol.JunkThenPause | LWSim800.cpp:109-145 | a field that never opens before a pause fails and takes the pause |
| Protocol.ClockQueryAsWritten | LWSim800.cpp:418-442 | `GetDateTime` as written writes the clock command line, and falls off the end of its body exactly when `+CCLK:` is not found |
| Protocol.ClockQueryFallsOffEnd | LWSim800.cpp:422-441 | with the modem silent, `GetDateTime` as written reaches the end of its body without returning |
| Protocol.ClockQuery | LWSim800.cpp:418-442 | the corrected `GetDateTime` agrees with the code wherever it returns, and gives -1 where it does not |
| Protocol.ClockReads | LWSim800.cpp:424-436 | the clock query returns `mktime` of the fields of the modem's clock reply |
| Protocol.LayoutHasNoQuote | LWSim800.cpp:427 | a clock timestamp holds neither a quote nor a NUL, so it is fetched whole |
| Protocol.NulFree | LWSim800.cpp:184 | a text without NUL reads as itself |
| Protocol.Narrow | LWSim800.cpp:569 | passing the `int` index to a `uint8_t` parameter keeps 0..255 as is and otherwise wraps modulo 256 |
| Protocol.ReadNewAsWritten | LWSim800.cpp:560-577 | `ReadNewSMS` as written falls off the end of its body exactly when a positive index is listed and its read fails |
| Protocol.ReadNewFallsOffEnd | LWSim800.cpp:565-571 | message 1 listed but its read unanswered: `ReadNewSMS` as written returns nothing |
| Protocol.ReadNew | LWSim800.cpp:560-577 | the corrected `ReadNewSMS` agrees with the code wherever it returns, and gives false where it does not |
| Protocol.ReadNewConsumesDelivered | LWSim800.cpp:565-571 | success only for a message read in full and then deleted, and the delete goes to that index |
| Protocol.ReadNewDelivers | LWSim800.cpp:565-571 | conversely, success iff a positive index is listed, that message is read in full and its deletion is acknowledged |
| Protocol.Send | LWSim800.cpp:245-294 | `_sendSMS` writes the command line, and the body line with byte 26 after it only when the prompt came; success implies both were written; at least one event is consumed unless the queue is dry |
| Protocol.SendWithoutPrompt | LWSim800.cpp:256-290 | without a `>` prompt the send fails and only the `AT+CMGS="dest"` line is written |
| Protocol.SendAccepted | LWSim800.cpp:256-285 | prompt then OK: success, and the wire carries the command line, the body line and byte 26 |
| Protocol.SendUnacknowledged | LWSim800.cpp:256-290 | prompt but no OK before the next pause: the send fails although the body line and byte 26 have been written |
| Driver.Sms.constructor | LWSim800.h:71-75 | the sms buffers are 161 and 15 chars, zero-filled |
| Driver.LWSim800.constructor | LWSim800.h:51 | a new driver is not available, so every gated operation fails until `Init` succeeds; its sms buffers are fresh |
| Driver.LWSim800.FindLabel | LWSim800.cpp:43-87 | the search loop does what `Scanner.SearchLabel` says: result and queue, nothing written |
| Driver.LWSim800.Put | LWSim800.cpp:133-137 | storing one more field character keeps `dest` the bounded, terminated copy of the characters taken |
| Driver.LWSim800.FetchField | LWSim800.cpp:97-146 | the fetch loop returns `Scanner.ExtractField`'s result and leaves `dest` as the bounded, terminated copy of the field (`CText.Stored`) |
| Driver.LWSim800.FlushSerial | LWSim800.cpp:152-178 | the drain loop leaves the queue after its first pause |
| Driver.LWSim800.Ask | LWSim800.cpp:401-411 | command, marker search, drain on success |
| Driver.LWSim800.ConfigStep | LWSim800.cpp:330-334 | one configuration step with its warning, as `Protocol.Apply` says |
| Driver.LWSim800.ConfigureModem | LWSim800.cpp:329-376 | the seven steps leave the link and console as `Protocol.Configure` says, `available` untouched |
| Driver.LWSim800.SetUpModem | LWSim800.cpp:329-383 | the body after an answered probe: the configuration, `available` set, and the delete-all |
| Driver.LWSim800.Init | LWSim800.cpp:306-394 | the retry loop leaves `available`, the link and the console as `Protocol.InitSpec` says |
| Driver.LWSim800.Reset | LWSim800.cpp:397-415 | gated; true iff OK is found |
| Driver.LWSim800.GetDateTime | LWSim800.cpp:418-442 | gated; the corrected clock query |
| Driver.LWSim800.GetNewSMSIndex | LWSim800.cpp:477-506 | gated; the listed index or -1 |
| Driver.LWSim800.ReadSMSByIndex | LWSim800.cpp:510-556 | gated; fills `sms` as `Protocol.ReadAt` says and keeps its buffers terminated |
| Driver.LWSim800.ReadHeader | LWSim800.cpp:523-528 | status skipped, sender into its buffer, then the rest, as `Protocol.HeaderFields` says |
| Driver.LWSim800.ReadStampAndBody | LWSim800.cpp:530-543 | name, timestamp into `dateTime`, body into `message` |
| Driver.LWSim800.ReadNewSMS | LWSim800.cpp:560-577 | gated; list, read, delete, with false where the code returns nothing |
| Driver.LWSim800.SendText | LWSim800.cpp:245-294 | gated; `_sendSMS` as `Protocol.Send` says |
| Driver.LWSim800.SendSMS | LWSim800.cpp:581-598 | the four overloads, one string each for destination and text |
| Driver.LWSim800.ForwardSMS | LWSim800.cpp:601-608 | sends the text in the message buffer |
| Driver.LWSim800.DelSMSByIndex | LWSim800.cpp:611-630 | gated; true iff OK is found |
| Driver.LWSim800.DelAllSMS | LWSim800.cpp:633-651 | gated; true iff OK is found |

## Left out

- Timing is not modelled: `millis()`, the busy waits and the individual
  timeout values. A pause that outlasts the running timeout is a `Gap`
  event. The model does not tell apart timeouts of different lengths, so it
  cannot say that a pause of a given length fails one wait and not another.
- The `SoftwareSerial` set-up is not modelled: the pins and the baud rate
  given to `Init`.
- `DEBUG` echoing of received bytes is not modelled, because `DEBUG` is 0.
- Console lines are recorded without the `[LWSIM800] ` prefix that
  `_serialPrint` adds.
- `GetSignalValue` (LWSim800.cpp:445-474) is not part of this model:
  - the header does not declare it;
  - it uses a marker `LABEL_CSQ` that is defined nowhere;
  - it passes size 4 for a 3-char buffer. That call would violate
    `Driver.LWSim800.FetchField`'s precondition `destSize <= dest.Length`.
- `mktime` is the C library's and is a parameter of type `Tm -> int`. Its
  value is not modelled.
- `atoi` is modelled over unbounded integers. The listed index has at most
  three characters, so it cannot overflow.
- The `F()`/`__FlashStringHelper` and `char*` overloads of `SendSMS` and
  `ForwardSMS` are collapsed into one string parameter. The destination and
  the text are written up to their first NUL.
- Uninitialised scratch buffers (`tmp`) are fresh arrays with unspecified
  contents. The model states that the result does not depend on them.
- The object is taken to be statically allocated, so the `sms` buffers
  start zero-filled.

## Findings

| source | as written | input that shows it | evidently intended | confidence | as-written member | corrected member |
|---|---|---|---|---|---|---|
| LWSim800.cpp:422-441 | `GetDateTime` has no `return` on the path where `+CCLK:` is not found, so the caller reads an undefined value | the modem stays silent after `AT+CCLK?` | return -1, as on every other failure path | high, not executed | Protocol.ClockQueryFallsOffEnd | Protocol.ClockQuery |
| LWSim800.cpp:567-571 | `ReadNewSMS` has no `return` when `ReadSMSByIndex` fails, so the caller reads an undefined value | the listing reports message 1, then the read gets no reply | return false | high, not executed | Protocol.ReadNewFallsOffEnd | Protocol.ReadNew |
