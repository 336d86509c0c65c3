/** The driver object: its `available` flag, the `sms` record it fills in,
    and the methods that talk to the modem over the serial link. Each method
    is proved to leave the link, the record and the flag as the matching
    function of module Protocol says. */
module Driver {
  import opened Transport
  import opened CText
  import opened Scanner
  import opened Timestamp
  import opened Protocol

  /** The `sms` record: message and sender buffers, and the time stamp. */
  class Sms {
    const message: array<char>
    const sender: array<char>
    var dateTime: int

    /** A statically allocated driver starts zero-filled. */
    constructor ()
      ensures message.Length == MessageMaxLength && sender.Length == SenderMaxLength
      ensures forall i :: 0 <= i < message.Length ==> message[i] == '\0'
      ensures forall i :: 0 <= i < sender.Length ==> sender[i] == '\0'
      ensures dateTime == 0
      ensures fresh(message) && fresh(sender)
    {
      message := new char[MessageMaxLength](_ => '\0');
      sender := new char[SenderMaxLength](_ => '\0');
      dateTime := 0;
    }

    function Contents(): Record
      reads this, message, sender
    {
      Record(sender[..], message[..], dateTime)
    }
  }

  class LWSim800 {
    /** The serial link to the modem. */
    const port: SerialLink
    const sms: Sms
    /** The C library's `mktime`, which this model does not define. */
    const mktime: Tm -> int
    var available: bool
    /** Lines written to the debug console. */
    var console: seq<string>

    /** The buffers have their declared sizes and stay terminated. */
    ghost predicate Valid()
      reads this, sms, sms.message, sms.sender
    {
      && sms.message != sms.sender
      && Sound(sms.Contents())
    }

    function Link(): Wire
      reads this, port
    {
      Wire(port.input, port.output)
    }

    constructor (port: SerialLink, mktime: Tm -> int)
      ensures Valid() && !available && console == []
      ensures this.port == port && this.mktime == mktime && fresh(sms)
      ensures fresh(sms.message) && fresh(sms.sender)
    {
      this.port := port;
      this.mktime := mktime;
      var record := new Sms();
      sms := record;
      available := false;
      console := [];
      new;
      assert sms.sender[..][0] == '\0' && sms.message[..][0] == '\0';
    }

    /** `_findLabel`: wait for the reply to start, then match the marker
        byte by byte, restarting from its first character on a mismatch;
        give up on a pause. */
    method FindLabel(marker: string) returns (found: bool)
      requires marker != []
      modifies port
      ensures var s := SearchLabel(old(port.input), marker);
        found == s.found && port.input == s.rest && port.output == old(port.output)
    {
      var e := port.Peek();
      if e.Gap? {
        e := port.Receive();
        return false;
      }
      var i := 0;
      while true
        invariant 0 <= i < |marker|
        invariant ScanFrom(port.input, marker, i) == SearchLabel(old(port.input), marker)
        invariant port.output == old(port.output)
        decreases |port.input|
      {
        e := port.Receive();
        match e
        case Gap =>
          return false;
        case Byte(c) =>
          if c == marker[i] {
            if i < |marker| - 1 {
              i := i + 1;
            } else {
              return true;
            }
          } else {
            i := 0;
          }
      }
    }

    /** `_fetchField`: skip to `begin`, then copy bytes into `dest` up to
        `end`, keeping `dest` terminated and dropping what does not fit;
        give up on a pause. `dest` may be absent when `destSize` is 0. */
    method FetchField(dest: array?<char>, destSize: int, begin: char, end: char) returns (ok: bool)
      requires dest == null ==> destSize <= 0
      requires dest != null ==> destSize <= dest.Length
      modifies port, dest
      ensures var x := ExtractField(old(port.input), begin, end);
        && ok == x.ok && port.input == x.rest && port.output == old(port.output)
        && (dest != null ==> dest[..] == Stored(old(dest[..]), x.field, destSize))
    {
      ghost var x := ExtractField(port.input, begin, end);
      ghost var buf := if dest == null then [] else dest[..];
      if destSize > 0 {
        dest[0] := '\0';
      }
      var started := false;
      var i := 0;
      ghost var taken: string := [];
      while true
        invariant started || taken == []
        invariant var y := ExtractFrom(port.input, begin, end, started);
          x == Extraction(y.ok, taken + y.field, y.rest)
        invariant port.output == old(port.output)
        invariant i == Min(|taken|, Room(destSize))
        invariant dest != null ==> dest[..] == Stored(buf, taken, destSize)
        decreases |port.input|
      {
        ghost var y := ExtractFrom(port.input, begin, end, started);
        if started && Head(port.input).Byte? && Head(port.input).c != end {
          InsideStep(port.input, begin, end, taken);
        }
        var e := port.Receive();
        match e
        case Gap =>
          assert taken + y.field == taken;
          return false;
        case Byte(c) =>
          if !started {
            if c == begin {
              started := true;
            }
          } else if c == end {
            assert taken + y.field == taken;
            return true;
          } else {
            i := Put(dest, destSize, i, c, buf, taken);
            taken := taken + [c];
          }
      }
    }

    /** One field character into `dest` at `i`, followed by the terminator,
        when the buffer has room for both; otherwise dropped. */
    static method Put(dest: array?<char>, destSize: int, i: int, c: char, ghost buf: seq<char>, ghost taken: string)
      returns (next: int)
      requires dest == null ==> destSize <= 0
      requires dest != null ==> destSize <= dest.Length == |buf|
      requires i == Min(|taken|, Room(destSize))
      requires dest != null ==> dest[..] == Stored(buf, taken, destSize)
      modifies dest
      ensures next == Min(|taken| + 1, Room(destSize))
      ensures dest != null ==> dest[..] == Stored(buf, taken + [c], destSize)
    {
      next := i;
      if i < destSize - 1 {
        StoredGrows(buf, taken, c, destSize);
        dest[i] := c;
        next := i + 1;
        dest[next] := '\0';
      } else if dest != null {
        StoredGrows(buf, taken, c, destSize);
      }
    }

    /** `_flushSerial`: wait for the reply to start, then read and drop
        bytes until a pause. */
    method FlushSerial()
      modifies port
      ensures port.input == AfterFirstGap(old(port.input)) && port.output == old(port.output)
    {
      var e := port.Peek();
      if e.Gap? {
        e := port.Receive();
        return;
      }
      while true
        invariant AfterFirstGap(port.input) == AfterFirstGap(old(port.input))
        invariant port.output == old(port.output)
        decreases |port.input|
      {
        e := port.Receive();
        if e.Gap? {
          return;
        }
      }
    }

    /** A command line, its acknowledgement, and the drain that follows. */
    method Ask(command: string, marker: string) returns (ok: bool)
      requires marker != []
      modifies port
      ensures Reply(ok, Link()) == Exchange(old(Link()), command, marker)
    {
      port.Println(command);
      ok := FindLabel(marker);
      if ok {
        FlushSerial();
      }
    }

    /** One configuration step of `Init`. */
    method ConfigStep(k: nat)
      requires k < |ConfigSteps|
      modifies this, port
      ensures Setup(Link(), console) == Apply(old(Setup(Link(), console)), ConfigSteps[k])
      ensures available == old(available)
    {
      MarkersNonEmpty();
      var step := ConfigSteps[k];
      var ok := Ask(step.command, step.marker);
      if !ok {
        console := console + [step.warning];
      }
    }

    /** `Init`: drain, then probe up to ten times; the first probe answered
        OK is followed by the configuration and a delete-all, and makes the
        driver available. */
    method Init()
      modifies this, port
      ensures var b := InitSpec(old(Link()), old(console));
        available == b.available && Link() == b.wire && console == b.log
    {
      ghost var spec := InitSpec(Link(), console);
      available := false;
      FlushSerial();
      ghost var all := Attempts(Link(), MaxInitRetries, 0, console);
      var retries := 0;
      while retries < MaxInitRetries && !available
        invariant 0 <= retries <= MaxInitRetries
        invariant !available ==> Attempts(Link(), MaxInitRetries - retries, retries, console) == all
        invariant available ==> all == Boot(true, Link(), retries, console)
      {
        console := console + [WaitingNotice];
        var probed := Ask(ProbeCommand, LabelOk);
        retries := retries + 1;
        if probed {
          SetUpModem();
        }
      }
      if available {
        console := console + [ReadyNotice];
      } else {
        console := console + [AbsentNotice];
      }
    }

    /** The seven configuration steps of `Init`, in source order. */
    method ConfigureModem()
      modifies this, port
      ensures Setup(Link(), console) == Configure(old(Setup(Link(), console)), ConfigSteps)
      ensures available == old(available)
    {
      MarkersNonEmpty();
      ghost var s0 := Setup(Link(), console);
      ConfigStep(0);
      ConfigStep(1);
      ConfigStep(2);
      ConfigStep(3);
      ConfigStep(4);
      ConfigStep(5);
      ConfigStep(6);
      ConfiguredInSteps(s0);
    }

    /** The body of `Init` after a probe answered OK: the configuration,
        `available` set, then a delete-all whose failure is a warning. */
    method SetUpModem()
      modifies this, port
      ensures Setup(Link(), console) == Provision(old(Setup(Link(), console)))
      ensures available
    {
      MarkersNonEmpty();
      ConfigureModem();
      available := true;
      var cleaned := DelAllSMS();
      if !cleaned {
        console := console + [CleanupWarning];
      }
    }

    /** `Reset`: full functionality restart of the modem. */
    method Reset() returns (ok: bool)
      modifies port
      ensures !available ==> !ok && unchanged(port)
      ensures available ==> Reply(ok, Link()) == Exchange(old(Link()), ResetCommand, LabelOk)
    {
      if !available {
        return false;
      }
      ok := Ask(ResetCommand, LabelOk);
    }

    /** `GetDateTime`, returning -1 where the source returns nothing. */
    method GetDateTime() returns (t: int)
      modifies port
      ensures !available ==> t == -1 && unchanged(port)
      ensures available ==> Reading(t, Link()) == ClockQuery(old(Link()), mktime)
    {
      if !available {
        return -1;
      }
      port.Println(ClockCommand);
      var found := FindLabel(LabelCclk);
      if !found {
        return -1;
      }
      var tmp := new char[StampBufferLength];
      ghost var garbage := tmp[..];
      var ok := FetchField(tmp, StampBufferLength, '"', '"');
      if !ok {
        return -1;
      }
      FlushSerial();
      ghost var x := ExtractField(SearchLabel(old(port.input), LabelCclk).rest, '"', '"');
      StoredText(garbage, x.field, StampBufferLength);
      t := StringToUTC(CStr(tmp[..]), mktime);
    }

    /** `GetNewSMSIndex`. */
    method GetNewSMSIndex() returns (index: int)
      modifies port
      ensures !available ==> index == -1 && unchanged(port)
      ensures available ==> Count(index, Link()) == NewIndex(old(Link()))
    {
      if !available {
        return -1;
      }
      port.Println(ListCommand);
      var found := FindLabel(LabelCmgl);
      if !found {
        return -1;
      }
      var tmp := new char[IndexBufferLength];
      ghost var garbage := tmp[..];
      var ok := FetchField(tmp, IndexBufferLength, ' ', ',');
      if !ok {
        return -1;
      }
      FlushSerial();
      ghost var x := ExtractField(SearchLabel(old(port.input), LabelCmgl).rest, ' ', ',');
      StoredText(garbage, x.field, IndexBufferLength);
      index := Atoi(CStr(tmp[..]));
    }

    /** `ReadSMSByIndex`: the fields of the reply fill in `sms`; the read
        stops at the first field that does not close. */
    method ReadSMSByIndex(index: uint8) returns (ok: bool)
      requires Valid()
      modifies port, sms, sms.sender, sms.message
      ensures Valid()
      ensures !available ==> !ok && unchanged(port) && unchanged(sms, sms.sender, sms.message)
      ensures available ==> Retrieval(ok, Link(), sms.Contents()) == ReadAt(old(Link()), index, old(sms.Contents()), mktime)
    {
      if !available {
        return false;
      }
      ghost var w := Link();
      ghost var rec := sms.Contents();
      port.Print("AT+CMGR=");
      port.Println(Decimal(index as nat));
      assert port.output == w.output + ReadCommand(index) + CRLF by {
        assert w.output + "AT+CMGR=" + Decimal(index as nat) == w.output + ReadCommand(index);
      }
      var found := FindLabel(LabelCmgr);
      if found {
        ok := ReadHeader();
        if ok {
          FlushSerial();
        }
      } else {
        ok := false;
      }
      ReadKeepsBounds(w, index, rec, mktime);
    }

    /** The part of `ReadSMSByIndex` after "+CMGR:": the status, skipped,
        and the sender, copied into its buffer, then the rest. */
    method ReadHeader() returns (ok: bool)
      requires sms.message != sms.sender
      requires sms.sender.Length == SenderMaxLength && sms.message.Length == MessageMaxLength
      modifies port, sms, sms.sender, sms.message
      ensures var f := HeaderFields(old(port.input), old(sms.Contents()), mktime);
        && ok == f.ok && port.input == f.rest && port.output == old(port.output)
        && sms.Contents() == f.record
    {
      ok := FetchField(null, 0, '"', '"');
      if !ok {
        return false;
      }
      ok := FetchField(sms.sender, SenderMaxLength, '"', '"');
      if !ok {
        return false;
      }
      ok := ReadStampAndBody();
    }

    /** The part of `ReadSMSByIndex` after the sender: the name, skipped,
        the timestamp, decoded into `dateTime`, and the body. */
    method ReadStampAndBody() returns (ok: bool)
      requires sms.message != sms.sender
      requires sms.sender.Length == SenderMaxLength && sms.message.Length == MessageMaxLength
      modifies port, sms, sms.message
      ensures var f := StampFields(old(port.input), old(sms.Contents()), mktime);
        && ok == f.ok && port.input == f.rest && port.output == old(port.output)
        && sms.Contents() == f.record
    {
      ok := FetchField(null, 0, '"', '"');
      if !ok {
        return false;
      }
      var tmp := new char[StampBufferLength];
      ghost var garbage := tmp[..];
      ok := FetchField(tmp, StampBufferLength, '"', '"');
      if !ok {
        return false;
      }
      ghost var x := ExtractField(ExtractField(old(port.input), '"', '"').rest, '"', '"');
      StoredText(garbage, x.field, StampBufferLength);
      sms.dateTime := StringToUTC(CStr(tmp[..]), mktime);
      ok := FetchField(sms.message, MessageMaxLength, '\n', '\r');
    }

    /** `ReadNewSMS`, returning false where the source returns nothing: the
        first listed message is read and then deleted. */
    method ReadNewSMS() returns (ok: bool)
      requires Valid()
      modifies port, sms, sms.sender, sms.message
      ensures Valid()
      ensures !available ==> !ok && unchanged(port) && unchanged(sms, sms.sender, sms.message)
      ensures available ==> Retrieval(ok, Link(), sms.Contents()) == ReadNew(old(Link()), old(sms.Contents()), mktime)
    {
      if !available {
        return false;
      }
      var index := GetNewSMSIndex();
      if index > 0 {
        var read := ReadSMSByIndex(Narrow(index));
        if read {
          ok := DelSMSByIndex(Narrow(index));
        } else {
          ok := false;
        }
      } else {
        ok := false;
      }
    }

    /** `_sendSMS`: the send command, the prompt, the body and control-Z,
        then the acknowledgement. */
    method SendText(dest: string, text: string) returns (ok: bool)
      modifies port
      ensures !available ==> !ok && unchanged(port)
      ensures available ==> Reply(ok, Link()) == Send(old(Link()), dest, text)
    {
      if !available {
        return false;
      }
      ghost var w := Link();
      port.Print("AT+CMGS=\"");
      port.Print(CStr(dest));
      port.Println("\"");
      ghost var out := w.output + SendCommand(dest) + CRLF;
      assert port.output == out;
      ghost var prompt := SearchLabel(w.input, LabelReadyToReceive);
      var found := FindLabel(LabelReadyToReceive);
      if !found {
        return false;
      }
      FlushSerial();
      assert port.input == AfterFirstGap(prompt.rest);
      port.Println(CStr(text));
      port.Print([CtrlZ]);
      assert port.output == out + CStr(text) + CRLF + [CtrlZ];
      ok := FindLabel(LabelOk);
      if ok {
        FlushSerial();
      }
    }

    /** `SendSMS`, for any of its four overloads. */
    method SendSMS(dest: string, text: string) returns (ok: bool)
      modifies port
      ensures !available ==> !ok && unchanged(port)
      ensures available ==> Reply(ok, Link()) == Send(old(Link()), dest, text)
    {
      ok := SendText(dest, text);
    }

    /** `ForwardSMS`: sends the text held in the message buffer. */
    method ForwardSMS(dest: string) returns (ok: bool)
      modifies port
      ensures !available ==> !ok && unchanged(port)
      ensures available ==> Reply(ok, Link()) == Send(old(Link()), dest, sms.message[..])
    {
      ok := SendText(dest, sms.message[..]);
    }

    /** `DelSMSByIndex`. */
    method DelSMSByIndex(index: uint8) returns (ok: bool)
      modifies port
      ensures !available ==> !ok && unchanged(port)
      ensures available ==> Reply(ok, Link()) == Exchange(old(Link()), DeleteCommand(index), LabelOk)
    {
      if !available {
        return false;
      }
      port.Print("AT+CMGD=");
      port.Println(Decimal(index as nat));
      ok := FindLabel(LabelOk);
      if ok {
        FlushSerial();
      }
    }

    /** `DelAllSMS`. */
    method DelAllSMS() returns (ok: bool)
      modifies port
      ensures !available ==> !ok && unchanged(port)
      ensures available ==> Reply(ok, Link()) == Exchange(old(Link()), DeleteAllCommand, LabelOk)
    {
      if !available {
        return false;
      }
      ok := Ask(DeleteAllCommand, LabelOk);
    }
  }

}
