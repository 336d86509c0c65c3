/** What each driver operation sends to the modem and makes of the reply,
    as functions of the link: the events still to be received and what has
    been written so far. The class in module Driver runs these exchanges
    step by step; its methods are proved to agree with the functions here,
    and the properties of the operations are proved here, on the functions. */
module Protocol {
  import opened Transport
  import opened CText
  import opened Scanner
  import opened Timestamp

  // Markers searched for in the modem's replies.
  const LabelOk: string := "OK"
  const LabelReadyToReceive: string := ">"
  const LabelCmgl: string := "+CMGL:"
  const LabelCmgr: string := "+CMGR:"
  const LabelCpms: string := "+CPMS:"
  const LabelCclk: string := "+CCLK:"

  const MaxInitRetries: nat := 10
  /** 160 characters and the terminator. */
  const MessageMaxLength: nat := 161
  /** 14 characters and the terminator. */
  const SenderMaxLength: nat := 15
  /** Scratch buffer for a timestamp: 20 characters and the terminator. */
  const StampBufferLength: nat := 21
  /** Scratch buffer for a message index: 3 digits and the terminator. */
  const IndexBufferLength: nat := 4
  /** Ends the body of a message (control-Z). */
  const CtrlZ: char := 26 as char

  const ProbeCommand: string := "AT"
  const ResetCommand: string := "AT+CFUN=1,1"
  const ClockCommand: string := "AT+CCLK?"
  const ListCommand: string := "AT+CMGL=\"ALL\",0"
  const DeleteAllCommand: string := "AT+CMGDA=\"DEL ALL\""

  function ReadCommand(index: uint8): string { "AT+CMGR=" + Decimal(index as nat) }

  function DeleteCommand(index: uint8): string { "AT+CMGD=" + Decimal(index as nat) }

  /** The destination is printed as a C string: up to its first NUL. */
  function SendCommand(dest: string): string { "AT+CMGS=\"" + CStr(dest) + "\"" }

  /** A configuration step of `Init`: a command, the marker that
      acknowledges it, and the warning logged when it is not acknowledged. */
  datatype Step = Step(command: string, marker: string, warning: string)

  const ConfigSteps: seq<Step> := [
    Step("AT&F", LabelOk, "[Warning] Factory reset failed"),
    Step("AT+CSCS=\"GSM\"", LabelOk, "[Warning] CSCS failed"),
    Step("ATE0", LabelOk, "[Warning] Turn echo off failed"),
    Step("AT+CMEE=0", LabelOk, "[Warning] Error code configuration failed"),
    Step("AT+CMGF=1", LabelOk, "[Warning] SMS text mode setup failed"),
    Step("AT+CNMI=2,0", LabelOk, "[Warning] SMS notification disable failed"),
    Step("AT+CPMS=\"SM\",\"SM\",\"SM\"", LabelCpms, "[Warning] SMS Memory init failed")
  ]

  const CleanupWarning: string := "[Warning] SMS Memory Cleanup Failed"

  predicate Searchable(steps: seq<Step>)
  {
    forall k :: 0 <= k < |steps| ==> steps[k].marker != []
  }

  /** Every marker the driver searches for is non-empty, which the search
      needs: its cursor always points at a character of the marker. */
  lemma MarkersNonEmpty()
    ensures LabelOk != [] && LabelReadyToReceive != [] && LabelCmgl != []
    ensures LabelCmgr != [] && LabelCpms != [] && LabelCclk != []
    ensures Searchable(ConfigSteps)
  {
  }

  /** The link: events still to be received, characters written so far. */
  datatype Wire = Wire(input: seq<Event>, output: string)

  datatype Reply = Reply(ok: bool, wire: Wire)

  /** The pattern of `Reset`, `DelSMSByIndex`, `DelAllSMS`, the probe and
      each configuration step: write the command line, search for the
      marker, and on success drain the rest of the reply. */
  function Exchange(w: Wire, command: string, marker: string): Reply
    requires marker != []
  {
    var s := SearchLabel(w.input, marker);
    Reply(s.found, Wire(if s.found then AfterFirstGap(s.rest) else s.rest, w.output + command + CRLF))
  }

  /** Whatever the reply, the command line is written exactly once, and at
      least one event is taken unless the queue is dry. */
  lemma ExchangeWrites(w: Wire, command: string, marker: string)
    requires marker != []
    ensures var r := Exchange(w, command, marker);
      && r.wire.output == w.output + command + CRLF
      && (|r.wire.input| < |w.input| || (w.input == [] && r.wire.input == []))
  {
  }

  /** A reply that carries the marker after bytes that cannot start it
      acknowledges the command, and it is consumed up to the pause that ends
      it, no further. */
  lemma ExchangeAcked(w: Wire, command: string, marker: string, lead: string, tail: string, more: seq<Event>)
    requires marker != [] && marker[0] !in lead
    requires w.input == Bytes(lead) + Bytes(marker) + Bytes(tail) + [Gap] + more
    ensures Exchange(w, command, marker) == Reply(true, Wire(more, w.output + command + CRLF))
  {
    assert w.input == Bytes(lead) + Bytes(marker) + (Bytes(tail) + [Gap] + more);
    SearchFindsLabel(lead, marker, Bytes(tail) + [Gap] + more);
    DrainReply(tail, more);
  }

  /** A reply without the marker's last character before its first pause
      is not an acknowledgement; the command line has been written anyway. */
  lemma ExchangeUnanswered(w: Wire, command: string, marker: string)
    requires marker != []
    requires forall j :: 0 <= j < |w.input| && ByteRun(w.input, j) ==> w.input[j] != Byte(marker[|marker| - 1])
    ensures !Exchange(w, command, marker).ok
    ensures Exchange(w, command, marker).wire.output == w.output + command + CRLF
  {
    AbsentLabelNotFound(w.input, marker);
  }

  /** A modem reply consisting of the marker on a line of its own. */
  function Answer(marker: string): seq<Event>
  {
    Bytes(CRLF) + Bytes(marker) + Bytes(CRLF) + [Gap]
  }

  lemma AnswerAcks(w: Wire, command: string, marker: string, more: seq<Event>)
    requires marker != [] && marker[0] !in CRLF
    requires w.input == Answer(marker) + more
    ensures Exchange(w, command, marker) == Reply(true, Wire(more, w.output + command + CRLF))
  {
    ExchangeAcked(w, command, marker, CRLF, CRLF, more);
  }

  /** Issuing `DelAllSMS` twice against a modem that answers OK both times
      succeeds both times and writes the command twice. */
  lemma DeleteAllTwice(w: Wire, more: seq<Event>)
    requires w.input == Answer(LabelOk) + Answer(LabelOk) + more
    ensures var first := Exchange(w, DeleteAllCommand, LabelOk);
            var second := Exchange(first.wire, DeleteAllCommand, LabelOk);
            first.ok && second.ok
            && second.wire == Wire(more, w.output + DeleteAllCommand + CRLF + DeleteAllCommand + CRLF)
  {
    assert w.input == Answer(LabelOk) + (Answer(LabelOk) + more);
    AnswerAcks(w, DeleteAllCommand, LabelOk, Answer(LabelOk) + more);
    var first := Exchange(w, DeleteAllCommand, LabelOk);
    AnswerAcks(first.wire, DeleteAllCommand, LabelOk, more);
  }

  // ---------------------------------------------------------------------
  // Init

  // Lines `Init` writes to the debug console (`_serialPrint`), without the
  // "[LWSIM800] " prefix.
  const WaitingNotice: string := "Waiting for the GSM Module"
  const ReadyNotice: string := "GSM Module Ready"
  const AbsentNotice: string := "GSM Module not available"

  /** The link and the console lines written so far. */
  datatype Setup = Setup(wire: Wire, log: seq<string>)

  /** One configuration step: the command; a warning when it is not
      acknowledged. */
  function Apply(s: Setup, step: Step): Setup
    requires step.marker != []
  {
    var r := Exchange(s.wire, step.command, step.marker);
    Setup(r.wire, if r.ok then s.log else s.log + [step.warning])
  }

  /** Whatever the reply, a step writes its command line and logs at most
      its own warning. */
  lemma ApplyWrites(s: Setup, step: Step)
    requires step.marker != []
    ensures var a := Apply(s, step);
      && a.wire.output == s.wire.output + step.command + CRLF
      && (a.log == s.log || a.log == s.log + [step.warning])
  {
  }

  /** The configuration steps, in order; a step that is not acknowledged
      only adds its warning. */
  function Configure(s: Setup, steps: seq<Step>): (c: Setup)
    requires Searchable(steps)
    decreases |steps|
  {
    if steps == [] then s else Configure(Apply(s, steps[0]), steps[1..])
  }

  lemma ConfigureStep(s: Setup, steps: seq<Step>, k: nat)
    requires Searchable(steps) && k < |steps|
    ensures Configure(s, steps[k..]) == Configure(Apply(s, steps[k]), steps[k + 1..])
  {
    assert steps[k..][0] == steps[k] && steps[k..][1..] == steps[k + 1..];
  }

  /** The configuration, one step after the other, as `Init` runs it. */
  lemma ConfiguredInSteps(s: Setup)
    ensures Configure(s, ConfigSteps)
         == Apply(Apply(Apply(Apply(Apply(Apply(Apply(s, ConfigSteps[0]), ConfigSteps[1]), ConfigSteps[2]),
                                    ConfigSteps[3]), ConfigSteps[4]), ConfigSteps[5]), ConfigSteps[6])
  {
    MarkersNonEmpty();
    var s1 := Apply(s, ConfigSteps[0]);
    var s2 := Apply(s1, ConfigSteps[1]);
    var s3 := Apply(s2, ConfigSteps[2]);
    var s4 := Apply(s3, ConfigSteps[3]);
    var s5 := Apply(s4, ConfigSteps[4]);
    var s6 := Apply(s5, ConfigSteps[5]);
    ConfigureStep(s, ConfigSteps, 0);
    ConfigureStep(s1, ConfigSteps, 1);
    ConfigureStep(s2, ConfigSteps, 2);
    ConfigureStep(s3, ConfigSteps, 3);
    ConfigureStep(s4, ConfigSteps, 4);
    ConfigureStep(s5, ConfigSteps, 5);
    ConfigureStep(s6, ConfigSteps, 6);
    assert ConfigSteps[0..] == ConfigSteps && ConfigSteps[7..] == [];
  }

  /** The command lines of a list of steps. */
  function Lines(steps: seq<Step>): string
    decreases |steps|
  {
    if steps == [] then [] else steps[0].command + CRLF + Lines(steps[1..])
  }

  /** `m` is the warning of one of the steps. */
  predicate Warns(steps: seq<Step>, m: string)
  {
    exists k :: 0 <= k < |steps| && steps[k].warning == m
  }

  /** Whatever the modem answers, the configuration writes every command
      line once, in order, and adds to the console at most one warning per
      step, each the warning of a step. */
  lemma {:induction false} ConfigureWrites(s: Setup, steps: seq<Step>)
    requires Searchable(steps)
    ensures var c := Configure(s, steps);
      && c.wire.output == s.wire.output + Lines(steps)
      && |s.log| <= |c.log| <= |s.log| + |steps| && s.log <= c.log
      && forall i :: |s.log| <= i < |c.log| ==> Warns(steps, c.log[i])
    decreases |steps|
  {
    if steps != [] {
      var a := Apply(s, steps[0]);
      ConfigureWrites(a, steps[1..]);
      var c := Configure(s, steps);
      assert c == Configure(a, steps[1..]);
      forall i | |s.log| <= i < |c.log|
        ensures Warns(steps, c.log[i])
      {
        if i < |a.log| {
          assert c.log[i] == c.log[..|a.log|][i] == steps[0].warning;
        } else {
          var k :| 0 <= k < |steps[1..]| && steps[1..][k].warning == c.log[i];
          assert steps[k + 1].warning == c.log[i];
        }
      }
    }
  }

  /** Replies that acknowledge each step in turn. */
  function Answers(steps: seq<Step>): seq<Event>
    decreases |steps|
  {
    if steps == [] then [] else Answer(steps[0].marker) + Answers(steps[1..])
  }

  lemma {:induction false} ConfigureAcked(s: Setup, steps: seq<Step>, more: seq<Event>)
    requires Searchable(steps)
    requires forall k :: 0 <= k < |steps| ==> steps[k].marker[0] !in CRLF
    requires s.wire.input == Answers(steps) + more
    ensures Configure(s, steps) == Setup(Wire(more, s.wire.output + Lines(steps)), s.log)
    decreases |steps|
  {
    if steps == [] {
      assert s.wire.input == more;
    } else {
      var rest := Answers(steps[1..]) + more;
      assert s.wire.input == Answer(steps[0].marker) + rest;
      ApplyAcked(s, steps[0], rest);
      var a := Setup(Wire(rest, s.wire.output + steps[0].command + CRLF), s.log);
      ConfigureAcked(a, steps[1..], more);
      LinesFirst(s.wire.output, steps);
    }
  }

  lemma LinesFirst(out: string, steps: seq<Step>)
    requires steps != []
    ensures (out + steps[0].command + CRLF) + Lines(steps[1..]) == out + Lines(steps)
  {
  }

  /** An acknowledged step: its command is written and its answer
      consumed, and the console is left as it was. */
  lemma ApplyAcked(s: Setup, step: Step, rest: seq<Event>)
    requires step.marker != [] && step.marker[0] !in CRLF
    requires s.wire.input == Answer(step.marker) + rest
    ensures Apply(s, step) == Setup(Wire(rest, s.wire.output + step.command + CRLF), s.log)
  {
    AnswerAcks(s.wire, step.command, step.marker, rest);
  }

  /** What follows a successful probe: the configuration steps, then the
      removal of every stored message. */
  function Provision(s: Setup): (r: Setup)
  {
    MarkersNonEmpty();
    var c := Configure(s, ConfigSteps);
    var d := Exchange(c.wire, DeleteAllCommand, LabelOk);
    Setup(d.wire, if d.ok then c.log else c.log + [CleanupWarning])
  }

  /** What a successful probe is followed by on the wire. */
  function SetupLines(): string
  {
    Lines(ConfigSteps) + DeleteAllCommand + CRLF
  }

  /** A console line `Init` writes when a step after the probe fails. */
  predicate IsWarning(m: string)
  {
    Warns(ConfigSteps, m) || m == CleanupWarning
  }

  /** Whatever the modem answers, provisioning writes the seven commands and
      the delete-all. */
  lemma ProvisionWrites(s: Setup)
    ensures Provision(s).wire.output == s.wire.output + SetupLines()
  {
    MarkersNonEmpty();
    ConfigureWrites(s, ConfigSteps);
  }

  /** Whatever the modem answers, provisioning adds at most one warning for
      each of its eight steps to the console, and nothing else. */
  lemma ProvisionWarns(s: Setup)
    ensures var c := Provision(s);
      && |s.log| <= |c.log| <= |s.log| + |ConfigSteps| + 1 && s.log <= c.log
      && forall i :: |s.log| <= i < |c.log| ==> IsWarning(c.log[i])
  {
    MarkersNonEmpty();
    ConfigureWrites(s, ConfigSteps);
    var c := Configure(s, ConfigSteps);
    var p := Provision(s);
    assert c.log <= p.log;
    forall i | |s.log| <= i < |p.log|
      ensures IsWarning(p.log[i])
    {
      if i < |c.log| {
        assert p.log[i] == c.log[i];
      }
    }
  }

  /** Outcome of `Init`: whether the driver is available, the link, the
      number of probes sent, and the console lines. */
  datatype Boot = Boot(available: bool, wire: Wire, probes: nat, log: seq<string>)

  /** The probe loop after `tried` probes, with `left` to go. A probe
      answered OK is followed by the configuration, by `available` becoming
      true whatever the configuration gave, and by one `DelAllSMS`; then the
      loop stops. */
  function Attempts(w: Wire, left: nat, tried: nat, log: seq<string>): (b: Boot)
    ensures tried <= b.probes <= tried + left
    ensures b.available ==> tried < b.probes
    decreases left
  {
    if left == 0 then Boot(false, w, tried, log)
    else
      var log' := log + [WaitingNotice];
      var p := Exchange(w, ProbeCommand, LabelOk);
      if p.ok then
        var c := Provision(Setup(p.wire, log'));
        Boot(true, c.wire, tried + 1, c.log)
      else Attempts(p.wire, left - 1, tried + 1, log')
  }

  /** `Init`: drain what the modem has sent so far, probe, and report the
      outcome on the console. */
  function InitSpec(w: Wire, log: seq<string>): (r: Boot)
  {
    var b := Attempts(Wire(AfterFirstGap(w.input), w.output), MaxInitRetries, 0, log);
    b.(log := b.log + [if b.available then ReadyNotice else AbsentNotice])
  }

  /** `n` copies of a line. */
  function Repeat(line: string, n: nat): string
  {
    if n == 0 then [] else line + Repeat(line, n - 1)
  }

  function Waits(n: nat): seq<string>
  {
    seq(n, _ => WaitingNotice)
  }

  lemma WaitsStep(log: seq<string>, n: nat)
    ensures log + [WaitingNotice] + Waits(n) == log + Waits(n + 1)
  {
    assert [WaitingNotice] + Waits(n) == Waits(n + 1);
  }

  /** Unanswered probes: all are sent, each announced on the console. */
  lemma {:induction false} AttemptsUnanswered(w: Wire, left: nat, tried: nat, log: seq<string>)
    ensures var b := Attempts(w, left, tried, log);
      !b.available ==> b.probes == tried + left && b.log == log + Waits(left)
    decreases left
  {
    if left > 0 {
      var p := Exchange(w, ProbeCommand, LabelOk);
      if !p.ok {
        AttemptsUnanswered(p.wire, left - 1, tried + 1, log + [WaitingNotice]);
        WaitsStep(log, left - 1);
      }
    }
  }

  /** After an answered probe, the console holds what it held, one waiting
      line per probe, and then warnings only, at most one per step. */
  lemma {:induction false} AttemptsAnswered(w: Wire, left: nat, tried: nat, log: seq<string>)
    ensures var b := Attempts(w, left, tried, log); var n := b.probes - tried;
      b.available ==>
        && |log| + n <= |b.log| <= |log| + n + |ConfigSteps| + 1
        && log <= b.log
        && (forall i :: |log| <= i < |log| + n ==> b.log[i] == WaitingNotice)
        && forall i :: |log| + n <= i < |b.log| ==> IsWarning(b.log[i])
    decreases left
  {
    if left > 0 {
      var p := Exchange(w, ProbeCommand, LabelOk);
      if p.ok {
        FirstProbeAnswered(w, left, tried, log);
      } else {
        AttemptsAnswered(p.wire, left - 1, tried + 1, log + [WaitingNotice]);
      }
    }
  }

  /** The probe that is answered: one waiting line, then the warnings of
      what follows it. */
  lemma FirstProbeAnswered(w: Wire, left: nat, tried: nat, log: seq<string>)
    requires left > 0 && Exchange(w, ProbeCommand, LabelOk).ok
    ensures var b := Attempts(w, left, tried, log);
      && b.available && b.probes == tried + 1
      && |log| + 1 <= |b.log| <= |log| + 1 + |ConfigSteps| + 1
      && log <= b.log && b.log[|log|] == WaitingNotice
      && forall i :: |log| + 1 <= i < |b.log| ==> IsWarning(b.log[i])
  {
    var log' := log + [WaitingNotice];
    var p := Exchange(w, ProbeCommand, LabelOk);
    ProvisionWarns(Setup(p.wire, log'));
  }

  /** `out` is `start` followed by `n` probe lines and, when a probe was
      answered, the setup lines. */
  predicate Transcribed(start: string, n: nat, answered: bool, out: string)
  {
    out == start + Repeat(ProbeCommand + CRLF, n) + (if answered then SetupLines() else [])
  }

  /** On the wire: one probe line per attempt, then, if a probe was
      answered, what follows it. */
  lemma {:induction false} AttemptsOutput(w: Wire, left: nat, tried: nat, log: seq<string>)
    ensures var b := Attempts(w, left, tried, log);
      Transcribed(w.output, b.probes - tried, b.available, b.wire.output)
    decreases left
  {
    var line := ProbeCommand + CRLF;
    if left > 0 {
      var p := Exchange(w, ProbeCommand, LabelOk);
      if p.ok {
        FirstProbeOutput(w, left, tried, log);
      } else {
        assert p.wire.output == w.output + line;
        AttemptsOutput(p.wire, left - 1, tried + 1, log + [WaitingNotice]);
        var b := Attempts(p.wire, left - 1, tried + 1, log + [WaitingNotice]);
        assert Attempts(w, left, tried, log) == b;
        RepeatStep(w.output, line, b.probes - tried - 1, if b.available then SetupLines() else []);
      }
    }
  }

  lemma RepeatStep(out: string, line: string, n: nat, tail: string)
    ensures out + line + Repeat(line, n) + tail == out + Repeat(line, n + 1) + tail
  {
    assert out + line + Repeat(line, n) == out + Repeat(line, n + 1);
  }

  /** The probe that is answered is followed by the setup lines. */
  lemma FirstProbeOutput(w: Wire, left: nat, tried: nat, log: seq<string>)
    requires left > 0 && Exchange(w, ProbeCommand, LabelOk).ok
    ensures var b := Attempts(w, left, tried, log);
      b.available && b.probes == tried + 1
      && b.wire.output == w.output + Repeat(ProbeCommand + CRLF, 1) + SetupLines()
  {
    var p := Exchange(w, ProbeCommand, LabelOk);
    assert p.wire.output == w.output + ProbeCommand + CRLF;
    ProvisionWrites(Setup(p.wire, log + [WaitingNotice]));
    assert Repeat(ProbeCommand + CRLF, 1) == ProbeCommand + CRLF;
  }

  /** `Init` sends at most ten probes, and all ten unless one is answered,
      in which case the driver is available. */
  lemma InitProbes(w: Wire, log: seq<string>)
    ensures var b := InitSpec(w, log);
      && 1 <= b.probes <= MaxInitRetries
      && (!b.available ==> b.probes == MaxInitRetries)
  {
    var w0 := Wire(AfterFirstGap(w.input), w.output);
    AttemptsUnanswered(w0, MaxInitRetries, 0, log);
    InitIsAttempts(w, log);
  }

  /** What `Init` writes to the modem: one probe per attempt, and after the
      first probe answered OK the seven configuration commands and a single
      delete-all, then nothing more. */
  lemma InitTranscript(w: Wire, log: seq<string>)
    ensures var b := InitSpec(w, log);
      b.wire.output == w.output + Repeat(ProbeCommand + CRLF, b.probes)
                                + (if b.available then SetupLines() else [])
  {
    var w0 := Wire(AfterFirstGap(w.input), w.output);
    AttemptsOutput(w0, MaxInitRetries, 0, log);
    InitIsAttempts(w, log);
    var a := Attempts(w0, MaxInitRetries, 0, log);
    assert Transcribed(w.output, a.probes, a.available, a.wire.output);
  }

  /** `Init` is the probe loop on the drained link, followed by the outcome
      line on the console. */
  lemma InitIsAttempts(w: Wire, log: seq<string>)
    ensures var a := Attempts(Wire(AfterFirstGap(w.input), w.output), MaxInitRetries, 0, log);
      InitSpec(w, log) == Boot(a.available, a.wire, a.probes, a.log + [if a.available then ReadyNotice else AbsentNotice])
  {
  }

  /** What `Init` writes to the console: one waiting line per probe, then,
      if a probe was answered, a warning at most for each of the eight steps
      that follow it, and last the outcome. */
  lemma InitConsole(w: Wire, log: seq<string>)
    ensures var b := InitSpec(w, log);
      && (!b.available ==> b.log == log + Waits(MaxInitRetries) + [AbsentNotice])
      && (b.available ==>
            && |log| + b.probes < |b.log| <= |log| + b.probes + |ConfigSteps| + 2
            && log <= b.log
            && (forall i :: |log| <= i < |log| + b.probes ==> b.log[i] == WaitingNotice)
            && b.log[|b.log| - 1] == ReadyNotice
            && forall i :: |log| + b.probes <= i < |b.log| - 1 ==> IsWarning(b.log[i]))
  {
    var w0 := Wire(AfterFirstGap(w.input), w.output);
    AttemptsUnanswered(w0, MaxInitRetries, 0, log);
    AttemptsAnswered(w0, MaxInitRetries, 0, log);
    var a := Attempts(w0, MaxInitRetries, 0, log);
    var b := InitSpec(w, log);
    if a.available {
      forall i | |log| + b.probes <= i < |b.log| - 1
        ensures IsWarning(b.log[i])
      {
        assert b.log[i] == a.log[i];
      }
    }
  }

  /** An OK to the first probe makes the driver available, however the
      configuration steps that follow fare: their failures are warnings. */
  lemma InitFirstProbeAnswered(w: Wire, log: seq<string>)
    requires Exchange(Wire(AfterFirstGap(w.input), w.output), ProbeCommand, LabelOk).ok
    ensures InitSpec(w, log).available && InitSpec(w, log).probes == 1
  {
  }

  /** A modem that answers every command: after whatever it sent before
      (drained first), one probe, the configuration and the delete-all
      succeed, no warning is logged, and nothing past the last answer is
      read. */
  lemma InitAllAnswered(w: Wire, log: seq<string>, banner: string, more: seq<Event>)
    requires w.input == Bytes(banner) + [Gap] + (Answer(LabelOk) + (Answers(ConfigSteps) + (Answer(LabelOk) + more)))
    ensures InitSpec(w, log)
         == Boot(true, Wire(more, w.output + ProbeCommand + CRLF + SetupLines()), 1, log + [WaitingNotice, ReadyNotice])
  {
    var rest := Answers(ConfigSteps) + (Answer(LabelOk) + more);
    DrainReply(banner, Answer(LabelOk) + rest);
    var w0 := Wire(Answer(LabelOk) + rest, w.output);
    AnswerAcks(w0, ProbeCommand, LabelOk, rest);
    var p := Exchange(w0, ProbeCommand, LabelOk);
    ProvisionAnswered(Setup(p.wire, log + [WaitingNotice]), more);
  }

  /** Each configuration marker starts with a character a line break does
      not contain. */
  lemma ConfigMarkersClear()
    ensures forall k :: 0 <= k < |ConfigSteps| ==> ConfigSteps[k].marker[0] !in CRLF
  {
    assert ConfigSteps[6].marker == LabelCpms;
  }

  lemma ProvisionAnswered(s: Setup, more: seq<Event>)
    requires s.wire.input == Answers(ConfigSteps) + (Answer(LabelOk) + more)
    ensures Provision(s) == Setup(Wire(more, s.wire.output + SetupLines()), s.log)
  {
    MarkersNonEmpty();
    ConfigMarkersClear();
    ConfigureAcked(s, ConfigSteps, Answer(LabelOk) + more);
    var c := Configure(s, ConfigSteps);
    AnswerAcks(c.wire, DeleteAllCommand, LabelOk, more);
  }

  // ---------------------------------------------------------------------
  // Listing

  datatype Count = Count(value: int, wire: Wire)

  /** `GetNewSMSIndex`: the number between the space and the comma after
      "+CMGL:", read through a four-char buffer; -1 when the marker or the
      field does not come. */
  function NewIndex(w: Wire): (r: Count)
    ensures r.wire.output == w.output + ListCommand + CRLF
    ensures |r.wire.input| < |w.input| || (w.input == [] && r.wire.input == [])
  {
    var out := w.output + ListCommand + CRLF;
    var s := SearchLabel(w.input, LabelCmgl);
    if !s.found then Count(-1, Wire(s.rest, out))
    else
      var x := ExtractField(s.rest, ' ', ',');
      if !x.ok then Count(-1, Wire(x.rest, out))
      else Count(Atoi(CStr(Kept(x.field, IndexBufferLength))), Wire(AfterFirstGap(x.rest), out))
  }

  /** The index is what `atoi` makes of at most three characters. */
  lemma NewIndexRange(w: Wire)
    ensures -99 <= NewIndex(w).value <= 999
  {
    var s := SearchLabel(w.input, LabelCmgl);
    if s.found {
      var x := ExtractField(s.rest, ' ', ',');
      AtoiBound(CStr(Kept(x.field, IndexBufferLength)), 3);
    }
  }

  /** A mailbox with nothing to list answers without "+CMGL:", and the
      result is then -1, not 0. */
  lemma EmptyMailbox(w: Wire, more: seq<Event>)
    requires w.input == Answer(LabelOk) + more
    ensures NewIndex(w).value == -1
  {
    var input := w.input;
    assert input[..7] == [Byte('\r'), Byte('\n'), Byte('O'), Byte('K'), Byte('\r'), Byte('\n'), Gap];
    forall j | 0 <= j < |input| && ByteRun(input, j)
      ensures input[j] != Byte(':')
    {
      assert input[6] == input[..7][6];
      assert j <= 6;
      assert input[j] == input[..7][j];
    }
    AbsentLabelNotFound(input, LabelCmgl);
  }

  /** A listing that opens with index n (three digits at most) yields n. */
  lemma ListingIndex(w: Wire, lead: string, n: nat, tail: string, more: seq<Event>)
    requires n < 1000 && '+' !in lead
    requires w.input == Bytes(lead) + Bytes(LabelCmgl) + Framed("", ' ', Decimal(n), ',') + Bytes(tail) + [Gap] + more
    ensures NewIndex(w) == Count(n, Wire(more, w.output + ListCommand + CRLF))
  {
    var after := Framed("", ' ', Decimal(n), ',') + (Bytes(tail) + [Gap] + more);
    assert w.input == Bytes(lead) + Bytes(LabelCmgl) + after;
    SearchFindsLabel(lead, LabelCmgl, after);
    ExtractFramed("", ' ', Decimal(n), ',', Bytes(tail) + [Gap] + more);
    DrainReply(tail, more);
    DecimalLength(n, 3);
    assert Kept(Decimal(n), IndexBufferLength) == Decimal(n);
    assert '\0' !in Decimal(n);
    NulFree(Decimal(n));
    AtoiDecimal(n);
  }

  // ---------------------------------------------------------------------
  // Reading a message

  /** The message record: the sender and message buffers, whole, and the
      time stamp. */
  datatype Record = Record(sender: seq<char>, message: seq<char>, dateTime: int)

  /** The buffers have their declared sizes and each holds a terminator. */
  predicate Sound(r: Record)
  {
    |r.sender| == SenderMaxLength && |r.message| == MessageMaxLength
    && '\0' in r.sender && '\0' in r.message
  }

  datatype Retrieval = Retrieval(ok: bool, wire: Wire, record: Record)

  /** What reading the fields of a reply gives: whether they all closed,
      what is left of the input, and the record as the fields left it. */
  datatype Fields = Fields(ok: bool, rest: seq<Event>, record: Record)

  /** `ReadSMSByIndex`: after "+CMGR:", four quoted fields (status and name
      skipped, sender copied into its buffer, timestamp into a scratch
      buffer and decoded), then the body between line feed and carriage
      return. The first field that does not close ends the read with false,
      and what earlier fields wrote stays written. */
  function ReadAt(w: Wire, index: uint8, rec: Record, mktime: Tm -> int): (r: Retrieval)
    requires |rec.sender| == SenderMaxLength && |rec.message| == MessageMaxLength
    ensures r.wire.output == w.output + ReadCommand(index) + CRLF
    ensures |r.wire.input| < |w.input| || (w.input == [] && r.wire.input == [])
    ensures |r.record.sender| == SenderMaxLength && |r.record.message| == MessageMaxLength
  {
    var out := w.output + ReadCommand(index) + CRLF;
    var s := SearchLabel(w.input, LabelCmgr);
    if !s.found then Retrieval(false, Wire(s.rest, out), rec)
    else
      var f := HeaderFields(s.rest, rec, mktime);
      Retrieval(f.ok, Wire(if f.ok then AfterFirstGap(f.rest) else f.rest, out), f.record)
  }

  /** The status and the sender. */
  function HeaderFields(input: seq<Event>, rec: Record, mktime: Tm -> int): (f: Fields)
    requires |rec.sender| == SenderMaxLength && |rec.message| == MessageMaxLength
    ensures |f.rest| <= |input|
    ensures |f.record.sender| == SenderMaxLength && |f.record.message| == MessageMaxLength
    ensures f.ok ==> |input| - |f.rest| >= 10
  {
    var status := ExtractField(input, '"', '"');
    if !status.ok then Fields(false, status.rest, rec)
    else
      var sender := ExtractField(status.rest, '"', '"');
      var rec1 := rec.(sender := Stored(rec.sender, sender.field, SenderMaxLength));
      if !sender.ok then Fields(false, sender.rest, rec1)
      else StampFields(sender.rest, rec1, mktime)
  }

  /** The name, the timestamp, then the body. */
  function StampFields(input: seq<Event>, rec: Record, mktime: Tm -> int): (f: Fields)
    requires |rec.sender| == SenderMaxLength && |rec.message| == MessageMaxLength
    ensures |f.rest| <= |input|
    ensures f.record.sender == rec.sender && |f.record.message| == MessageMaxLength
    ensures f.ok ==> |input| - |f.rest| >= 6
  {
    var name := ExtractField(input, '"', '"');
    if !name.ok then Fields(false, name.rest, rec)
    else
      var stamp := ExtractField(name.rest, '"', '"');
      if !stamp.ok then Fields(false, stamp.rest, rec)
      else
        var rec2 := rec.(dateTime := StringToUTC(CStr(Kept(stamp.field, StampBufferLength)), mktime));
        var body := ExtractField(stamp.rest, '\n', '\r');
        Fields(body.ok, body.rest, rec2.(message := Stored(rec2.message, body.field, MessageMaxLength)))
  }

  /** A terminated buffer of n chars holds a text of n - 1 chars at most. */
  lemma TerminatedText(buf: seq<char>)
    requires '\0' in buf
    ensures |CStr(buf)| < |buf|
  {
  }

  /** Whatever the modem sends, reading keeps both buffers terminated, so
      the sender's text never exceeds 14 characters nor the message's 160. */
  lemma ReadKeepsBounds(w: Wire, index: uint8, rec: Record, mktime: Tm -> int)
    requires Sound(rec)
    ensures Sound(ReadAt(w, index, rec, mktime).record)
    ensures |CStr(ReadAt(w, index, rec, mktime).record.sender)| <= SenderMaxLength - 1
    ensures |CStr(ReadAt(w, index, rec, mktime).record.message)| <= MessageMaxLength - 1
  {
    var r := ReadAt(w, index, rec, mktime).record;
    forall field: string | true
      ensures '\0' in Stored(rec.sender, field, SenderMaxLength)
      ensures '\0' in Stored(rec.message, field, MessageMaxLength)
    {
      StoredText(rec.sender, field, SenderMaxLength);
      StoredText(rec.message, field, MessageMaxLength);
    }
    TerminatedText(r.sender);
    TerminatedText(r.message);
  }

  /** The fields of a reply to "AT+CMGR=<index>" as the modem sends them,
      followed by `more`. */
  function CmgrFields(status: string, sender: string, name: string, stamp: string, eol: string, body: string,
                      more: seq<Event>): seq<Event>
  {
    Framed(" ", '"', status, '"') + (Framed(",", '"', sender, '"') + StampTail(name, stamp, eol, body, more))
  }

  function StampTail(name: string, stamp: string, eol: string, body: string, more: seq<Event>): seq<Event>
  {
    Framed(",", '"', name, '"') + (Framed(",", '"', stamp, '"') + (Framed(eol, '\n', body, '\r') + more))
  }

  /** Reading a well-formed reply: the sender and the body are copied,
      truncated to their buffers, the timestamp decoded (-1 when it is not
      laid out as the modem's clock format, which does not fail the read),
      and the reply is consumed up to the pause that ends it. */
  lemma {:induction false} ReadWellFormed(w: Wire, index: uint8, rec: Record, mktime: Tm -> int,
                                          lead: string, status: string, sender: string, name: string,
                                          stamp: string, eol: string, body: string, tail: string,
                                          more: seq<Event>)
    requires |rec.sender| == SenderMaxLength && |rec.message| == MessageMaxLength
    requires '+' !in lead && '"' !in status && '"' !in sender && '"' !in name && '"' !in stamp
    requires '\n' !in eol && '\r' !in body
    requires w.input == Bytes(lead) + Bytes(LabelCmgr)
                        + CmgrFields(status, sender, name, stamp, eol, body, Bytes(tail) + [Gap] + more)
    ensures var r := ReadAt(w, index, rec, mktime);
      && r.ok
      && r.wire == Wire(more, w.output + ReadCommand(index) + CRLF)
      && r.record.sender == Stored(rec.sender, sender, SenderMaxLength)
      && r.record.message == Stored(rec.message, body, MessageMaxLength)
      && r.record.dateTime == StringToUTC(CStr(Kept(stamp, StampBufferLength)), mktime)
      && (!LaidOut(CStr(Kept(stamp, StampBufferLength))) ==> r.record.dateTime == -1)
  {
    var m5 := Bytes(tail) + [Gap] + more;
    var m2 := StampTail(name, stamp, eol, body, m5);
    SearchFindsLabel(lead, LabelCmgr, CmgrFields(status, sender, name, stamp, eol, body, m5));
    HeaderWellFormed(rec, mktime, status, sender, m2);
    var rec1 := rec.(sender := Stored(rec.sender, sender, SenderMaxLength));
    StampWellFormed(rec1, mktime, name, stamp, eol, body, m5);
    DrainReply(tail, more);
  }

  lemma HeaderWellFormed(rec: Record, mktime: Tm -> int, status: string, sender: string, more: seq<Event>)
    requires |rec.sender| == SenderMaxLength && |rec.message| == MessageMaxLength
    requires '"' !in status && '"' !in sender
    ensures HeaderFields(Framed(" ", '"', status, '"') + (Framed(",", '"', sender, '"') + more), rec, mktime)
         == StampFields(more, rec.(sender := Stored(rec.sender, sender, SenderMaxLength)), mktime)
  {
    ExtractFramed(" ", '"', status, '"', Framed(",", '"', sender, '"') + more);
    ExtractFramed(",", '"', sender, '"', more);
  }

  lemma StampWellFormed(rec: Record, mktime: Tm -> int, name: string, stamp: string, eol: string, body: string,
                        more: seq<Event>)
    requires |rec.sender| == SenderMaxLength && |rec.message| == MessageMaxLength
    requires '"' !in name && '"' !in stamp && '\n' !in eol && '\r' !in body
    ensures StampFields(StampTail(name, stamp, eol, body, more), rec, mktime)
         == Fields(true, more, rec.(dateTime := StringToUTC(CStr(Kept(stamp, StampBufferLength)), mktime),
                                    message := Stored(rec.message, body, MessageMaxLength)))
  {
    var m2 := Framed(eol, '\n', body, '\r') + more;
    var m1 := Framed(",", '"', stamp, '"') + m2;
    ExtractFramed(",", '"', name, '"', m1);
    ExtractFramed(",", '"', stamp, '"', m2);
    ExtractFramed(eol, '\n', body, '\r', more);
  }

  /** No rollback: when the reply breaks off after the sender field, the
      read fails but the sender buffer keeps the new sender. */
  lemma ReadBreaksOffAfterSender(w: Wire, index: uint8, rec: Record, mktime: Tm -> int,
                                 lead: string, status: string, sender: string, junk: string,
                                 more: seq<Event>)
    requires |rec.sender| == SenderMaxLength && |rec.message| == MessageMaxLength
    requires '+' !in lead && '"' !in status && '"' !in sender && '"' !in junk
    requires w.input == Bytes(lead) + Bytes(LabelCmgr) + Framed(" ", '"', status, '"')
                        + Framed(",", '"', sender, '"') + Bytes(junk) + [Gap] + more
    ensures var r := ReadAt(w, index, rec, mktime);
      && !r.ok
      && r.record == rec.(sender := Stored(rec.sender, sender, SenderMaxLength))
      && r.wire == Wire(more, w.output + ReadCommand(index) + CRLF)
  {
    var m2 := Bytes(junk) + [Gap] + more;
    var m1 := Framed(",", '"', sender, '"') + m2;
    var m0 := Framed(" ", '"', status, '"') + m1;
    assert w.input == Bytes(lead) + Bytes(LabelCmgr) + m0;
    SearchFindsLabel(lead, LabelCmgr, m0);
    ExtractFramed(" ", '"', status, '"', m1);
    ExtractFramed(",", '"', sender, '"', m2);
    JunkThenPause(junk, '"', more);
  }

  /** A field that never opens before the pause: the extraction fails and
      takes the pause. */
  lemma {:induction false} JunkThenPause(junk: string, begin: char, more: seq<Event>)
    requires begin !in junk
    ensures ExtractField(Bytes(junk) + [Gap] + more, begin, begin) == Extraction(false, [], more)
  {
    var input := Bytes(junk) + [Gap] + more;
    if junk == [] {
      assert input == [Gap] + more;
    } else {
      assert input[0] == Byte(junk[0]);
      assert input[1..] == Bytes(junk[1..]) + [Gap] + more;
      JunkThenPause(junk[1..], begin, more);
    }
  }

  // ---------------------------------------------------------------------
  // Functions that can end without a return value

  /** How a C function body ends: with a `return` of a value, or by running
      off its end, after which the caller reads an undefined value. */
  datatype Exit<T> = Returns(value: T) | FallsOffEnd

  datatype ClockOutcome = ClockOutcome(exit: Exit<int>, wire: Wire)

  /** `GetDateTime` as written: when "+CCLK:" does not come, no branch
      returns. */
  function ClockQueryAsWritten(w: Wire, mktime: Tm -> int): (r: ClockOutcome)
    ensures r.wire.output == w.output + ClockCommand + CRLF
    ensures r.exit.FallsOffEnd? <==> !SearchLabel(w.input, LabelCclk).found
  {
    var out := w.output + ClockCommand + CRLF;
    var s := SearchLabel(w.input, LabelCclk);
    if !s.found then ClockOutcome(FallsOffEnd, Wire(s.rest, out))
    else
      var x := ExtractField(s.rest, '"', '"');
      if !x.ok then ClockOutcome(Returns(-1), Wire(x.rest, out))
      else ClockOutcome(Returns(StringToUTC(CStr(Kept(x.field, StampBufferLength)), mktime)),
                        Wire(AfterFirstGap(x.rest), out))
  }

  /** With the modem silent, `GetDateTime` as written returns nothing. */
  lemma ClockQueryFallsOffEnd(output: string, mktime: Tm -> int)
    ensures ClockQueryAsWritten(Wire([], output), mktime).exit == FallsOffEnd
  {
  }

  datatype Reading = Reading(value: int, wire: Wire)

  /** `GetDateTime` with -1 on the missing branch too, as for every other
      failure of the clock query. */
  function ClockQuery(w: Wire, mktime: Tm -> int): (r: Reading)
    ensures var a := ClockQueryAsWritten(w, mktime);
      && r.wire == a.wire
      && (a.exit.Returns? ==> r.value == a.exit.value)
      && (a.exit.FallsOffEnd? ==> r.value == -1)
  {
    var out := w.output + ClockCommand + CRLF;
    var s := SearchLabel(w.input, LabelCclk);
    if !s.found then Reading(-1, Wire(s.rest, out))
    else
      var x := ExtractField(s.rest, '"', '"');
      if !x.ok then Reading(-1, Wire(x.rest, out))
      else Reading(StringToUTC(CStr(Kept(x.field, StampBufferLength)), mktime), Wire(AfterFirstGap(x.rest), out))
  }

  /** The clock query reads back what the modem's clock reports: `mktime`
      of the decoded fields. */
  lemma ClockReads(w: Wire, mktime: Tm -> int, lead: string, yy: nat, mo: nat, dd: nat, hh: nat, mi: nat,
                   ss: nat, sign: char, zone: nat, tail: string, more: seq<Event>)
    requires yy < 100 && mo < 100 && dd < 100 && hh < 100 && mi < 100 && ss < 100 && zone < 100
    requires sign == '+' || sign == '-'
    requires '+' !in lead
    requires w.input == Bytes(lead) + Bytes(LabelCclk)
                        + Framed(" ", '"', Layout(yy, mo, dd, hh, mi, ss, sign, zone), '"')
                        + Bytes(tail) + [Gap] + more
    ensures ClockQuery(w, mktime)
         == Reading(mktime(Tm(130 + yy, mo - 1, dd, hh, mi, ss, -1)), Wire(more, w.output + ClockCommand + CRLF))
  {
    var stamp := Layout(yy, mo, dd, hh, mi, ss, sign, zone);
    var m1 := Bytes(tail) + [Gap] + more;
    var m0 := Framed(" ", '"', stamp, '"') + m1;
    assert w.input == Bytes(lead) + Bytes(LabelCclk) + m0;
    SearchFindsLabel(lead, LabelCclk, m0);
    LayoutHasNoQuote(yy, mo, dd, hh, mi, ss, sign, zone);
    ExtractFramed(" ", '"', stamp, '"', m1);
    DrainReply(tail, more);
    assert Kept(stamp, StampBufferLength) == stamp;
    NulFree(stamp);
    DecodeLayout(yy, mo, dd, hh, mi, ss, sign, zone);
  }

  lemma LayoutHasNoQuote(yy: nat, mo: nat, dd: nat, hh: nat, mi: nat, ss: nat, sign: char, zone: nat)
    requires yy < 100 && mo < 100 && dd < 100 && hh < 100 && mi < 100 && ss < 100 && zone < 100
    requires sign == '+' || sign == '-'
    ensures '"' !in Layout(yy, mo, dd, hh, mi, ss, sign, zone)
    ensures '\0' !in Layout(yy, mo, dd, hh, mi, ss, sign, zone)
  {
    var t := Layout(yy, mo, dd, hh, mi, ss, sign, zone);
    assert forall i :: 0 <= i < |t| ==> IsDigit(t[i]) || t[i] in "/,:+-";
  }

  /** A text without NUL is its own C string. */
  lemma NulFree(s: string)
    requires '\0' !in s
    ensures CStr(s) == s
  {
  }

  datatype NewRetrievalAsWritten = NewRetrievalAsWritten(exit: Exit<bool>, wire: Wire, record: Record)

  /** The index handed to `ReadSMSByIndex` and `DelSMSByIndex`, whose
      parameter is a `uint8_t`: the listed index modulo 256. */
  function Narrow(index: int): (r: uint8)
    ensures 0 <= index < 256 ==> r as int == index
    ensures (index - r as int) % 256 == 0
  {
    (index % 256) as uint8
  }

  /** `ReadNewSMS` as written: when the message cannot be read, no branch
      returns. */
  function ReadNewAsWritten(w: Wire, rec: Record, mktime: Tm -> int): (r: NewRetrievalAsWritten)
    requires |rec.sender| == SenderMaxLength && |rec.message| == MessageMaxLength
    ensures var n := NewIndex(w);
      r.exit.FallsOffEnd? <==> n.value > 0 && !ReadAt(n.wire, Narrow(n.value), rec, mktime).ok
  {
    var n := NewIndex(w);
    if n.value > 0 then
      var r := ReadAt(n.wire, Narrow(n.value), rec, mktime);
      if r.ok then
        var d := Exchange(r.wire, DeleteCommand(Narrow(n.value)), LabelOk);
        NewRetrievalAsWritten(Returns(d.ok), d.wire, r.record)
      else NewRetrievalAsWritten(FallsOffEnd, r.wire, r.record)
    else NewRetrievalAsWritten(Returns(false), n.wire, rec)
  }

  /** Message 1 is listed but its read gets no reply: `ReadNewSMS` as
      written returns nothing. */
  lemma ReadNewFallsOffEnd(output: string, rec: Record, mktime: Tm -> int)
    requires |rec.sender| == SenderMaxLength && |rec.message| == MessageMaxLength
    ensures ReadNewAsWritten(Wire(Bytes(LabelCmgl) + Framed("", ' ', "1", ',') + [Gap], output), rec, mktime).exit
         == FallsOffEnd
  {
    var w := Wire(Bytes(LabelCmgl) + Framed("", ' ', "1", ',') + [Gap], output);
    assert Decimal(1) == "1";
    assert w.input == Bytes([]) + Bytes(LabelCmgl) + Framed("", ' ', Decimal(1), ',') + Bytes([]) + [Gap] + [];
    ListingIndex(w, [], 1, [], []);
  }

  /** `ReadNewSMS` with false on the missing branch too: a message that
      cannot be read is not reported as read. */
  function ReadNew(w: Wire, rec: Record, mktime: Tm -> int): (r: Retrieval)
    requires |rec.sender| == SenderMaxLength && |rec.message| == MessageMaxLength
    ensures var a := ReadNewAsWritten(w, rec, mktime);
      && r.wire == a.wire && r.record == a.record
      && (a.exit.Returns? ==> r.ok == a.exit.value)
      && (a.exit.FallsOffEnd? ==> !r.ok)
  {
    var n := NewIndex(w);
    if n.value > 0 then
      var r := ReadAt(n.wire, Narrow(n.value), rec, mktime);
      if r.ok then
        var d := Exchange(r.wire, DeleteCommand(Narrow(n.value)), LabelOk);
        Retrieval(d.ok, d.wire, r.record)
      else Retrieval(false, r.wire, r.record)
    else Retrieval(false, n.wire, rec)
  }

  /** Read then consume: `ReadNewSMS` reports success only for a message it
      has read in full and whose deletion the modem then acknowledged, and
      it sends the delete command for no other message. */
  lemma ReadNewConsumesDelivered(w: Wire, rec: Record, mktime: Tm -> int)
    requires |rec.sender| == SenderMaxLength && |rec.message| == MessageMaxLength
    ensures var n := NewIndex(w); var r := ReadNew(w, rec, mktime);
      r.ok ==> && n.value > 0
               && var read := ReadAt(n.wire, Narrow(n.value), rec, mktime);
               && read.ok && r.record == read.record
               && r.wire.output == w.output + ListCommand + CRLF + ReadCommand(Narrow(n.value)) + CRLF
                                   + DeleteCommand(Narrow(n.value)) + CRLF
  {
  }

  /** And conversely: a listed message that is read in full and whose
      deletion the modem acknowledges is reported as read. */
  lemma ReadNewDelivers(w: Wire, rec: Record, mktime: Tm -> int)
    requires |rec.sender| == SenderMaxLength && |rec.message| == MessageMaxLength
    ensures var n := NewIndex(w); var read := ReadAt(n.wire, Narrow(n.value), rec, mktime);
      ReadNew(w, rec, mktime).ok <==>
        n.value > 0 && read.ok && Exchange(read.wire, DeleteCommand(Narrow(n.value)), LabelOk).ok
  {
  }

  // ---------------------------------------------------------------------
  // Sending

  /** `_sendSMS`: the send command, the ">" prompt, the body line and
      control-Z, then OK; body and destination are printed as C strings. */
  function Send(w: Wire, dest: string, text: string): (r: Reply)
    ensures var head := w.output + SendCommand(dest) + CRLF;
      r.wire.output == head || r.wire.output == head + CStr(text) + CRLF + [CtrlZ]
    ensures r.ok ==> r.wire.output == w.output + SendCommand(dest) + CRLF + CStr(text) + CRLF + [CtrlZ]
    ensures |r.wire.input| < |w.input| || (w.input == [] && r.wire.input == [])
  {
    var out := w.output + SendCommand(dest) + CRLF;
    var prompt := SearchLabel(w.input, LabelReadyToReceive);
    if !prompt.found then Reply(false, Wire(prompt.rest, out))
    else
      var out' := out + CStr(text) + CRLF + [CtrlZ];
      var ack := SearchLabel(AfterFirstGap(prompt.rest), LabelOk);
      Reply(ack.found, Wire(if ack.found then AfterFirstGap(ack.rest) else ack.rest, out'))
  }

  /** Without a prompt before the modem falls silent, the send fails and
      nothing of the body is written. */
  lemma SendWithoutPrompt(w: Wire, dest: string, text: string)
    requires forall j :: 0 <= j < |w.input| && ByteRun(w.input, j) ==> w.input[j] != Byte('>')
    ensures !Send(w, dest, text).ok
    ensures Send(w, dest, text).wire.output == w.output + SendCommand(dest) + CRLF
  {
    AbsentLabelNotFound(w.input, LabelReadyToReceive);
  }

  /** With the prompt and then OK, the send succeeds: the wire carries the
      command, the body line and control-Z, and both replies are consumed. */
  lemma SendAccepted(w: Wire, dest: string, text: string, lead1: string, tail1: string,
                     lead2: string, tail2: string, more: seq<Event>)
    requires '>' !in lead1 && 'O' !in lead2
    requires w.input == Bytes(lead1) + Bytes(LabelReadyToReceive) + Bytes(tail1) + [Gap]
                        + Bytes(lead2) + Bytes(LabelOk) + Bytes(tail2) + [Gap] + more
    ensures Send(w, dest, text)
         == Reply(true, Wire(more, w.output + SendCommand(dest) + CRLF + CStr(text) + CRLF + [CtrlZ]))
  {
    var second := Bytes(lead2) + Bytes(LabelOk) + Bytes(tail2) + [Gap] + more;
    var m := Bytes(tail1) + [Gap] + second;
    assert w.input == Bytes(lead1) + Bytes(LabelReadyToReceive) + m;
    SearchFindsLabel(lead1, LabelReadyToReceive, m);
    DrainReply(tail1, second);
    var m2 := Bytes(tail2) + [Gap] + more;
    assert second == Bytes(lead2) + Bytes(LabelOk) + m2;
    SearchFindsLabel(lead2, LabelOk, m2);
    DrainReply(tail2, more);
  }

  /** With the prompt but no OK before the modem next falls silent, the send
      fails although the body line and control-Z have gone out. */
  lemma SendUnacknowledged(w: Wire, dest: string, text: string, lead1: string, tail1: string,
                           second: seq<Event>)
    requires '>' !in lead1
    requires w.input == Bytes(lead1) + Bytes(LabelReadyToReceive) + Bytes(tail1) + [Gap] + second
    requires forall j :: 0 <= j < |second| && ByteRun(second, j) ==> second[j] != Byte('K')
    ensures !Send(w, dest, text).ok
    ensures Send(w, dest, text).wire.output
         == w.output + SendCommand(dest) + CRLF + CStr(text) + CRLF + [CtrlZ]
  {
    var m := Bytes(tail1) + [Gap] + second;
    assert w.input == Bytes(lead1) + Bytes(LabelReadyToReceive) + m;
    SearchFindsLabel(lead1, LabelReadyToReceive, m);
    DrainReply(tail1, second);
    AbsentLabelNotFound(second, LabelOk);
  }
}
