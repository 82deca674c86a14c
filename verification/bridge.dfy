/**
  process_kbd_report: the per-report step of the bridge. For each of the six
  slots it records the usage code, looks the code up unshifted and (when a
  shift bit is held in the current local modifier) shifted, and checks the
  replay hotkey; then it logs the cased character of slot 0 and forwards the
  (possibly masked) report.

  The step is modelled iteration by iteration (SlotStep, ScanSlots), exactly
  as the loop runs, and ScanSummary states in closed form what the six
  iterations leave behind. Everything else is proved from that summary.
 */
module Bridge {
  import opened Hid
  import opened Layout
  import opened KeyLog
  import Device

  const LetterP: Ascii := 0x70
  const LetterB: Ascii := 0x62

  /** Every usage code indexes inside the 128-entry keycode2ascii table. */
  predicate InTable(report: KeyboardReport) {
    forall i :: 0 <= i < 6 ==> report.keycode[i] < TableSize
  }

  /** The replay hotkey: slot 0 reads 'p', slot 1 reads 'b', a shift bit and an alt bit are held. */
  predicate Hotkey(t: LayoutTables, report: KeyboardReport)
    requires InTable(report)
  {
    && Plain(t, report.keycode[0]) == LetterP
    && Plain(t, report.keycode[1]) == LetterB
    && ShiftHeld(report.modifier)
    && AltHeld(report.modifier)
  }

  /** The character that slot 0 contributes to the log when no replay happens. */
  function TypedChar(t: LayoutTables, report: KeyboardReport): Ascii
    requires InTable(report)
  {
    Cased(t, report.keycode[0], ShiftHeld(report.modifier))
  }

  /** Six looked-up characters, one per slot. */
  type Chars = s: seq<Ascii> | |s| == 6 witness [0, 0, 0, 0, 0, 0]

  const NoChars: Chars := [0, 0, 0, 0, 0, 0]

  /** The locals of process_kbd_report, plus the actions issued so far. */
  datatype Locals = Locals(modifier: byte, keycode: Keys, chars: Chars, cased: Chars, actions: seq<Action>)

  function Start(report: KeyboardReport): Locals {
    Locals(report.modifier, NoKeys, NoChars, NoChars, [])
  }

  /** The hotkey test as the loop evaluates it, on the locals of the current iteration. */
  predicate HotkeyTest(chars: Chars, modifier: byte) {
    chars[0] == LetterP && chars[1] == LetterB && ShiftHeld(modifier) && AltHeld(modifier)
  }

  /** One iteration of the slot loop, for slot i. */
  function SlotStep(t: LayoutTables, log: Log, report: KeyboardReport, i: nat, l: Locals): (r: Locals)
    requires i < 6 && InTable(report)
    ensures r.chars[i] == Plain(t, report.keycode[i])
  {
    var kc := report.keycode[i];
    var keycode := l.keycode[i := kc];
    var isShift := ShiftHeld(l.modifier);
    var cased := l.cased[i := Cased(t, kc, isShift)];
    var chars := l.chars[i := Plain(t, kc)];
    if HotkeyTest(chars, l.modifier) then
      Locals(0, NoKeys, chars, NoChars, l.actions + KeyText(t, log.text))
    else
      Locals(l.modifier, keycode, chars, cased, l.actions)
  }

  /** The locals after the first n iterations. */
  function ScanSlots(t: LayoutTables, log: Log, report: KeyboardReport, n: nat): (r: Locals)
    requires n <= 6 && InTable(report)
    ensures forall j :: n <= j < 6 ==> r.chars[j] == 0
    ensures r.modifier == report.modifier || r.modifier == 0
  {
    if n == 0 then Start(report)
    else SlotStep(t, log, report, n - 1, ScanSlots(t, log, report, n - 1))
  }

  /**
    What n iterations leave behind. The hotkey can only be seen once slot 1
    has been read, and once it fires the local modifier is 0, so no later
    slot sees a shift bit: "fired" is n >= 2 and the hotkey.
   */
  ghost predicate Summary(t: LayoutTables, log: Log, report: KeyboardReport, n: nat, l: Locals)
    requires n <= 6 && InTable(report)
  {
    var fired := n >= 2 && Hotkey(t, report);
    var shift := ShiftHeld(report.modifier);
    && l.actions == (if fired then KeyText(t, log.text) else [])
    && l.modifier == (if fired then 0 else report.modifier)
    && (forall j :: 0 <= j < 6 ==>
          l.chars[j] == if j < n then Plain(t, report.keycode[j]) else 0)
    && (forall j :: 0 <= j < 6 ==>
          l.keycode[j] == if j < n && !(fired && j < 2) then report.keycode[j] else 0)
    && (forall j :: 0 <= j < 6 ==>
          l.cased[j] == if n <= j || (fired && j < 2) then 0
                        else if fired then Plain(t, report.keycode[j])
                        else Cased(t, report.keycode[j], shift))
  }

  /** The hotkey test inside the loop succeeds in iteration i exactly when i is 1 and the hotkey is held. */
  lemma {:induction false} HotkeyTestedOnce(t: LayoutTables, log: Log, report: KeyboardReport, i: nat)
    requires i < 6 && InTable(report)
    ensures var l := ScanSlots(t, log, report, i);
            HotkeyTest(l.chars[i := Plain(t, report.keycode[i])], l.modifier)
            <==> i == 1 && Hotkey(t, report)
  {
  }

  lemma {:induction false} ScanSummary(t: LayoutTables, log: Log, report: KeyboardReport, n: nat)
    requires n <= 6 && InTable(report)
    ensures Summary(t, log, report, n, ScanSlots(t, log, report, n))
    decreases n
  {
    if n > 0 {
      ScanSummary(t, log, report, n - 1);
      SlotStepKeepsSummary(t, log, report, n - 1, ScanSlots(t, log, report, n - 1));
    }
  }

  /** The in-loop test of iteration i, given what the first i iterations left behind. */
  lemma TestAtIteration(t: LayoutTables, log: Log, report: KeyboardReport, i: nat, l: Locals)
    requires i < 6 && InTable(report)
    requires Summary(t, log, report, i, l)
    ensures HotkeyTest(l.chars[i := Plain(t, report.keycode[i])], l.modifier) <==> i == 1 && Hotkey(t, report)
  {
    var chars := l.chars[i := Plain(t, report.keycode[i])];
    if i == 0 {
      assert chars[1] == l.chars[1] == 0;
    } else if i == 1 {
      assert chars[0] == Plain(t, report.keycode[0]);
      assert chars[1] == Plain(t, report.keycode[1]);
    } else if Hotkey(t, report) {
      assert l.modifier == 0;
      assert !ShiftHeld(0);
    } else {
      assert chars[0] == Plain(t, report.keycode[0]);
      assert chars[1] == Plain(t, report.keycode[1]);
    }
  }

  /** One iteration carries the summary of i iterations to that of i + 1. */
  lemma SlotStepKeepsSummary(t: LayoutTables, log: Log, report: KeyboardReport, i: nat, l: Locals)
    requires i < 6 && InTable(report)
    requires Summary(t, log, report, i, l)
    ensures Summary(t, log, report, i + 1, SlotStep(t, log, report, i, l))
  {
    TestAtIteration(t, log, report, i, l);
    if i == 1 && Hotkey(t, report) {
      FiringStepSummary(t, log, report, l);
    } else {
      QuietStepSummary(t, log, report, i, l);
    }
  }

  /** The iteration in which the hotkey test succeeds: replay, modifier and locals cleared. */
  lemma FiringStepSummary(t: LayoutTables, log: Log, report: KeyboardReport, l: Locals)
    requires InTable(report) && Hotkey(t, report)
    requires Summary(t, log, report, 1, l)
    requires HotkeyTest(l.chars[1 := Plain(t, report.keycode[1])], l.modifier)
    ensures Summary(t, log, report, 2, SlotStep(t, log, report, 1, l))
  {
    var chars := l.chars[1 := Plain(t, report.keycode[1])];
    assert l.actions == [];
    assert SlotStep(t, log, report, 1, l) == Locals(0, NoKeys, chars, NoChars, l.actions + KeyText(t, log.text));
    assert l.actions + KeyText(t, log.text) == KeyText(t, log.text);
    FiredSummary(t, log, report, chars);
  }

  /** The locals right after the replay: slots 0 and 1 looked up, everything else cleared. */
  lemma FiredSummary(t: LayoutTables, log: Log, report: KeyboardReport, chars: Chars)
    requires InTable(report) && Hotkey(t, report)
    requires forall j :: 0 <= j < 6 ==> chars[j] == if j < 2 then Plain(t, report.keycode[j]) else 0
    ensures Summary(t, log, report, 2, Locals(0, NoKeys, chars, NoChars, KeyText(t, log.text)))
  {
  }

  /** Any other iteration: slot i is copied and looked up, nothing else changes. */
  lemma QuietStepSummary(t: LayoutTables, log: Log, report: KeyboardReport, i: nat, l: Locals)
    requires i < 6 && InTable(report) && !(i == 1 && Hotkey(t, report))
    requires Summary(t, log, report, i, l)
    requires !HotkeyTest(l.chars[i := Plain(t, report.keycode[i])], l.modifier)
    ensures Summary(t, log, report, i + 1, SlotStep(t, log, report, i, l))
  {
    var r := SlotStep(t, log, report, i, l);
    var fired := i + 1 >= 2 && Hotkey(t, report);
    var shift := ShiftHeld(report.modifier);
    assert r.modifier == l.modifier;
    assert fired ==> l.modifier == 0 && !ShiftHeld(l.modifier);
    assert !fired ==> l.modifier == report.modifier;
    forall j | 0 <= j < 6
      ensures r.chars[j] == if j < i + 1 then Plain(t, report.keycode[j]) else 0
    {
    }
    forall j | 0 <= j < 6
      ensures r.keycode[j] == if j < i + 1 && !(fired && j < 2) then report.keycode[j] else 0
    {
    }
    forall j | 0 <= j < 6
      ensures r.cased[j] == if i + 1 <= j || (fired && j < 2) then 0
                            else if fired then Plain(t, report.keycode[j])
                            else Cased(t, report.keycode[j], shift)
    {
    }
  }

  /** Why a step has no defined behaviour: an out-of-table read or an out-of-buffer write. */
  datatype Fault = KeycodeOutsideTable | LogOverflow

  datatype StepResult = Stepped(log: Log, actions: seq<Action>) | Undefined(fault: Fault)

  /**
    process_kbd_report: the six-slot loop, the log append of slot 0's cased
    character (when nonzero), and the final send of the keyboard report.
   */
  function ProcessKbdReport(t: LayoutTables, log: Log, report: KeyboardReport): (r: StepResult)
    ensures r == Undefined(KeycodeOutsideTable) <==> !InTable(report)
    ensures r.Stepped? ==> Snapshot(log) <= Snapshot(r.log) && r.log.last <= log.last + 1
    ensures r.Stepped? ==> |r.actions| >= 1 && r.actions[|r.actions| - 1].Send?
                           && r.actions[|r.actions| - 1].reportId == ReportIdKeyboard
  {
    if !InTable(report) then Undefined(KeycodeOutsideTable)
    else
      var l := ScanSlots(t, log, report, 6);
      var forward := Send(ReportIdKeyboard, l.modifier, l.keycode);
      if l.cased[0] == 0 then Stepped(log, l.actions + [forward])
      else match Append(log, l.cased[0])
        case Overflow => Undefined(LogOverflow)
        case Appended(log') => Stepped(log', l.actions + [forward])
  }

  /** Without the hotkey the report goes out exactly as it came in: same modifier, same six slots. */
  lemma PassThroughWithoutHotkey(t: LayoutTables, log: Log, report: KeyboardReport)
    requires InTable(report) && !Hotkey(t, report)
    ensures var r := ProcessKbdReport(t, log, report);
            r.Stepped? ==> r.actions == [Send(ReportIdKeyboard, report.modifier, report.keycode)]
  {
    ScanSummary(t, log, report, 6);
    var l := ScanSlots(t, log, report, 6);
    assert l.keycode == report.keycode;
  }

  /**
    With the hotkey, the first PointerSize log bytes are replayed, then a
    report goes out with modifier 0, slots 0 and 1 cleared and slots 2-5 as
    received; the log is left exactly as it was.
   */
  lemma HotkeyReplaysAndMasks(t: LayoutTables, log: Log, report: KeyboardReport)
    requires InTable(report) && Hotkey(t, report)
    ensures var r := ProcessKbdReport(t, log, report);
            && r.Stepped?
            && r.log == log
            && |r.actions| == 2 * PointerSize + 1
            && r.actions[..2 * PointerSize] == KeyText(t, log.text)
            && var out := r.actions[2 * PointerSize];
               && out.Send? && out.reportId == ReportIdKeyboard && out.modifier == 0
               && out.keycode[0] == 0 && out.keycode[1] == 0
               && out.keycode[2..] == report.keycode[2..]
  {
    ScanSummary(t, log, report, 6);
    var l := ScanSlots(t, log, report, 6);
    assert l.cased[0] == 0;
    assert l.keycode[2..] == report.keycode[2..];
    var r := ProcessKbdReport(t, log, report);
    assert r.actions == KeyText(t, log.text) + [Send(ReportIdKeyboard, 0, l.keycode)];
  }

  /**
    The replay happens if and only if the hotkey is held: a report with any
    one of the four conditions missing issues no pause at all, and a report
    with all four issues exactly one replay.
   */
  lemma ReplayIffHotkey(t: LayoutTables, log: Log, report: KeyboardReport)
    requires InTable(report)
    ensures var r := ProcessKbdReport(t, log, report);
            r.Stepped? ==> (Sleep(ReplayDelayMs) in r.actions <==> Hotkey(t, report))
  {
    var r := ProcessKbdReport(t, log, report);
    if Hotkey(t, report) {
      HotkeyReplaysAndMasks(t, log, report);
      assert r.actions[1] == KeyText(t, log.text)[1];
    } else {
      PassThroughWithoutHotkey(t, log, report);
    }
  }

  /** Without an alt bit (left or right shift, with or without ctrl or gui) there is no replay, whatever the keys. */
  lemma ShiftWithoutAltDoesNotReplay(t: LayoutTables, log: Log, report: KeyboardReport)
    requires InTable(report)
    requires !AltHeld(report.modifier)
    ensures var r := ProcessKbdReport(t, log, report);
            r.Stepped? ==> Sleep(ReplayDelayMs) !in r.actions
  {
    ReplayIffHotkey(t, log, report);
  }

  /**
    The log after a report: without the hotkey and with a nonzero cased
    character in slot 0, the cursor rises by one and that character is
    stored there (or, when the buffer is full, the write falls outside it);
    in every other case the log is untouched.
   */
  lemma LogUpdate(t: LayoutTables, log: Log, report: KeyboardReport)
    requires InTable(report)
    ensures var r := ProcessKbdReport(t, log, report);
            var c := TypedChar(t, report);
            && (!Hotkey(t, report) && c != 0 && log.last < Capacity - 1 ==>
                  r.Stepped? && r.log.last == log.last + 1 && r.log.text == log.text[log.last + 1 := c])
            && (!Hotkey(t, report) && c != 0 && log.last == Capacity - 1 ==>
                  r == Undefined(LogOverflow))
            && (Hotkey(t, report) || c == 0 ==> r.Stepped? && r.log == log)
  {
    ScanSummary(t, log, report, 6);
    var r := ProcessKbdReport(t, log, report);
    var c := TypedChar(t, report);
    if !Hotkey(t, report) && c != 0 && log.last < Capacity - 1 {
      var log' := Append(log, c).log;
      assert r.log == log';
      assert log'.text[..log.last + 2] == log.text[..log.last + 1] + [c];
      assert log'.text == log.text[log.last + 1 := c];
    }
  }

  /** A report with no keys down is forwarded as a release report with its modifier, and logs nothing. */
  lemma ReleaseForwarded(t: LayoutTables, log: Log, modifier: byte)
    ensures ProcessKbdReport(t, log, KeyboardReport(modifier, NoKeys))
            == Stepped(log, [Send(ReportIdKeyboard, modifier, NoKeys)])
  {
    var report := KeyboardReport(modifier, NoKeys);
    assert !Hotkey(t, report);
    PassThroughWithoutHotkey(t, log, report);
    LogUpdate(t, log, report);
  }

  /**
    A replayed keystroke, received back on the host side, logs the character
    it was made from, provided the two tables agree on that character.
   */
  lemma ReplayedKeyIsRelogged(t: LayoutTables, log: Log, c: Ascii)
    requires c != 0 && log.last < Capacity - 1
    requires var e := t.ascii2keycode[c];
             Cased(t, e.keycode, e.shift != 0) == c
    ensures var a := ReplayAttempt(t, c);
            var r := ProcessKbdReport(t, log, KeyboardReport(a.modifier, a.keycode));
            && r.Stepped?
            && r.actions == [a]
            && Snapshot(r.log) == Snapshot(log) + [c]
  {
    var a := ReplayAttempt(t, c);
    var report := KeyboardReport(a.modifier, a.keycode);
    var e := t.ascii2keycode[c];
    assert ShiftHeld(LeftShift) && !ShiftHeld(0);
    assert ShiftHeld(a.modifier) == (e.shift != 0);
    assert Plain(t, report.keycode[1]) == 0;
    assert !Hotkey(t, report);
    PassThroughWithoutHotkey(t, log, report);
    LogUpdate(t, log, report);
    var r := ProcessKbdReport(t, log, report);
    assert r.log.text[..log.last + 2] == log.text[..log.last + 1] + [c];
  }

  /** A sequence of keyboard reports processed one after another. */
  function Run(t: LayoutTables, log: Log, reports: seq<KeyboardReport>): StepResult
    decreases |reports|
  {
    if reports == [] then Stepped(log, [])
    else match ProcessKbdReport(t, log, reports[0])
      case Undefined(f) => Undefined(f)
      case Stepped(log1, a1) =>
        match Run(t, log1, reports[1..])
        case Undefined(f) => Undefined(f)
        case Stepped(log2, a2) => Stepped(log2, a1 + a2)
  }

  predicate AllInTable(reports: seq<KeyboardReport>) {
    forall i :: 0 <= i < |reports| ==> InTable(reports[i])
  }

  /**
    The characters a run of reports logs: slot 0's cased character of every
    report that is not the hotkey and types one; releases, modifier-only
    reports and hotkey reports contribute nothing.
   */
  function LoggedText(t: LayoutTables, reports: seq<KeyboardReport>): seq<Ascii>
    requires AllInTable(reports)
  {
    if reports == [] then []
    else
      LoggedBy(t, reports[0]) + LoggedText(t, reports[1..])
  }

  /** The characters one report logs: none, or slot 0's cased character. */
  function LoggedBy(t: LayoutTables, report: KeyboardReport): seq<Ascii>
    requires InTable(report)
  {
    var c := TypedChar(t, report);
    if !Hotkey(t, report) && c != 0 then [c] else []
  }

  /** One report appends exactly what it types to the logged text, when there is room for it. */
  lemma StepLogs(t: LayoutTables, log: Log, report: KeyboardReport)
    requires InTable(report)
    requires log.last + |LoggedBy(t, report)| < Capacity
    ensures var r := ProcessKbdReport(t, log, report);
            r.Stepped? && Snapshot(r.log) == Snapshot(log) + LoggedBy(t, report)
  {
    LogUpdate(t, log, report);
    var r := ProcessKbdReport(t, log, report);
    var c := TypedChar(t, report);
    if !Hotkey(t, report) && c != 0 {
      assert r.log.text[..log.last + 2] == log.text[..log.last + 1] + [c];
    }
  }

  /**
    Any run of keyboard reports (keystrokes, releases, replays) appends to
    the log exactly the characters it types, in typing order, while the log
    has room for them.
   */
  lemma {:induction false} LogKeepsTypedOrder(t: LayoutTables, log: Log, reports: seq<KeyboardReport>)
    requires AllInTable(reports)
    requires log.last + |LoggedText(t, reports)| < Capacity
    ensures var r := Run(t, log, reports);
            r.Stepped? && Snapshot(r.log) == Snapshot(log) + LoggedText(t, reports)
    decreases |reports|
  {
    if reports != [] {
      var log1 := RunHead(t, log, reports);
      LogKeepsTypedOrder(t, log1, reports[1..]);
      RunCons(t, log, reports);
    }
  }

  /** The first step of a typing run: defined, logging what it types, with room left for the rest. */
  lemma RunHead(t: LayoutTables, log: Log, reports: seq<KeyboardReport>) returns (log1: Log)
    requires reports != [] && AllInTable(reports)
    requires log.last + |LoggedText(t, reports)| < Capacity
    ensures AllInTable(reports[1..])
    ensures ProcessKbdReport(t, log, reports[0]).Stepped?
    ensures ProcessKbdReport(t, log, reports[0]).log == log1
    ensures log1.last + |LoggedText(t, reports[1..])| < Capacity
    ensures Snapshot(log) + LoggedText(t, reports) == Snapshot(log1) + LoggedText(t, reports[1..])
  {
    AllInTableTail(reports);
    StepLogs(t, log, reports[0]);
    log1 := ProcessKbdReport(t, log, reports[0]).log;
  }

  lemma AllInTableTail(reports: seq<KeyboardReport>)
    requires AllInTable(reports) && reports != []
    ensures InTable(reports[0]) && AllInTable(reports[1..])
  {
    forall i | 0 <= i < |reports[1..]|
      ensures InTable(reports[1..][i])
    {
      assert reports[1..][i] == reports[i + 1];
    }
  }

  /** A run whose first step is defined continues from that step's log. */
  lemma RunCons(t: LayoutTables, log: Log, reports: seq<KeyboardReport>)
    requires reports != [] && ProcessKbdReport(t, log, reports[0]).Stepped?
    ensures var r1 := ProcessKbdReport(t, log, reports[0]);
            var r2 := Run(t, r1.log, reports[1..]);
            Run(t, log, reports) == if r2.Stepped? then Stepped(r2.log, r1.actions + r2.actions) else r2
  {
  }

  /**
    The step together with delivery: without the hotkey, exactly the incoming
    report leaves the device when the interface is ready, and nothing does
    when it is not.
   */
  lemma PassThroughDelivered(t: LayoutTables, log: Log, report: KeyboardReport, ready: nat -> bool)
    requires InTable(report) && !Hotkey(t, report)
    ensures var r := ProcessKbdReport(t, log, report);
            r.Stepped? ==>
              Device.Transmit(r.actions, ready, 0)
              == if ready(0) then [KeyboardOut(report.modifier, report.keycode)] else []
  {
    PassThroughWithoutHotkey(t, log, report);
  }

  /**
    The step together with delivery, on the hotkey, with an always-ready
    interface: the PointerSize replayed keystrokes, each followed by its
    pause, then the masked report.
   */
  lemma ReplayDelivered(t: LayoutTables, log: Log, report: KeyboardReport, ready: nat -> bool)
    requires InTable(report) && Hotkey(t, report)
    requires forall k :: ready(k)
    ensures var r := ProcessKbdReport(t, log, report);
            && r.Stepped?
            && Device.Transmit(r.actions, ready, 0)
               == Device.Render(KeyText(t, log.text)) + [KeyboardOut(0, [0, 0] + report.keycode[2..])]
  {
    HotkeyReplaysAndMasks(t, log, report);
    var r := ProcessKbdReport(t, log, report);
    var out := r.actions[2 * PointerSize];
    assert out.keycode == [0, 0] + report.keycode[2..];
    assert r.actions == KeyText(t, log.text) + [out];
    assert Device.KeyboardOnly(r.actions) by {
      forall i | 0 <= i < |r.actions| && r.actions[i].Send?
        ensures r.actions[i].reportId == ReportIdKeyboard
      {
        if i < 2 * PointerSize {
          assert r.actions[i] == KeyText(t, log.text)[i];
        }
      }
    }
    Device.TransmitWhenAlwaysReady(r.actions, ready, 0);
    Device.RenderAppend(KeyText(t, log.text), [out]);
  }

  // Interface protocol codes of a boot-interface HID device.
  const ProtocolKeyboard: byte := 1

  /**
    tuh_hid_report_received_cb: a boot keyboard report goes through the
    step; a mouse report (or any other protocol) changes nothing and sends
    nothing, since the mouse handler only formats text that is never written.
   */
  function ReportReceived(t: LayoutTables, log: Log, protocol: byte, report: KeyboardReport): (r: StepResult)
    ensures protocol != ProtocolKeyboard ==> r == Stepped(log, [])
  {
    if protocol == ProtocolKeyboard then ProcessKbdReport(t, log, report) else Stepped(log, [])
  }

  /**
    A report from a boot keyboard is always handled: it fails only on an
    out-of-table usage code or a full log, and otherwise ends by forwarding a
    keyboard report.
   */
  lemma KeyboardReportForwarded(t: LayoutTables, log: Log, report: KeyboardReport)
    ensures var r := ReportReceived(t, log, ProtocolKeyboard, report);
            && (r == Undefined(KeycodeOutsideTable) <==> !InTable(report))
            && (r == Undefined(LogOverflow) ==> log.last == Capacity - 1)
            && (r.Stepped? ==> |r.actions| >= 1 && r.actions[|r.actions| - 1].Send?
                                && r.actions[|r.actions| - 1].reportId == ReportIdKeyboard)
  {
  }
}
