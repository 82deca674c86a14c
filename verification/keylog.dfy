/**
  The keystroke log (loggedText with its cursor lastLog) and its replay
  (KeyText). The log is a fixed 128-byte buffer, zero-initialised, with the
  cursor at -1 when nothing has been logged; the cursor names the last
  written slot, so the logged text is text[0..last].
 */
module KeyLog {
  import opened Hid
  import opened Layout

  const Capacity: nat := 128

  /** sizeof(uint8_t*) on the RP2040 (32-bit Cortex-M0+): the replay length. */
  const PointerSize: nat := 4

  /** Pause after each replayed keystroke, in milliseconds. */
  const ReplayDelayMs: nat := 50

  datatype Buffer = Buffer(text: seq<Ascii>, last: int)

  /** Buffer of capacity bytes, cursor within it, every unwritten slot still zero. */
  predicate Valid(b: Buffer) {
    && |b.text| == Capacity
    && -1 <= b.last < Capacity
    && forall i :: b.last < i < |b.text| ==> b.text[i] == 0
  }

  type Log = b: Buffer | Valid(b) witness Buffer(seq(128, _ => 0), -1)

  /** The logged characters, oldest first. */
  function Snapshot(log: Log): seq<Ascii>
  {
    log.text[..log.last + 1]
  }

  /** The log at start-up: static storage is zeroed and lastLog is -1. */
  function Empty(): (log: Log)
    ensures Snapshot(log) == []
    ensures forall i :: 0 <= i < |log.text| ==> log.text[i] == 0
  {
    Buffer(seq(128, _ => 0), -1)
  }

  datatype AppendResult = Appended(log: Log) | Overflow

  /**
    lastLog++ followed by loggedText[lastLog] = c. When the log is full the
    write would land at index 128, outside the buffer; that is reported as
    Overflow instead of being given a meaning.
   */
  function Append(log: Log, c: Ascii): (r: AppendResult)
    ensures r.Overflow? <==> log.last == Capacity - 1
    ensures r.Appended? ==> Snapshot(r.log) == Snapshot(log) + [c]
    ensures r.Appended? ==> r.log.text[..log.last + 1] == log.text[..log.last + 1]
    ensures r.Appended? ==> r.log.text[log.last + 2..] == log.text[log.last + 2..]
  {
    if log.last + 1 == Capacity then Overflow
    else
      var text' := log.text[log.last + 1 := c];
      assert text'[..log.last + 2] == log.text[..log.last + 1] + [c];
      Appended(Buffer(text', log.last + 1))
  }

  /** One replayed keystroke: the key alone in slot 0, left shift when the table asks for it. */
  function ReplayAttempt(t: LayoutTables, ch: Ascii): (a: Action)
    ensures a.Send? && a.reportId == ReportIdKeyboard
  {
    var entry := t.ascii2keycode[ch];
    Send(ReportIdKeyboard, if entry.shift != 0 then LeftShift else 0, [entry.keycode, 0, 0, 0, 0, 0])
  }

  /**
    A replayed keystroke is a keyboard send with the character's usage code
    alone in slot 0 and modifier exactly left shift when the table's flag asks
    for shift, 0 otherwise.
   */
  lemma ReplayAttemptShape(t: LayoutTables, ch: Ascii)
    ensures var a := ReplayAttempt(t, ch);
            && a.Send? && a.reportId == ReportIdKeyboard
            && a.modifier == (if t.ascii2keycode[ch].shift != 0 then LeftShift else 0)
            && (ShiftHeld(a.modifier) <==> t.ascii2keycode[ch].shift != 0)
            && !AltHeld(a.modifier)
            && a.keycode[0] == t.ascii2keycode[ch].keycode
            && a.keycode[1..] == [0, 0, 0, 0, 0]
  {
  }

  /** Iterations i .. PointerSize-1 of the replay loop. */
  function KeyTextFrom(t: LayoutTables, text: seq<Ascii>, i: nat): (r: seq<Action>)
    requires i <= PointerSize <= |text|
    ensures |r| == 2 * (PointerSize - i)
    ensures forall j :: 0 <= j < |r| ==>
              r[j] == if j % 2 == 0 then ReplayAttempt(t, text[i + j / 2]) else Sleep(ReplayDelayMs)
    decreases PointerSize - i
  {
    if i == PointerSize then []
    else
      var rest := KeyTextFrom(t, text, i + 1);
      KeyTextFromCons(t, text, i, rest);
      [ReplayAttempt(t, text[i]), Sleep(ReplayDelayMs)] + rest
  }

  /** One unrolled iteration shifts every later action two places, and their bytes one place. */
  lemma KeyTextFromCons(t: LayoutTables, text: seq<Ascii>, i: nat, rest: seq<Action>)
    requires i < PointerSize <= |text|
    requires |rest| == 2 * (PointerSize - i - 1)
    requires forall j :: 0 <= j < |rest| ==>
               rest[j] == if j % 2 == 0 then ReplayAttempt(t, text[i + 1 + j / 2]) else Sleep(ReplayDelayMs)
    ensures var r := [ReplayAttempt(t, text[i]), Sleep(ReplayDelayMs)] + rest;
            forall j :: 0 <= j < |r| ==>
              r[j] == if j % 2 == 0 then ReplayAttempt(t, text[i + j / 2]) else Sleep(ReplayDelayMs)
  {
  }

  /**
    KeyText(loggedText): the loop bound is sizeof(text) with text a pointer,
    so exactly PointerSize bytes from the start of the buffer are replayed,
    whatever the cursor says.
   */
  function KeyText(t: LayoutTables, text: seq<Ascii>): (r: seq<Action>)
    requires PointerSize <= |text|
    ensures |r| == 2 * PointerSize
    ensures forall j :: 0 <= j < |r| ==>
              r[j] == if j % 2 == 0 then ReplayAttempt(t, text[j / 2]) else Sleep(ReplayDelayMs)
  {
    KeyTextFrom(t, text, 0)
  }

  /**
    Replay against the logged text: the k-th replayed keystroke is the k-th
    logged character while the log holds one, and the zero byte past the
    cursor otherwise; characters past the PointerSize-th are never replayed.
   */
  lemma ReplayOfLog(t: LayoutTables, log: Log, k: nat)
    requires k < PointerSize
    ensures k <= log.last ==> KeyText(t, log.text)[2 * k] == ReplayAttempt(t, Snapshot(log)[k])
    ensures log.last < k ==> KeyText(t, log.text)[2 * k] == ReplayAttempt(t, 0)
    ensures KeyText(t, log.text)[2 * k + 1] == Sleep(ReplayDelayMs)
  {
    var r := KeyText(t, log.text);
    assert (2 * k) % 2 == 0 && (2 * k) / 2 == k;
    assert (2 * k + 1) % 2 == 1;
    assert r[2 * k] == ReplayAttempt(t, log.text[k]);
  }
}
