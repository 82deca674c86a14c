# Keyboard pass-through, keystroke log and replay — a Dafny model

The `host_hid_to_device_hid` example runs on an RP2040 with two USB controllers.
One acts as a USB host and polls a boot keyboard. The other acts as a USB HID
device towards a computer. Every keyboard report the host side receives goes to
`process_kbd_report`, which does four things:

- it looks up each of the six key slots in the `keycode2ascii` table, both unshifted and cased;
- it logs the cased character of slot 0 into a 128-byte buffer (`loggedText`, with cursor `lastLog`);
- on the hotkey 'p' + 'b' + Shift + Alt it replays the log as synthetic keystrokes (`KeyText`);
- it forwards the report, masked after a replay, through `send_hid_report`.

The model is a functional state machine:

- `KeyLog.Log` is the log state: the 128-byte buffer plus the cursor. A subset type keeps its invariant: the cursor lies in -1..127 and every slot past the cursor is still zero.
- `Bridge.ProcessKbdReport` is one report step. It returns the new log and the list of *actions* the C code performs, in order. An action is either a call of `send_hid_report` or a `sleep_ms`.
- `Device.Transmit` turns actions into the *events* that leave the device interface. Readiness (`tud_hid_ready()`) is an input oracle: `ready(k)` answers the k-th send attempt.
- The slot loop is modelled iteration by iteration (`Bridge.SlotStep`, `Bridge.ScanSlots`), mutating a local modifier exactly as the C loop does. `Bridge.ScanSummary` proves by induction what the six iterations leave behind. Every other property is derived from that summary.

The two lookup tables come from TinyUSB layout macros that are not part of this model. They are kept abstract (`Layout.LayoutTables`): any pair of 128-entry tables is allowed, subject to two stated assumptions:

- entry 0 of `keycode2ascii` is `{0, 0}`, so an empty slot reads as no character;
- every byte stored in either table is below 128.

Some constants come from headers that are not part of this model:

- Modifier bits follow the boot keyboard layout (Device Class Definition for HID 1.11, appendix B.1): left shift 0x02, left alt 0x04, right shift 0x20, right alt 0x40.
- Report ids follow the example's `usb_descriptors.h` convention: keyboard 1, mouse 2. `usb_descriptors.h` is not part of this model.
- Interface protocol 1 means boot keyboard.

Quirks of the code that the model reproduces:

- The hotkey test sits inside the slot loop. It can succeed only in iteration 1: in iteration 0, slot 1 is still 0. After it fires, the local modifier is 0, so no later iteration sees Shift.
- After a replay, slots 2–5 are refilled from the incoming report. The forwarded report is therefore `{0, 0, k2, k3, k4, k5}` with modifier 0.
- `KeyText` loops to `sizeof(text)`, where `text` is a `uint8_t*`. It therefore replays exactly `PointerSize` = 4 bytes from the start of the buffer (4 is the pointer size on the 32-bit RP2040). It does not replay `lastLog + 1` bytes. A shorter log is padded with the zero bytes past the cursor; a longer one is cut to 4.
- `prev_report` is never read. Nothing detects key releases or duplicate reports: a key held across several reports is logged once per report.
- Mouse input is never forwarded. The mouse handler only formats text that is never written. `send_hid_report` with the mouse id would emit a canned movement, but no caller issues it.
- The log has no overflow policy. Once `lastLog` is 127, the next append writes `loggedText[128]`, past the end of the buffer.
- Undefined behaviour is an explicit outcome, `Bridge.Undefined(fault)`. It is never given a meaning. It arises in two cases:
  - a usage code of 128 or more reads past `keycode2ascii` (`KeycodeOutsideTable`);
  - an append while `lastLog == 127` writes `loggedText[128]` (`LogOverflow`).

## Model

| member | source | states |
|---|---|---|
| Hid.FindKeyInReport | examples/host_hid_to_device_hid/host_hid_to_device_hid.c:272-280 | returns true exactly when one of the six slots holds the given usage code |
| Device.SendHidReport | examples/host_hid_to_device_hid/host_hid_to_device_hid.c:107-132 | when the interface is not ready, nothing is emitted. Otherwise the keyboard id emits the given modifier and keys unchanged, the mouse id emits the fixed report (buttons 0, x 5, y 5, wheel 0, pan 0) whatever the input, and any other id emits nothing |
| Device.TransmitWhenAlwaysReady | examples/host_hid_to_device_hid/host_hid_to_device_hid.c:107-117 | a batch of keyboard sends and pauses sent to an interface that is always ready comes out complete, unchanged and in order |
| Device.TransmitWhenNeverReady | examples/host_hid_to_device_hid/host_hid_to_device_hid.c:107-110 | when the interface is never ready, no report leaves it and only the pause markers remain; skipped reports are never sent later |
| KeyLog.Empty | examples/host_hid_to_device_hid/host_hid_to_device_hid.c:299-301 | the start-up log holds no characters and its buffer is all zero |
| KeyLog.Append | examples/host_hid_to_device_hid/host_hid_to_device_hid.c:366-367 | the write falls outside the buffer exactly when the cursor is already at 127. Otherwise the logged text grows by exactly that character at its end, and every other buffer slot is untouched |
| KeyLog.ReplayAttemptShape | examples/host_hid_to_device_hid/host_hid_to_device_hid.c:287-294 | one replayed keystroke is a keyboard send with the character's usage code in slot 0 and the other five slots empty; its modifier is exactly left shift when the ascii2keycode entry's flag is nonzero and 0 otherwise, so never Alt |
| KeyLog.KeyTextFrom | examples/host_hid_to_device_hid/host_hid_to_device_hid.c:285-296 | the remaining loop iterations issue one keystroke per buffer byte, in index order, each followed by a 50 ms pause |
| KeyLog.KeyText | examples/host_hid_to_device_hid/host_hid_to_device_hid.c:283-297 | the replay issues exactly 2 × PointerSize actions: keystroke k carries buffer byte k, with the key alone in slot 0 and left shift exactly when the ascii2keycode entry asks for it, and a 50 ms pause follows each keystroke |
| KeyLog.ReplayOfLog | examples/host_hid_to_device_hid/host_hid_to_device_hid.c:283-301 | keystroke k of the replay is the k-th logged character while the log holds one, and the zero byte otherwise; the cursor plays no part |
| Bridge.ScanSummary | examples/host_hid_to_device_hid/host_hid_to_device_hid.c:310-348 | after n iterations of the slot loop: the replay has run once if n ≥ 2 and the hotkey holds, and not at all otherwise. The local modifier is then 0, or else the incoming modifier. The lookups, the keycode copy and the cased characters hold exactly the values for slots below n, with the masking the replay applies |
| Bridge.HotkeyTestedOnce | examples/host_hid_to_device_hid/host_hid_to_device_hid.c:322-331 | the in-loop hotkey test succeeds in iteration i if and only if i is 1 and the hotkey holds on the incoming report, so the replay runs at most once per report |
| Bridge.PassThroughWithoutHotkey | examples/host_hid_to_device_hid/host_hid_to_device_hid.c:310-371 | without the hotkey, the only action is one keyboard send with exactly the incoming modifier and all six incoming keycodes, in order |
| Bridge.HotkeyReplaysAndMasks | examples/host_hid_to_device_hid/host_hid_to_device_hid.c:317-371 | with the hotkey, the step is always defined and the log is unchanged. The actions are the replay followed by one keyboard send with modifier 0, slots 0 and 1 cleared and slots 2–5 as received |
| Bridge.ReplayIffHotkey | examples/host_hid_to_device_hid/host_hid_to_device_hid.c:322-331 | a replay pause appears in the step's actions if and only if slot 0 reads 'p', slot 1 reads 'b', a shift bit is set and an alt bit is set |
| Bridge.ShiftWithoutAltDoesNotReplay | examples/host_hid_to_device_hid/host_hid_to_device_hid.c:322-328 | a modifier byte with neither alt bit set (shift, ctrl or gui in any combination) never triggers the replay, whatever the keys |
| Bridge.LogUpdate | examples/host_hid_to_device_hid/host_hid_to_device_hid.c:322-368 | without the hotkey and with a nonzero cased slot-0 character, the cursor rises by one and that byte is stored there, with no other slot touched. If the log is full this is undefined (overflow). With the hotkey, or with a zero character, the log and cursor are unchanged |
| Bridge.ReleaseForwarded | examples/host_hid_to_device_hid/host_hid_to_device_hid.c:310-371 | a report with no keys down is forwarded with its modifier and six zero slots, and logs nothing |
| Bridge.ReplayedKeyIsRelogged | examples/host_hid_to_device_hid/host_hid_to_device_hid.c:289-294 | a replayed keystroke for a character c, fed back to the host side, is forwarded as is and logs c again, provided the two tables agree on c |
| Bridge.LogKeepsTypedOrder | examples/host_hid_to_device_hid/host_hid_to_device_hid.c:364-368 | for any run of in-table reports, releases and hotkey reports included, the run stays defined while the log has room. It appends exactly the nonzero cased slot-0 characters of the non-hotkey reports, in arrival order, and nothing else |
| Bridge.PassThroughDelivered | examples/host_hid_to_device_hid/host_hid_to_device_hid.c:107-117 | without the hotkey, exactly the incoming report leaves the device when the interface is ready, and nothing leaves it when it is not |
| Bridge.ReplayDelivered | examples/host_hid_to_device_hid/host_hid_to_device_hid.c:283-297 | with the hotkey and an interface that is always ready, the device emits the replayed keystrokes and their pauses, then the masked report `{0, 0, k2..k5}` with modifier 0 |
| Bridge.ReportReceived | examples/host_hid_to_device_hid/host_hid_to_device_hid.c:391-407 | a report from anything other than a boot keyboard leaves the log unchanged and emits nothing |
| Layout.Plain | examples/host_hid_to_device_hid/host_hid_to_device_hid.c:325 | the unshifted character of a usage code; the empty slot (usage code 0) types no character |
| Layout.Cased | examples/host_hid_to_device_hid/host_hid_to_device_hid.c:324 | the cased character of a usage code: without shift it is the unshifted character, and the empty slot types no character whether shifted or not |
| Device.Transmit | examples/host_hid_to_device_hid/host_hid_to_device_hid.c:107-110 | a batch never yields more events than it has actions, and when the interface is never ready again every event is a pause |
| KeyLog.ReplayAttempt | examples/host_hid_to_device_hid/host_hid_to_device_hid.c:287-295 | every replayed keystroke is a keyboard report send, never a pause or a mouse report |
| KeyLog.KeyTextFromCons | examples/host_hid_to_device_hid/host_hid_to_device_hid.c:285-296 | unrolling one iteration of the replay loop puts byte i first and shifts every later keystroke and pause two places along |
| Bridge.SlotStep | examples/host_hid_to_device_hid/host_hid_to_device_hid.c:317-362 | one iteration of the slot loop records the unshifted character of slot i |
| Bridge.ScanSlots | examples/host_hid_to_device_hid/host_hid_to_device_hid.c:317-362 | after n iterations the slots not yet read still hold no character, and the local modifier is either the incoming one or 0 |
| Bridge.TestAtIteration | examples/host_hid_to_device_hid/host_hid_to_device_hid.c:322-331 | given what the first i iterations leave behind, the hotkey test of iteration i succeeds exactly when i is 1 and the hotkey holds |
| Bridge.ProcessKbdReport | examples/host_hid_to_device_hid/host_hid_to_device_hid.c:304-372 | a step is undefined because of the table exactly when some slot holds a usage code of 128 or more. A defined step only appends to the logged text, by at most one character, and always ends with a keyboard report send |
| Bridge.StepLogs | examples/host_hid_to_device_hid/host_hid_to_device_hid.c:364-368 | when the log has room, a step of an in-table report is defined and appends exactly its typed character: the nonzero cased slot-0 character of a non-hotkey report, and nothing otherwise |
| Bridge.KeyboardReportForwarded | examples/host_hid_to_device_hid/host_hid_to_device_hid.c:396-400 | a boot keyboard report fails only on an out-of-table usage code (exactly then) or a full log, and otherwise ends by forwarding a keyboard report |

## Left out

- `main` and `core1_main`: clock setup, multicore launch, stack initialisation and polling loops. This is platform bring-up and concurrency.
- `tuh_hid_umount_cb`: it only formats text into a local buffer that is never written out.
- `tuh_hid_mount_cb`: besides formatting text that is never written, it calls `tuh_hid_receive_report` for keyboard and mouse interfaces (lines 251-259), which arms report delivery. The model takes every report as delivered; the call into the USB host stack is not modelled.
- The `tuh_hid_receive_report` re-arm at the end of `tuh_hid_report_received_cb` (line 410): a call into the USB host stack, like the arming at mount time.
- `process_mouse_report`: it only formats text that is never written. `Bridge.ReportReceived` models its lack of effect, and that of any protocol other than keyboard or mouse.
- The cast of the raw received buffer to `hid_keyboard_report_t`: the model receives the report already split into its modifier and six slots. The `len` argument is ignored, as the code ignores it.
- The device-side control callbacks, which answer the USB device stack and are outside this model:
  - `tud_hid_get_report_cb` returns 0, so the stack STALLs every GET_REPORT request (lines 178-189);
  - `tud_hid_set_report_cb` reads the LED byte of an output report and does nothing with it;
  - `tud_hid_report_complete_cb` computes the next report id and does not use it.
- The `KEYBOARD_COLEMAK` table: it is compiled out.
- All commented-out code: `hid_task`, CDC receive, LED handling.
- The real contents of `HID_KEYCODE_TO_ASCII` and `HID_ASCII_TO_KEYCODE`: they are abstract, with only the two assumptions stated above.
- `sleep_ms`: modelled as a pause marker (`Sleep` / `Delay` of 50 ms), not as real time.
- `tud_hid_ready`: an input oracle per send attempt, not a model of the USB device stack.
- Bridge.PassThroughWithoutHotkey: it speaks only of defined steps. The one undefined case without the hotkey (an append to a full log) is covered by Bridge.LogUpdate.
- Bridge.ReportReceived: for a boot keyboard it just runs Bridge.ProcessKbdReport, so its contract states only the non-keyboard case.
- Out-of-table usage codes: a step that reads past `keycode2ascii` is undefined as a whole. The keystrokes a replay may already have issued before the bad read (a hotkey in slots 0–1 with a bad slot 2–5) are not modelled separately.
