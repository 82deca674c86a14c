/**
  Boot-protocol HID vocabulary shared by the host side and the device side of
  the bridge: bytes, the six-slot keyboard report, the modifier bits, the
  device report ids, and the two kinds of output the bridge produces
  (requests to send a report, and the events that actually leave the device).
 */
module Hid {

  type byte = x: int | 0 <= x < 256
  type int8 = x: int | -128 <= x < 128

  /** The six key slots of a boot keyboard report. */
  type Keys = s: seq<byte> | |s| == 6 witness [0, 0, 0, 0, 0, 0]

  const NoKeys: Keys := [0, 0, 0, 0, 0, 0]

  /** Keyboard report as the host stack delivers it (the reserved byte is never read). */
  datatype KeyboardReport = KeyboardReport(modifier: byte, keycode: Keys)

  // Modifier byte of the boot keyboard report (Device Class Definition for
  // HID 1.11, appendix B.1): bit 1 left shift, bit 2 left alt, bit 5 right
  // shift, bit 6 right alt.
  const LeftShift: byte := 0x02
  const LeftAlt: byte := 0x04
  const RightShift: byte := 0x20
  const RightAlt: byte := 0x40

  predicate ShiftHeld(modifier: byte) {
    (modifier as bv8) & ((LeftShift as bv8) | (RightShift as bv8)) != 0
  }

  predicate AltHeld(modifier: byte) {
    (modifier as bv8) & ((LeftAlt as bv8) | (RightAlt as bv8)) != 0
  }

  // Report ids of the device interface's composite report descriptor.
  const ReportIdKeyboard: byte := 1
  const ReportIdMouse: byte := 2

  /** What the bridge logic asks for: a call of send_hid_report, or a pause. */
  datatype Action =
    | Send(reportId: byte, modifier: byte, keycode: Keys)
    | Sleep(ms: nat)

  /** What leaves the device interface, in order. */
  datatype Event =
    | KeyboardOut(modifier: byte, keycode: Keys)
    | MouseOut(buttons: byte, x: int8, y: int8, wheel: int8, pan: int8)
    | Delay(ms: nat)

  /** Linear search of the six key slots for a usage code. */
  method FindKeyInReport(report: KeyboardReport, keycode: byte) returns (found: bool)
    ensures found <==> exists i :: 0 <= i < 6 && report.keycode[i] == keycode
  {
    var i := 0;
    while i < 6
      invariant 0 <= i <= 6
      invariant forall j :: 0 <= j < i ==> report.keycode[j] != keycode
    {
      if report.keycode[i] == keycode {
        return true;
      }
      i := i + 1;
    }
    return false;
  }
}
