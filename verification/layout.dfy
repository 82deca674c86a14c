/**
  The two static translation tables: keycode2ascii (usage code to the
  unshifted and shifted character) and ascii2keycode (character to the
  shift flag and usage code). Their contents come from the USB stack's
  keyboard layout macros, so they are kept abstract: any pair of 128-entry
  tables is admitted that meets the two assumptions the bridge relies on.
 */
module Layout {
  import opened Hid

  const TableSize: nat := 128

  /** A seven-bit character, the only kind the tables produce. */
  type Ascii = c: int | 0 <= c < 128

  datatype AsciiPair = AsciiPair(plain: byte, shifted: byte)
  datatype KeyPair = KeyPair(shift: byte, keycode: byte)

  datatype Tables = Tables(keycode2ascii: seq<AsciiPair>, ascii2keycode: seq<KeyPair>)

  /**
    The stated assumptions about the layout tables:
    both have 128 entries, usage code 0 (no key) maps to no character, and
    every byte stored in either table is below 128.
   */
  predicate Assumed(t: Tables) {
    && |t.keycode2ascii| == TableSize
    && |t.ascii2keycode| == TableSize
    && t.keycode2ascii[0] == AsciiPair(0, 0)
    && (forall i :: 0 <= i < |t.keycode2ascii| ==>
          t.keycode2ascii[i].plain < 128 && t.keycode2ascii[i].shifted < 128)
    && (forall i :: 0 <= i < |t.ascii2keycode| ==>
          t.ascii2keycode[i].shift < 128 && t.ascii2keycode[i].keycode < 128)
  }

  type LayoutTables = t: Tables | Assumed(t)
    witness Tables(seq(128, _ => AsciiPair(0, 0)), seq(128, _ => KeyPair(0, 0)))

  /** keycode2ascii[kc][0]: the character a key types without shift; the empty slot types none. */
  function Plain(t: LayoutTables, kc: byte): (c: Ascii)
    requires kc < TableSize
    ensures kc == 0 ==> c == 0
  {
    t.keycode2ascii[kc].plain
  }

  /** keycode2ascii[kc][shifted ? 1 : 0]: unshifted it agrees with Plain; the empty slot types none. */
  function Cased(t: LayoutTables, kc: byte, shifted: bool): (c: Ascii)
    requires kc < TableSize
    ensures !shifted ==> c == Plain(t, kc)
    ensures kc == 0 ==> c == 0
  {
    if shifted then t.keycode2ascii[kc].shifted else t.keycode2ascii[kc].plain
  }
}
