/**
 * The software mirror of the display configuration. The expander is write
 * only, so the driver keeps every flag of every instruction group and
 * rebuilds a whole register byte from it whenever one flag changes.
 */
module Configuration {
  import opened Registers

  datatype EntrySide = Left | Right
  datatype EntryShift = Increment | Decrement
  datatype DataLength = FourBit | EightBit
  datatype LineCount = OneLine | TwoLines
  datatype Font = Font5x8 | Font5x10

  /** One field per entry of the driver's screen configuration record. */
  datatype Config = Config(
    backlight: bool,
    entrySide: EntrySide,
    entryShift: EntryShift,
    blink: bool,
    cursor: bool,
    display: bool,
    dataLength: DataLength,
    lines: LineCount,
    font: Font)

  /** The record a fresh device starts from: everything on except the backlight. */
  const Defaults := Config(false, Left, Decrement, true, true, true, FourBit, TwoLines, Font5x10)

  function BacklightBit(on: bool): bv8 {
    if on then Backlight else NoBacklight
  }

  function EntrySideBit(s: EntrySide): bv8 {
    match s
    case Left => EntryLeft
    case Right => EntryRight
  }

  function EntryShiftBit(s: EntryShift): bv8 {
    match s
    case Increment => EntryShiftIncrement
    case Decrement => EntryShiftDecrement
  }

  function DataLengthBit(d: DataLength): bv8 {
    match d
    case FourBit => FourBitMode
    case EightBit => EightBitMode
  }

  function LineCountBit(n: LineCount): bv8 {
    match n
    case OneLine => Registers.OneLine
    case TwoLines => TwoLine
  }

  function FontBit(f: Font): bv8 {
    match f
    case Font5x8 => Dots5x8
    case Font5x10 => Dots5x10
  }

  /**
   * The Function Set instruction: opcode bit 5 and, below it, every flag of
   * the group. Bits 0..1 are unused by the instruction and stay clear.
   */
  function FunctionSetByte(c: Config): (b: bv8)
    ensures b & 0xE0 == FunctionSet
    ensures b & EightBitMode != 0 <==> c.dataLength == EightBit
    ensures b & TwoLine != 0 <==> c.lines == TwoLines
    ensures b & Dots5x10 != 0 <==> c.font == Font5x10
    ensures b & 0x03 == 0
  {
    FunctionSet | DataLengthBit(c.dataLength) | LineCountBit(c.lines) | FontBit(c.font)
  }

  /** The Display On/Off Control instruction carrying all three flags of the group. */
  function DisplayControlByte(c: Config): (b: bv8)
    ensures b & 0xF8 == DisplayControl
    ensures b & DisplayOn != 0 <==> c.display
    ensures b & CursorOn != 0 <==> c.cursor
    ensures b & BlinkOn != 0 <==> c.blink
  {
    DisplayControl | DisplayOnBit(c.display) | CursorOnBit(c.cursor) | BlinkOnBit(c.blink)
  }

  /** The Entry Mode Set instruction carrying both flags of the group. */
  function EntrySetByte(c: Config): (b: bv8)
    ensures b & 0xFC == EntryModeSet
    ensures b & EntryLeft != 0 <==> c.entrySide == Left
    ensures b & EntryShiftIncrement != 0 <==> c.entryShift == Increment
  {
    EntryModeSet | EntrySideBit(c.entrySide) | EntryShiftBit(c.entryShift)
  }

  function DisplayOnBit(on: bool): bv8 {
    if on then DisplayOn else DisplayOff
  }

  function CursorOnBit(on: bool): bv8 {
    if on then CursorOn else CursorOff
  }

  function BlinkOnBit(on: bool): bv8 {
    if on then BlinkOn else BlinkOff
  }

  /** Reads the three Display Control flags back out of an instruction byte. */
  function DisplayFlags(b: bv8): (bool, bool, bool) {
    (b & DisplayOn != 0, b & CursorOn != 0, b & BlinkOn != 0)
  }

  /**
   * A Display Control byte determines its group exactly: two records send
   * the same byte if and only if they agree on display, cursor and blink.
   */
  lemma DisplayControlDeterminesGroup(c: Config, d: Config)
    ensures DisplayControlByte(c) == DisplayControlByte(d)
        <==> (c.display, c.cursor, c.blink) == (d.display, d.cursor, d.blink)
  {
  }

  /** Likewise for Function Set and its three flags. */
  lemma FunctionSetDeterminesGroup(c: Config, d: Config)
    ensures FunctionSetByte(c) == FunctionSetByte(d)
        <==> (c.dataLength, c.lines, c.font) == (d.dataLength, d.lines, d.font)
  {
  }

  /** Likewise for Entry Mode Set and its two flags. */
  lemma EntrySetDeterminesGroup(c: Config, d: Config)
    ensures EntrySetByte(c) == EntrySetByte(d)
        <==> (c.entrySide, c.entryShift) == (d.entrySide, d.entryShift)
  {
  }

  /** With the default record the three registers are 0x2C, 0x0F and 0x06. */
  lemma DefaultRegisters()
    ensures FunctionSetByte(Defaults) == 0x2C
    ensures DisplayControlByte(Defaults) == 0x0F
    ensures EntrySetByte(Defaults) == 0x06
  {
  }
}
