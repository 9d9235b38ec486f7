/**
 * The register map of the driver: HD44780 instruction opcodes, the flag
 * bits of each instruction group, and the fixed PCF8574 pin assignment
 * (bit 0 = RS, bit 1 = R/W, bit 2 = EN, bit 3 = backlight, bits 4..7 = the
 * data nibble D4..D7).
 */
module Registers {

  // Instruction opcodes
  const ClearDisplay: bv8 := 0x01
  const ReturnHome: bv8 := 0x02
  const EntryModeSet: bv8 := 0x04
  const DisplayControl: bv8 := 0x08
  const CursorShift: bv8 := 0x10
  const FunctionSet: bv8 := 0x20
  const SetCgramAddr: bv8 := 0x40
  const SetDdramAddr: bv8 := 0x80

  // Entry mode flags
  const EntryRight: bv8 := 0x00
  const EntryLeft: bv8 := 0x02
  const EntryShiftIncrement: bv8 := 0x01
  const EntryShiftDecrement: bv8 := 0x00

  // Display on/off control flags
  const DisplayOn: bv8 := 0x04
  const DisplayOff: bv8 := 0x00
  const CursorOn: bv8 := 0x02
  const CursorOff: bv8 := 0x00
  const BlinkOn: bv8 := 0x01
  const BlinkOff: bv8 := 0x00

  // Display/cursor shift flags (declared by the driver, never sent by it)
  const DisplayMove: bv8 := 0x08
  const CursorMove: bv8 := 0x00
  const MoveRight: bv8 := 0x04
  const MoveLeft: bv8 := 0x00

  // Function set flags
  const EightBitMode: bv8 := 0x10
  const FourBitMode: bv8 := 0x00
  const TwoLine: bv8 := 0x08
  const OneLine: bv8 := 0x00
  const Dots5x10: bv8 := 0x04
  const Dots5x8: bv8 := 0x00

  // Backlight pin of the expander
  const Backlight: bv8 := 0x08
  const NoBacklight: bv8 := 0x00

  // Control pins of the expander
  const Enable: bv8 := 0x04
  const ReadWrite: bv8 := 0x02
  const RegisterSelect: bv8 := 0x01
  const CommandMode: bv8 := 0x00

  /** Bits 4..7 of an expander byte carry the nibble being transferred. */
  const NibbleMask: bv8 := 0xF0
}
