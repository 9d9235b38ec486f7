/**
 * The second copy of the driver (src/lcd_driver.js). It runs the same
 * protocol engine as the main driver but keeps its configuration in one
 * record that starts with the backlight on, and its `_init` leaves the
 * backlight alone. Its enable pulse names a constant that does not exist.
 */
module SrcVariant {
  import opened Wrappers
  import opened Configuration
  import opened Protocol
  import Registers

  /** The record's initial contents: the main driver's defaults with the backlight on. */
  const SrcDefaults: Config := Defaults.(backlight := true)

  /** The register bytes the initial record produces. */
  lemma SrcDefaultRegisters()
    ensures SrcDefaults.backlight
    ensures FunctionSetByte(SrcDefaults) == 0x2C
    ensures DisplayControlByte(SrcDefaults) == 0x0F
    ensures EntrySetByte(SrcDefaults) == 0x06
  {
  }

  /**
   * `_init`: every entry, display and function flag goes back to its
   * default, whatever it was; the backlight is not touched.
   */
  function SrcInit(conf: Config): (c: Config)
    ensures c.backlight == conf.backlight
    ensures FunctionSetByte(c) == 0x2C && DisplayControlByte(c) == 0x0F && EntrySetByte(c) == 0x06
  {
    Defaults.(backlight := conf.backlight)
  }

  /** `_init` forgets everything but the backlight: two records with the same backlight end equal. */
  lemma SrcInitForgets(a: Config, b: Config)
    requires a.backlight == b.backlight
    ensures SrcInit(a) == SrcInit(b)
    ensures SrcInit(SrcInit(a)) == SrcInit(a)
  {
  }

  /**
   * `write4` as written: `LCD._Enable` is undefined and `x | undefined` is
   * `x`, so the "pulse" writes the same byte again and EN never rises.
   */
  function SrcWrite4AsWritten(backlight: bool, data: bv8): (bus: seq<bv8>)
    ensures |bus| == 3 && bus[0] == bus[1] == bus[2]
    ensures bus[0] == data | BacklightBit(backlight)
  {
    WriteI2C(backlight, data) + WriteI2C(backlight, data) + WriteI2C(backlight, data)
  }

  /**
   * `write` as written: two such transfers, high nibble first. Each half is
   * one carrier byte repeated three times, and EN is low in every byte.
   */
  function SrcWriteAsWritten(backlight: bool, data: int, mode: Mode): (bus: seq<bv8>)
    ensures |bus| == 6
    ensures forall i :: 0 <= i < 6 ==> bus[i] & Registers.Enable == 0 && WellFormed(bus[i], backlight, mode)
    ensures bus[0] == bus[1] == bus[2] == Carrier(backlight, HighNibble(ByteOf(data)), mode)
    ensures bus[3] == bus[4] == bus[5] == Carrier(backlight, LowNibble(ByteOf(data)), mode)
  {
    SrcWrite4AsWritten(backlight, Payload(HighNibble(ByteOf(data)), mode))
    + SrcWrite4AsWritten(backlight, Payload(LowNibble(ByteOf(data)), mode))
  }

  /** Without a rising EN the controller latches nothing: no byte written this way is ever read. */
  lemma SrcWriteLatchesNothing(backlight: bool, data: int, mode: Mode)
    ensures var bus := SrcWriteAsWritten(backlight, data, mode);
      DecodeNibble(bus[0], bus[1], bus[2]).None? && DecodeNibble(bus[3], bus[4], bus[5]).None?
    ensures DecodeFrame(backlight, SrcWriteAsWritten(backlight, data, mode)).None?
  {
    var hi := Payload(HighNibble(ByteOf(data)), mode);
    var lo := Payload(LowNibble(ByteOf(data)), mode);
    SameTwice(hi | BacklightBit(backlight));
    SameTwice(lo | BacklightBit(backlight));
  }

  /** A byte repeated is never an EN-low, EN-high pair. */
  lemma SameTwice(x: bv8)
    ensures DecodeNibble(x, x, x).None?
  {
  }

  /** With the pulse named correctly the same write is read back exactly. */
  lemma SrcWriteCorrected(backlight: bool, data: int, mode: Mode)
    ensures DecodeFrame(backlight, Write(backlight, data, mode)) == Some(Transfer(ByteOf(data), mode))
  {
    FrameRoundTrip(backlight, Transfer(ByteOf(data), mode));
  }
}
