/**
 * The operations of lcd_driver.js whose code does something other than
 * what it evidently means, modelled as written, each with the input that
 * shows the difference. The corrected behaviour is what the driver module
 * models.
 */
module AsWritten {
  import opened Wrappers
  import opened Configuration
  import opened Protocol
  import opened Driver
  import Registers

  /** A JavaScript exception escaping an operation. */
  datatype Thrown = ReferenceError(name: string)

  /**
   * `backlightOn()` / `backlightOff()` as written: the mirror is updated,
   * then the call to the unbound global `writei2c` throws before anything
   * reaches the bus.
   */
  function SetBacklightAsWritten(conf: Config, on: bool): (r: (Step, Thrown))
    ensures r.0.conf.backlight == on && r.0.bus == []
    ensures r.0.conf == conf.(backlight := on)
  {
    (Step(conf.(backlight := on), []), ReferenceError("writei2c"))
  }

  /**
   * Right after construction the backlight is lit; `backlightOff()` as
   * written leaves the mirror saying "off" while the expander still holds a
   * byte with the backlight bit set, so the light stays on and the mirror is
   * wrong from then on.
   */
  lemma BacklightOffDesyncs()
    ensures var boot := Init();
      var r := SetBacklightAsWritten(boot.conf, false);
      PinAgrees(boot.conf, boot.bus) && !PinAgrees(r.0.conf, boot.bus + r.0.bus)
  {
    var boot := Init();
    SendConfEndsLit(Defaults);
    var r := SetBacklightAsWritten(boot.conf, false);
    assert boot.bus + r.0.bus == boot.bus;
  }

  /** The corrected toggle keeps the pin and the mirror together in the same situation. */
  lemma BacklightOffAgrees()
    ensures var boot := Init();
      var s := BacklightOff(boot.conf);
      PinAgrees(s.conf, boot.bus + s.bus) && !s.conf.backlight
  {
    var boot := Init();
    var s := BacklightOff(boot.conf);
    assert (boot.bus + s.bus)[|boot.bus + s.bus| - 1] == s.bus[0];
  }

  /**
   * `createChar(ch, data)` as written: `displayPorts.CHR` is undefined and
   * `x | undefined` is `x`, so the pattern rows go to the instruction
   * register instead of CGRAM.
   */
  function CreateCharAsWritten(conf: Config, ch: int, data: seq<int>): (s: Step)
    ensures s.conf == conf && |s.bus| == 60
    ensures DecodeAll(conf.backlight, s.bus).Some?
    ensures var ts := DecodeAll(conf.backlight, s.bus).value;
      |ts| == 10 && forall i :: 1 <= i < 9 ==> ts[i].mode == Command
    ensures Sends(s, GlyphTransfers(ch, data, Command))
  {
    CreateCharIn(conf, ch, data, Command)
  }

  /**
   * A glyph whose first row is 0b00001 (a dot in the rightmost column) is
   * executed as Clear Display by the code as written, whereas the corrected
   * operation stores it as a pattern row.
   */
  lemma GlyphRowClearsDisplay(conf: Config)
    ensures var ts := DecodeAll(conf.backlight, CreateCharAsWritten(conf, 0, [0x01]).bus).value;
      ts[1] == Transfer(Registers.ClearDisplay, Command)
    ensures var ts := DecodeAll(conf.backlight, CreateChar(conf, 0, [0x01]).bus).value;
      ts[1] == Transfer(0x01, Data)
  {
  }

  /**
   * `setCursor(column, line)` as written: for a line outside the offset
   * table, `offset[line] + column` is NaN, which ORs into 0x80 as zero, so
   * the cursor silently goes to address 0 (the top-left cell).
   */
  function SetCursorAsWritten(conf: Config, column: int, line: int): (s: Step)
    ensures s.conf == conf && |s.bus| == 6
    ensures 0 <= line < 4 ==> Ok(s) == SetCursor(conf, column, line)
    ensures !(0 <= line < 4) ==> Sends(s, [Transfer(Registers.SetDdramAddr, Command)])
  {
    if 0 <= line < 4 then SetCursor(conf, column, line).value
    else Send(conf, [Transfer(Registers.SetDdramAddr, Command)])
  }

  /** Line 4 of column 5 lands on the top-left cell as written, and is rejected when corrected. */
  lemma CursorLineFourHomes(conf: Config)
    ensures Sends(SetCursorAsWritten(conf, 5, 4), [Transfer(DdramCommand(CellAddress(0, 0)), Command)])
    ensures SetCursor(conf, 5, 4) == Err(InvalidLine(4))
  {
    assert DdramCommand(CellAddress(0, 0)) == Registers.SetDdramAddr;
  }
}
