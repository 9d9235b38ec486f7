/**
 * The public operations of the LCD driver over the protocol engine. Each
 * operation takes the mirrored configuration and returns the updated
 * configuration together with the expander bytes it puts on the bus.
 * Delays between bus writes are not modelled.
 */
module Driver {
  import opened Wrappers
  import opened Configuration
  import opened Protocol
  import Registers

  /** The effect of one operation: the new mirror and the bytes written, in order. */
  datatype Step = Step(conf: Config, bus: seq<bv8>)

  datatype DriverError = InvalidLine(line: int)

  /** The bus reads, under the step's backlight state, as exactly the logical bytes `ts`. */
  ghost predicate Sends(s: Step, ts: seq<Transfer>) {
    DecodeAll(s.conf.backlight, s.bus) == Some(ts)
  }

  /** Writes logical bytes under the mirror's current backlight state. */
  function Send(conf: Config, ts: seq<Transfer>): (s: Step)
    ensures s.conf == conf
    ensures |s.bus| == 6 * |ts|
    ensures Sends(s, ts)
    ensures Uniform(s)
  {
    DecodeEncode(conf.backlight, ts);
    Step(conf, EncodeAll(conf.backlight, ts))
  }

  // ---------------------------------------------------------------------
  // Whole-register writes
  // ---------------------------------------------------------------------

  /** Resends Function Set rebuilt from every flag of its group. */
  function WriteFunctionSet(conf: Config): (s: Step)
    ensures s.conf == conf
    ensures Sends(s, [Transfer(FunctionSetByte(conf), Command)])
  {
    Send(conf, [Transfer(FunctionSetByte(conf), Command)])
  }

  /** Resends Display Control rebuilt from every flag of its group. */
  function WriteDisplayControl(conf: Config): (s: Step)
    ensures s.conf == conf
    ensures Sends(s, [Transfer(DisplayControlByte(conf), Command)])
  {
    Send(conf, [Transfer(DisplayControlByte(conf), Command)])
  }

  /** Resends Entry Mode Set rebuilt from every flag of its group. */
  function WriteEntrySet(conf: Config): (s: Step)
    ensures s.conf == conf
    ensures Sends(s, [Transfer(EntrySetByte(conf), Command)])
  {
    Send(conf, [Transfer(EntrySetByte(conf), Command)])
  }

  /**
   * The bus of `s` is one Display Control instruction whose three flags are
   * `display`, `cursor` and `blink`: the whole register, not just one bit.
   */
  ghost predicate SendsDisplayControl(s: Step, display: bool, cursor: bool, blink: bool) {
    && |s.bus| == 6
    && DecodeAll(s.conf.backlight, s.bus).Some?
    && |DecodeAll(s.conf.backlight, s.bus).value| == 1
    && var t := DecodeAll(s.conf.backlight, s.bus).value[0];
       && t.mode == Command
       && t.value & 0xF8 == Registers.DisplayControl
       && DisplayFlags(t.value) == (display, cursor, blink)
  }

  // ---------------------------------------------------------------------
  // Fixed instructions
  // ---------------------------------------------------------------------

  function Clear(conf: Config): (s: Step)
    ensures s.conf == conf && |s.bus| == 6
    ensures Sends(s, [Transfer(Registers.ClearDisplay, Command)])
  {
    Send(conf, [Transfer(Registers.ClearDisplay, Command)])
  }

  function Home(conf: Config): (s: Step)
    ensures s.conf == conf && |s.bus| == 6
    ensures Sends(s, [Transfer(Registers.ReturnHome, Command)])
  {
    Send(conf, [Transfer(Registers.ReturnHome, Command)])
  }

  // ---------------------------------------------------------------------
  // Toggles: change exactly the named fields, then resend the whole register
  // ---------------------------------------------------------------------

  function BlinkOff(conf: Config): (s: Step)
    ensures s.conf == conf.(blink := false)
    ensures SendsDisplayControl(s, conf.display, conf.cursor, false)
  {
    WriteDisplayControl(conf.(blink := false))
  }

  function BlinkOn(conf: Config): (s: Step)
    ensures s.conf == conf.(blink := true)
    ensures SendsDisplayControl(s, conf.display, conf.cursor, true)
  {
    WriteDisplayControl(conf.(blink := true))
  }

  function CursorOff(conf: Config): (s: Step)
    ensures s.conf == conf.(cursor := false)
    ensures SendsDisplayControl(s, conf.display, false, conf.blink)
  {
    WriteDisplayControl(conf.(cursor := false))
  }

  function CursorOn(conf: Config): (s: Step)
    ensures s.conf == conf.(cursor := true)
    ensures SendsDisplayControl(s, conf.display, true, conf.blink)
  {
    WriteDisplayControl(conf.(cursor := true))
  }

  /** `off()`: backlight and display go off together; the resent register already carries the dark backlight bit. */
  function Off(conf: Config): (s: Step)
    ensures s.conf == conf.(backlight := false, display := false)
    ensures SendsDisplayControl(s, false, conf.cursor, conf.blink)
    ensures forall i :: 0 <= i < |s.bus| ==> !BacklightPin(s.bus[i])
  {
    WriteDisplayControl(conf.(backlight := false, display := false))
  }

  /** `on()`: backlight and display come on together. */
  function On(conf: Config): (s: Step)
    ensures s.conf == conf.(backlight := true, display := true)
    ensures SendsDisplayControl(s, true, conf.cursor, conf.blink)
    ensures forall i :: 0 <= i < |s.bus| ==> BacklightPin(s.bus[i])
  {
    WriteDisplayControl(conf.(backlight := true, display := true))
  }

  /** Turning blink or the cursor off and back on restores the mirror, and so the register. */
  lemma ToggleRestores(conf: Config)
    ensures conf.blink ==> BlinkOn(BlinkOff(conf).conf).conf == conf
    ensures !conf.blink ==> BlinkOff(BlinkOn(conf).conf).conf == conf
    ensures conf.cursor ==> CursorOn(CursorOff(conf).conf).conf == conf
    ensures !conf.cursor ==> CursorOff(CursorOn(conf).conf).conf == conf
    ensures conf.backlight && conf.display ==> On(Off(conf).conf).conf == conf
    ensures !conf.backlight && !conf.display ==> Off(On(conf).conf).conf == conf
  {
  }

  /** Switching blink on twice writes the same register twice and changes nothing further; likewise the others. */
  lemma BlinkIdempotent(conf: Config)
    ensures BlinkOn(BlinkOn(conf).conf) == BlinkOn(conf)
    ensures BlinkOff(BlinkOff(conf).conf) == BlinkOff(conf)
  {
  }

  lemma CursorIdempotent(conf: Config)
    ensures CursorOn(CursorOn(conf).conf) == CursorOn(conf)
    ensures CursorOff(CursorOff(conf).conf) == CursorOff(conf)
  {
  }

  lemma PowerIdempotent(conf: Config)
    ensures On(On(conf).conf) == On(conf)
    ensures Off(Off(conf).conf) == Off(conf)
  {
  }

  /** Blink and cursor are independent: the order of two toggles does not matter. */
  lemma TogglesCommute(conf: Config)
    ensures BlinkOff(CursorOff(conf).conf) == CursorOff(BlinkOff(conf).conf)
    ensures BlinkOn(CursorOn(conf).conf) == CursorOn(BlinkOn(conf).conf)
  {
  }

  /**
   * Backlight toggles as intended: record the new state and put it on the
   * pins with a single expander write that carries no nibble, no EN and no RS,
   * so the controller latches nothing.
   */
  function SetBacklight(conf: Config, on: bool): (s: Step)
    ensures s.conf == conf.(backlight := on)
    ensures |s.bus| == 1
    ensures BacklightPin(s.bus[0]) <==> on
    ensures s.bus[0] & !Registers.Backlight == 0
  {
    Step(conf.(backlight := on), WriteI2C(on, Registers.CommandMode))
  }

  function BacklightOn(conf: Config): (s: Step)
    ensures s.conf == conf.(backlight := true) && s.bus == [Registers.Backlight]
  {
    SetBacklight(conf, true)
  }

  function BacklightOff(conf: Config): (s: Step)
    ensures s.conf == conf.(backlight := false) && s.bus == [Registers.NoBacklight]
  {
    SetBacklight(conf, false)
  }

  // ---------------------------------------------------------------------
  // Cursor addressing
  // ---------------------------------------------------------------------

  /** DDRAM address of the first cell of each display line. */
  const RowOffsets: seq<int> := [0x00, 0x40, 0x14, 0x54]

  /**
   * `setCursor(column, line)` for a line the offset table covers; any other
   * line is rejected before anything is written. The column is not range
   * checked: only the low eight bits of the sum reach the bus.
   */
  function SetCursor(conf: Config, column: int, line: int): (r: Result<Step, DriverError>)
    ensures r.Err? <==> !(0 <= line < 4)
    ensures r.Err? ==> r.error == InvalidLine(line)
    ensures r.Ok? ==> r.value.conf == conf && |r.value.bus| == 6
    ensures r.Ok? ==> Sends(r.value, [Transfer(DdramCommand(RowOffsets[line] + column), Command)])
  {
    if 0 <= line < 4 then
      Ok(Send(conf, [Transfer(DdramCommand(RowOffsets[line] + column), Command)]))
    else
      Err(InvalidLine(line))
  }

  /** Set DDRAM Address with the low bits of `address`. */
  function DdramCommand(address: int): (b: bv8)
    ensures b & Registers.SetDdramAddr != 0
    ensures b & 0x7F == ByteOf(address) & 0x7F
  {
    Registers.SetDdramAddr | ByteOf(address)
  }

  /** The DDRAM address of a cell: the line's row offset plus the column. */
  function CellAddress(column: int, line: int): int
    requires 0 <= line < 4
  {
    RowOffsets[line] + column
  }

  /**
   * The cell a DDRAM address denotes on a 20x4 panel, the widest geometry the
   * offset table serves; addresses outside the four rows denote no cell.
   */
  function CellOf(address: int): Option<(int, int)> {
    if 0x00 <= address < 0x14 then Some((address - 0x00, 0))
    else if 0x40 <= address < 0x54 then Some((address - 0x40, 1))
    else if 0x14 <= address < 0x28 then Some((address - 0x14, 2))
    else if 0x54 <= address < 0x68 then Some((address - 0x54, 3))
    else None
  }

  /** Every cell of a 20x4 panel has its own address, and the address tells the cell back. */
  lemma CellAddressRoundTrip(column: int, line: int)
    requires 0 <= column < 20 && 0 <= line < 4
    ensures CellOf(CellAddress(column, line)) == Some((column, line))
  {
  }

  /** Conversely every address of the four rows is the address of exactly the cell it denotes. */
  lemma CellOfRoundTrip(address: int)
    requires CellOf(address).Some?
    ensures var (column, line) := CellOf(address).value;
      0 <= column < 20 && 0 <= line < 4 && CellAddress(column, line) == address
  {
  }

  /** Distinct cells of a 20x4 panel never share an address. */
  lemma CellAddressInjective(c1: int, l1: int, c2: int, l2: int)
    requires 0 <= c1 < 20 && 0 <= l1 < 4 && 0 <= c2 < 20 && 0 <= l2 < 4
    requires CellAddress(c1, l1) == CellAddress(c2, l2)
    ensures c1 == c2 && l1 == l2
  {
    CellAddressRoundTrip(c1, l1);
    CellAddressRoundTrip(c2, l2);
  }

  // ---------------------------------------------------------------------
  // Printing
  // ---------------------------------------------------------------------

  /** A UTF-16 code unit, what `charCodeAt` returns. */
  type CodeUnit = x: int | 0 <= x < 0x1_0000

  /** The logical bytes of a string: one data write per code unit, reduced to eight bits. */
  function TextTransfers(text: seq<CodeUnit>): (ts: seq<Transfer>)
    ensures |ts| == |text|
    ensures forall i :: 0 <= i < |text| ==> ts[i] == Transfer(ByteOf(text[i]), Data)
  {
    seq(|text|, i requires 0 <= i < |text| => Transfer(ByteOf(text[i]), Data))
  }

  /**
   * `print(str)`. `text` is `None` when the argument is not a string, in
   * which case nothing is written. The mirror is never changed.
   */
  method Print(conf: Config, text: Option<seq<CodeUnit>>) returns (bus: seq<bv8>)
    ensures text.None? ==> bus == []
    ensures text.Some? ==> |bus| == 6 * |text.value|
    ensures text.Some? ==> DecodeAll(conf.backlight, bus) == Some(TextTransfers(text.value))
    ensures forall i :: 0 <= i < |bus| ==> bus[i] & Registers.RegisterSelect != 0
    ensures forall i :: 0 <= i < |bus| ==> BacklightPin(bus[i]) == conf.backlight
    ensures bus == PrintBus(conf, text)
  {
    bus := [];
    if text.Some? {
      var s := text.value;
      var i := 0;
      while i < |s|
        invariant 0 <= i <= |s|
        invariant bus == EncodeAll(conf.backlight, TextTransfers(s[..i]))
      {
        var frame := Write(conf.backlight, s[i], Data);
        PrintStep(conf.backlight, s, i);
        bus := bus + frame;
        i := i + 1;
      }
      assert s[..i] == s;
      DecodeEncode(conf.backlight, TextTransfers(s));
      TextIsData(conf.backlight, s);
    }
  }

  /** Printing one more code unit appends its frame to the trace. */
  lemma PrintStep(backlight: bool, s: seq<CodeUnit>, i: nat)
    requires i < |s|
    ensures EncodeAll(backlight, TextTransfers(s[..i + 1]))
      == EncodeAll(backlight, TextTransfers(s[..i])) + Write(backlight, s[i], Data)
  {
    var t := Transfer(ByteOf(s[i]), Data);
    assert TextTransfers(s[..i + 1]) == TextTransfers(s[..i]) + [t];
    EncodeAllAppend(backlight, TextTransfers(s[..i]), [t]);
    assert EncodeAll(backlight, [t]) == Encode(backlight, t) + EncodeAll(backlight, []);
  }

  /** Every byte of printed text has RS high: it all goes to the data register. */
  lemma TextIsData(backlight: bool, s: seq<CodeUnit>)
    ensures var bus := EncodeAll(backlight, TextTransfers(s));
      forall i :: 0 <= i < |bus| ==> bus[i] & Registers.RegisterSelect != 0
  {
    var ts := TextTransfers(s);
    EncodeAllWellFormed(backlight, ts);
    var bus := EncodeAll(backlight, ts);
    forall i | 0 <= i < |bus| ensures bus[i] & Registers.RegisterSelect != 0 {
      assert WellFormed(bus[i], backlight, ts[i / 6].mode);
    }
  }

  /** The bytes `print` writes, as one expression, for use in whole-run statements. */
  function PrintBus(conf: Config, text: Option<seq<CodeUnit>>): seq<bv8> {
    match text
    case None => []
    case Some(s) => EncodeAll(conf.backlight, TextTransfers(s))
  }

  // ---------------------------------------------------------------------
  // Custom glyphs
  // ---------------------------------------------------------------------

  /** Row `i` of a glyph pattern; a missing entry reads as 0, as an undefined array slot does. */
  function PatternRow(data: seq<int>, i: nat): int {
    if i < |data| then data[i] else 0
  }

  /** Set CGRAM Address for slot `ch & 7`. */
  function CgramCommand(ch: int): (b: bv8)
    ensures 0x40 <= b <= 0x78
    ensures b & 0xC7 == Registers.SetCgramAddr
    ensures (b >> 3) & 7 == ByteOf(ch) & 7
  {
    Registers.SetCgramAddr | ((ByteOf(ch) & 7) << 3)
  }

  /** The logical bytes of `createChar`, with the glyph rows sent to the register of `rowMode`. */
  function GlyphTransfers(ch: int, data: seq<int>, rowMode: Mode): (ts: seq<Transfer>)
    ensures |ts| == 10
  {
    [Transfer(CgramCommand(ch), Command)]
    + seq(8, i requires 0 <= i < 8 => Transfer(ByteOf(PatternRow(data, i)), rowMode))
    + [Transfer(Registers.SetDdramAddr, Command)]
  }

  function CreateCharIn(conf: Config, ch: int, data: seq<int>, rowMode: Mode): (s: Step)
    ensures s.conf == conf && |s.bus| == 60
    ensures Sends(s, GlyphTransfers(ch, data, rowMode))
  {
    Send(conf, GlyphTransfers(ch, data, rowMode))
  }

  /**
   * `createChar(ch, data)` with the glyph rows written to CGRAM as data:
   * the slot address, the eight rows in order, then DDRAM address 0.
   */
  function CreateChar(conf: Config, ch: int, data: seq<int>): (s: Step)
    ensures s.conf == conf && |s.bus| == 60
    ensures DecodeAll(conf.backlight, s.bus).Some?
    ensures var ts := DecodeAll(conf.backlight, s.bus).value;
      && |ts| == 10
      && ts[0].mode == Command && 0x40 <= ts[0].value <= 0x78
      && ts[0].value & 7 == 0 && (ts[0].value >> 3) & 7 == ByteOf(ch) & 7
      && (forall i :: 0 <= i < 8 ==> ts[i + 1] == Transfer(ByteOf(PatternRow(data, i)), Data))
      && ts[9] == Transfer(Registers.SetDdramAddr, Command)
  {
    CreateCharIn(conf, ch, data, Data)
  }

  // ---------------------------------------------------------------------
  // Power-on initialization
  // ---------------------------------------------------------------------

  /** The five instructions that follow the switch to 4-bit mode. */
  function SetupCommands(conf: Config): seq<Transfer> {
    [ Transfer(FunctionSetByte(conf), Command),
      Transfer(DisplayControlByte(conf), Command),
      Transfer(EntrySetByte(conf), Command),
      Transfer(Registers.ClearDisplay, Command),
      Transfer(Registers.ReturnHome, Command) ]
  }

  /** The nibbles of the resynchronisation: 0x3 three times, then 0x2 (4-bit interface). */
  const ResyncNibbles: seq<bv8> := [0x30, 0x30, 0x30, 0x20]

  /**
   * `_sendConf`: pull RS and R/W low with one bare write, resynchronise the
   * interface with nibbles 0x3, 0x3, 0x3, 0x2 under the current backlight
   * state, turn the backlight on, then send Function Set, Display Control,
   * Entry Mode Set, Clear and Home rebuilt from the mirror.
   */
  function SendConf(conf: Config): (s: Step)
    ensures s.conf == conf.(backlight := true)
    ensures |s.bus| == 43
    ensures s.bus[0] == BacklightBit(conf.backlight)
    ensures DecodeNibbles(s.bus[1..13]) == Some(ResyncRead(conf.backlight))
    ensures DecodeAll(true, s.bus[13..]) == Some(SetupCommands(s.conf))
  {
    var lit := conf.(backlight := true);
    var wake := WriteI2C(conf.backlight, Registers.CommandMode);
    var resync := Write4All(conf.backlight, ResyncNibbles);
    var setup := Send(lit, SetupCommands(lit)).bus;
    BareWrite(conf.backlight);
    ResyncDecodes(conf.backlight);
    ThreeParts(wake, resync, setup);
    Step(lit, wake + resync + setup)
  }

  /** What the controller latches from the resynchronisation under backlight state `backlight`. */
  function ResyncRead(backlight: bool): seq<Nibble> {
    [ Nibble(0x30, Command, backlight), Nibble(0x30, Command, backlight),
      Nibble(0x30, Command, backlight), Nibble(0x20, Command, backlight) ]
  }

  lemma ResyncDecodes(backlight: bool)
    ensures |Write4All(backlight, ResyncNibbles)| == 12
    ensures DecodeNibbles(Write4All(backlight, ResyncNibbles)) == Some(ResyncRead(backlight))
  {
    DecodeWrite4All(backlight, ResyncNibbles);
    var ns := DecodeNibbles(Write4All(backlight, ResyncNibbles)).value;
    assert ns[0] == ResyncRead(backlight)[0] && ns[1] == ResyncRead(backlight)[1];
    assert ns[2] == ResyncRead(backlight)[2] && ns[3] == ResyncRead(backlight)[3];
    assert ns == ResyncRead(backlight);
  }

  /** A write with no nibble, no EN and no RS puts just the backlight bit on the pins. */
  lemma BareWrite(backlight: bool)
    ensures WriteI2C(backlight, Registers.CommandMode) == [BacklightBit(backlight)]
  {
  }

  // Solver scaffolding: sequence associativity stated once, which keeps verification cheap.
  lemma ThreeParts(a: seq<bv8>, b: seq<bv8>, c: seq<bv8>)
    requires |a| == 1 && |b| == 12 && |c| == 30
    ensures var t := a + b + c;
      |t| == 43 && t[0] == a[0] && t[1..13] == b && t[13..] == c
  {
    var t := a + b + c;
    assert t[1..13] == b;
    assert t[13..] == c;
  }

  /** `_init`: the default mirror, sent to the device. */
  function Init(): (s: Step)
    ensures s.conf == Defaults.(backlight := true)
  {
    SendConf(Defaults)
  }

  /**
   * The bytes of the power-on sequence from the defaults: the bare write,
   * the resynchronisation triples with the backlight still off, then the
   * frames of 0x2C, 0x0F, 0x06, 0x01 and 0x02 with the backlight bit set.
   */
  const PowerOnBytes: seq<bv8> :=
    [0x00]
    + [0x30, 0x34, 0x30, 0x30, 0x34, 0x30, 0x30, 0x34, 0x30, 0x20, 0x24, 0x20]
    + [0x28, 0x2C, 0x28, 0xC8, 0xCC, 0xC8]
    + [0x08, 0x0C, 0x08, 0xF8, 0xFC, 0xF8]
    + [0x08, 0x0C, 0x08, 0x68, 0x6C, 0x68]
    + [0x08, 0x0C, 0x08, 0x18, 0x1C, 0x18]
    + [0x08, 0x0C, 0x08, 0x28, 0x2C, 0x28]

  /** Construction puts exactly the 43 power-on bytes on the bus and ends with the backlight on. */
  lemma InitTrace()
    ensures Init().bus == PowerOnBytes && |PowerOnBytes| == 43
    ensures Init().conf.backlight
  {
    var lit := Defaults.(backlight := true);
    DefaultRegisters();
    var ts := SetupCommands(lit);
    assert ts == [ Transfer(0x2C, Command), Transfer(0x0F, Command), Transfer(0x06, Command),
                   Transfer(0x01, Command), Transfer(0x02, Command) ];
    ResyncBytes();
    BareWrite(false);
    EncodeFive(true, ts);
    FrameBytes(0x2C, 0x28, 0xC8);
    FrameBytes(0x0F, 0x08, 0xF8);
    FrameBytes(0x06, 0x08, 0x68);
    FrameBytes(0x01, 0x08, 0x18);
    FrameBytes(0x02, 0x08, 0x28);
    Regroup([0x00], Write4All(false, ResyncNibbles),
      Encode(true, ts[0]), Encode(true, ts[1]), Encode(true, ts[2]), Encode(true, ts[3]), Encode(true, ts[4]));
  }

  // Solver scaffolding: regrouping a long concatenation, which keeps verification cheap.
  lemma Regroup<T>(w: seq<T>, r: seq<T>, a: seq<T>, b: seq<T>, c: seq<T>, d: seq<T>, e: seq<T>)
    ensures w + r + (a + b + c + d + e) == w + r + a + b + c + d + e
  {
  }

  /** Five logical bytes are their five frames, in order. */
  lemma EncodeFive(backlight: bool, ts: seq<Transfer>)
    requires |ts| == 5
    ensures EncodeAll(backlight, ts) ==
      Encode(backlight, ts[0]) + Encode(backlight, ts[1]) + Encode(backlight, ts[2])
      + Encode(backlight, ts[3]) + Encode(backlight, ts[4])
  {
    assert ts == [ts[0]] + [ts[1]] + [ts[2]] + [ts[3]] + [ts[4]];
    EncodeAllAppend(backlight, [ts[0]] + [ts[1]] + [ts[2]] + [ts[3]], [ts[4]]);
    EncodeAllAppend(backlight, [ts[0]] + [ts[1]] + [ts[2]], [ts[3]]);
    EncodeAllAppend(backlight, [ts[0]] + [ts[1]], [ts[2]]);
    EncodeAllAppend(backlight, [ts[0]], [ts[1]]);
    forall t: Transfer ensures EncodeAll(backlight, [t]) == Encode(backlight, t) {
      assert EncodeAll(backlight, [t]) == Encode(backlight, t) + EncodeAll(backlight, []);
    }
  }

  lemma ResyncBytes()
    ensures Write4All(false, ResyncNibbles) ==
      [0x30, 0x34, 0x30, 0x30, 0x34, 0x30, 0x30, 0x34, 0x30, 0x20, 0x24, 0x20]
  {
    var xs := ResyncNibbles;
    Write4Shape(false, 0x30);
    Write4Shape(false, 0x20);
    assert Write4All(false, xs[3..]) == Write4(false, 0x20) + Write4All(false, []);
    assert Write4All(false, xs[2..]) == Write4(false, 0x30) + Write4All(false, xs[3..]);
    assert Write4All(false, xs[1..]) == Write4(false, 0x30) + Write4All(false, xs[2..]);
  }

  /** The six bytes of command `v` with the backlight on: carriers `h` and `l`, each with EN low, high, low. */
  lemma FrameBytes(v: bv8, h: bv8, l: bv8)
    requires h == (v & Registers.NibbleMask) | Registers.Backlight
    requires l == ((v << 4) & Registers.NibbleMask) | Registers.Backlight
    ensures Encode(true, Transfer(v, Command)) == [h, h | Registers.Enable, h, l, l | Registers.Enable, l]
  {
    WriteByteShape(true, v, Command);
  }

  /** A driver instance: its bus address and its own configuration mirror. */
  datatype Device = Device(address: int, conf: Config)

  /** `new LCD(address)`: the bytes of the power-on sequence, sent to `address`. */
  function Construct(address: int): (r: (Device, seq<bv8>))
    ensures r.0.address == address && r.0.conf == Defaults.(backlight := true)
    ensures r.1 == PowerOnBytes
  {
    InitTrace();
    var s := Init();
    (Device(address, s.conf), s.bus)
  }

  /**
   * `changei2caddr(address)`: re-run the configuration sequence at the new
   * address from the current mirror; the mirror is not reset, so flags
   * changed since construction are kept and the wake-up bytes carry the
   * current backlight state.
   */
  function ChangeAddress(d: Device, address: int): (r: (Device, seq<bv8>))
    ensures r.0.address == address
    ensures r.0.conf == d.conf.(backlight := true)
    ensures r.1 == SendConf(d.conf).bus
  {
    var s := SendConf(d.conf);
    (Device(address, s.conf), s.bus)
  }

  /**
   * Moving a freshly built device to another address replays the
   * instruction part of the power-on sequence unchanged, but the wake-up and
   * resynchronisation bytes now carry the backlight bit, and the mirror is
   * unchanged.
   */
  lemma ChangeAddressReplays(a: int, b: int)
    ensures var (d, boot) := Construct(a);
      var (d', bus) := ChangeAddress(d, b);
      && d'.conf == d.conf && d'.address == b
      && |bus| == |boot| == 43
      && bus[13..] == boot[13..]
      && bus[0] == Registers.Backlight && boot[0] == Registers.NoBacklight
      && DecodeNibbles(bus[1..13]) == Some(ResyncRead(true))
      && DecodeNibbles(boot[1..13]) == Some(ResyncRead(false))
  {
    var lit := Defaults.(backlight := true);
    assert lit.(backlight := true) == lit;
    var first, again := SendConf(Defaults), SendConf(lit);
    assert first.bus[13..] == Send(lit, SetupCommands(lit)).bus by {
      ThreeParts(WriteI2C(false, Registers.CommandMode), Write4All(false, ResyncNibbles), Send(lit, SetupCommands(lit)).bus);
    }
    assert again.bus[13..] == Send(lit, SetupCommands(lit)).bus by {
      ThreeParts(WriteI2C(true, Registers.CommandMode), Write4All(true, ResyncNibbles), Send(lit, SetupCommands(lit)).bus);
    }
  }

  // ---------------------------------------------------------------------
  // Whole runs
  // ---------------------------------------------------------------------

  /** The public operations a caller can issue after construction. */
  datatype Op =
    | ClearOp
    | HomeOp
    | PrintOp(text: Option<seq<CodeUnit>>)
    | SetCursorOp(column: int, line: int)
    | BlinkOnOp | BlinkOffOp
    | CursorOnOp | CursorOffOp
    | BacklightOnOp | BacklightOffOp
    | OnOp | OffOp
    | CreateCharOp(ch: int, data: seq<int>)
    | WriteFunctionSetOp | WriteDisplayControlOp | WriteEntrySetOp
    | ChangeAddressOp(address: int)

  /**
   * One operation on the mirror (the bus address plays no part in what is
   * written). Every accepted operation writes only bytes with R/W low and
   * ends on a byte carrying the backlight bit of the mirror it leaves behind;
   * all but `changei2caddr` carry that bit in every byte (its wake-up and
   * resync bytes still carry the old one). One that writes nothing leaves the
   * mirror as it was.
   */
  function Apply(conf: Config, op: Op): (r: Result<Step, DriverError>)
    ensures r.Err? <==> op.SetCursorOp? && !(0 <= op.line < 4)
    ensures r.Ok? && !op.ChangeAddressOp? ==> Uniform(r.value)
    ensures r.Ok? && op.ChangeAddressOp? ==> WriteOnly(r.value.bus) && PinAgrees(r.value.conf, r.value.bus)
    ensures r.Ok? && r.value.bus == [] ==> r.value.conf == conf
  {
    if op.SetCursorOp? then SetCursor(conf, op.column, op.line)
    else if op.ChangeAddressOp? then SendConfEndsLit(conf); Ok(SendConf(conf))
    else if Transmits(op) then Ok(Transmit(conf, op))
    else Ok(Toggle(conf, op))
  }

  /** The operations that write to the controller without touching the mirror. */
  predicate Transmits(op: Op) {
    || op.ClearOp? || op.HomeOp? || op.PrintOp? || op.CreateCharOp?
    || op.WriteFunctionSetOp? || op.WriteDisplayControlOp? || op.WriteEntrySetOp?
  }

  /** An operation that leaves the mirror alone writes only bytes carrying its backlight bit. */
  function Transmit(conf: Config, op: Op): (s: Step)
    requires Transmits(op)
    ensures s.conf == conf && Uniform(s)
  {
    match op
    case ClearOp => Clear(conf)
    case HomeOp => Home(conf)
    case PrintOp(text) => Step(conf, PrintBus(conf, text))
    case CreateCharOp(ch, data) => CreateChar(conf, ch, data)
    case WriteFunctionSetOp => WriteFunctionSet(conf)
    case WriteDisplayControlOp => WriteDisplayControl(conf)
    case WriteEntrySetOp => WriteEntrySet(conf)
  }

  /** The operations that switch a flag of the mirror. */
  predicate Toggles(op: Op) {
    || op.BlinkOnOp? || op.BlinkOffOp? || op.CursorOnOp? || op.CursorOffOp?
    || op.BacklightOnOp? || op.BacklightOffOp? || op.OnOp? || op.OffOp?
  }

  /** A toggle changes the mirror and writes at least one byte, each carrying the new backlight bit. */
  function Toggle(conf: Config, op: Op): (s: Step)
    requires Toggles(op)
    ensures Uniform(s) && s.bus != []
  {
    match op
    case BlinkOnOp => BlinkOn(conf)
    case BlinkOffOp => BlinkOff(conf)
    case CursorOnOp => CursorOn(conf)
    case CursorOffOp => CursorOff(conf)
    case BacklightOnOp => BacklightOn(conf)
    case BacklightOffOp => BacklightOff(conf)
    case OnOp => On(conf)
    case OffOp => Off(conf)
  }

  /** What an operation leaves behind; a rejected operation writes nothing and changes nothing. */
  function Outcome(conf: Config, op: Op): (s: Step)
    ensures WriteOnly(s.bus) && PinAgrees(s.conf, s.bus)
    ensures !op.ChangeAddressOp? ==> Uniform(s)
    ensures s.bus == [] ==> s.conf == conf
  {
    match Apply(conf, op)
    case Ok(s) => if op.ChangeAddressOp? then s else UniformAgrees(s); s
    case Err(_) => Step(conf, [])
  }

  /** Runs operations in order. */
  function Run(conf: Config, ops: seq<Op>): Step {
    RunWith(Outcome, conf, ops)
  }

  /** Runs operations in order, each with the effect `effect` gives it from the mirror the previous one left. */
  function RunWith(effect: (Config, Op) -> Step, conf: Config, ops: seq<Op>): Step
    decreases |ops|
  {
    if |ops| == 0 then Step(conf, [])
    else
      var first := effect(conf, ops[0]);
      var rest := RunWith(effect, first.conf, ops[1..]);
      Step(rest.conf, first.bus + rest.bus)
  }

  /**
   * An effect that never reads, whose last byte carries the backlight bit of
   * the mirror it leaves, and that changes nothing when it writes nothing.
   */
  ghost predicate KeepsPin(effect: (Config, Op) -> Step) {
    forall c, o :: StepKeepsPin(c, effect(c, o))
  }

  ghost predicate StepKeepsPin(conf: Config, s: Step) {
    WriteOnly(s.bus) && PinAgrees(s.conf, s.bus) && (s.bus == [] ==> s.conf == conf)
  }

  /**
   * The expander holds the last byte written, so its backlight pin agrees
   * with the mirror when that byte carries the mirror's backlight bit.
   */
  ghost predicate PinAgrees(conf: Config, trace: seq<bv8>) {
    |trace| == 0 || BacklightPin(trace[|trace| - 1]) == conf.backlight
  }

  /** R/W is low in every byte: the driver never asks the expander for a read. */
  ghost predicate WriteOnly(trace: seq<bv8>) {
    forall i :: 0 <= i < |trace| ==> trace[i] & Registers.ReadWrite == 0
  }

  /** Every byte of a step is a write carrying the backlight bit of the step's mirror. */
  ghost predicate Uniform(s: Step) {
    WriteOnly(s.bus) && forall i :: 0 <= i < |s.bus| ==> BacklightPin(s.bus[i]) == s.conf.backlight
  }

  /** A uniform step ends on the pin of its own mirror. */
  lemma UniformAgrees(s: Step)
    requires Uniform(s)
    ensures WriteOnly(s.bus) && PinAgrees(s.conf, s.bus)
  {
  }

  /** A step ending on the pin of its mirror, after a trace whose pin agrees, leaves a trace whose pin agrees. */
  lemma PinAfterStep(conf: Config, s: Step, trace: seq<bv8>)
    requires PinAgrees(conf, trace) && PinAgrees(s.conf, s.bus)
    requires s.bus == [] ==> s.conf == conf
    ensures PinAgrees(s.conf, trace + s.bus)
  {
    if s.bus == [] {
      assert trace + s.bus == trace;
    } else {
      assert (trace + s.bus)[|trace + s.bus| - 1] == s.bus[|s.bus| - 1];
    }
  }

  lemma WriteOnlyAppend(a: seq<bv8>, b: seq<bv8>)
    requires WriteOnly(a) && WriteOnly(b)
    ensures WriteOnly(a + b)
  {
    forall i | 0 <= i < |a + b| ensures (a + b)[i] & Registers.ReadWrite == 0 {
      if i >= |a| {
        assert (a + b)[i] == b[i - |a|];
      }
    }
  }

  /** Along any run, the backlight pin keeps agreeing with the mirror and nothing is read. */
  lemma RunKeepsPin(conf: Config, ops: seq<Op>, trace: seq<bv8>)
    requires PinAgrees(conf, trace)
    ensures var s := Run(conf, ops);
      PinAgrees(s.conf, trace + s.bus) && WriteOnly(s.bus)
  {
    assert KeepsPin(Outcome);
    RunWithKeepsPin(Outcome, conf, ops, trace);
  }

  lemma {:induction false} RunWithKeepsPin(effect: (Config, Op) -> Step, conf: Config, ops: seq<Op>, trace: seq<bv8>)
    requires KeepsPin(effect)
    requires PinAgrees(conf, trace)
    ensures var s := RunWith(effect, conf, ops);
      PinAgrees(s.conf, trace + s.bus) && WriteOnly(s.bus)
    decreases |ops|
  {
    if |ops| == 0 {
      assert trace + [] == trace;
    } else {
      var first := effect(conf, ops[0]);
      assert StepKeepsPin(conf, first);
      PinAfterStep(conf, first, trace);
      RunWithKeepsPin(effect, first.conf, ops[1..], trace + first.bus);
      var rest := RunWith(effect, first.conf, ops[1..]);
      WriteOnlyAppend(first.bus, rest.bus);
      assert trace + (first.bus + rest.bus) == (trace + first.bus) + rest.bus;
    }
  }

  /** The configuration sequence ends with the backlight on, on the pins as in the mirror, and never reads. */
  lemma SendConfEndsLit(conf: Config)
    ensures var s := SendConf(conf);
      s.conf.backlight && PinAgrees(s.conf, s.bus) && WriteOnly(s.bus)
  {
    var s := SendConf(conf);
    var lit := conf.(backlight := true);
    var wake := WriteI2C(conf.backlight, Registers.CommandMode);
    var resync := Write4All(conf.backlight, ResyncNibbles);
    var setup := Send(lit, SetupCommands(lit));
    assert s.bus == wake + resync + setup.bus;
    BareWrite(conf.backlight);
    Write4AllWriteOnly(conf.backlight, ResyncNibbles);
    assert WriteOnly(wake);
    WriteOnlyAppend(wake, resync);
    WriteOnlyAppend(wake + resync, setup.bus);
    assert s.bus[|s.bus| - 1] == setup.bus[|setup.bus| - 1];
  }

  /** A nibble transfer of a payload with R/W low never raises R/W. */
  lemma Write4WriteOnly(backlight: bool, p: bv8)
    requires p & Registers.ReadWrite == 0
    ensures WriteOnly(Write4(backlight, p))
  {
    Write4Shape(backlight, p);
  }

  lemma {:induction false} Write4AllWriteOnly(backlight: bool, xs: seq<bv8>)
    requires forall i :: 0 <= i < |xs| ==> xs[i] & Registers.ReadWrite == 0
    ensures WriteOnly(Write4All(backlight, xs))
    decreases |xs|
  {
    if |xs| > 0 {
      Write4WriteOnly(backlight, xs[0]);
      Write4AllWriteOnly(backlight, xs[1..]);
      WriteOnlyAppend(Write4(backlight, xs[0]), Write4All(backlight, xs[1..]));
    }
  }

  /**
   * A device's whole life: construction followed by any operations never
   * reads from the expander, and the backlight pin ends where the mirror says.
   */
  lemma LifetimeKeepsPin(address: int, ops: seq<Op>)
    ensures var (d, boot) := Construct(address);
      var s := Run(d.conf, ops);
      PinAgrees(s.conf, boot + s.bus) && WriteOnly(boot) && WriteOnly(s.bus)
  {
    SendConfEndsLit(Defaults);
    var (d, boot) := Construct(address);
    RunKeepsPin(d.conf, ops, boot);
  }
}
