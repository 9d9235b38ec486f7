/**
 * The HD44780 4-bit interface as driven through the PCF8574 expander.
 * A logical byte becomes two nibble transfers, high nibble first; a nibble
 * transfer is three expander writes x, x|EN, x, and every expander byte
 * also carries the register-select bit and the current backlight bit.
 * The bus is an append-only trace of expander bytes.
 */
module Protocol {
  import opened Wrappers
  import opened Registers
  import opened Configuration

  /** Instruction register (RS low) or data register (RS high). */
  datatype Mode = Command | Data

  function ModeBit(m: Mode): bv8 {
    match m
    case Command => CommandMode
    case Data => RegisterSelect
  }

  /** A logical byte bound for one of the controller's two registers. */
  datatype Transfer = Transfer(value: bv8, mode: Mode)

  /**
   * The byte the 4-bit interface can carry for an integer argument:
   * `data & 0xF0` and `(data << 4) & 0xF0` only look at the low eight bits,
   * which is `data mod 256` (also for negative values, in two's complement).
   */
  function ByteOf(data: int): bv8 {
    (data % 256) as bv8
  }

  /** Bits 4..7 of a byte, in place. */
  function HighNibble(b: bv8): bv8 {
    b & NibbleMask
  }

  /** Bits 0..3 of a byte, moved up into bits 4..7. */
  function LowNibble(b: bv8): bv8 {
    (b << 4) & NibbleMask
  }

  /** A nibble in bits 4..7 with the register-select bit of `mode`. */
  function Payload(bits: bv8, mode: Mode): bv8 {
    bits | ModeBit(mode)
  }

  // ---------------------------------------------------------------------
  // Encoding: the driver's writei2c, _pulseEnable, write4 and write
  // ---------------------------------------------------------------------

  /** The level of the expander's backlight pin while byte `x` is latched. */
  predicate BacklightPin(x: bv8) {
    x & Backlight != 0
  }

  /**
   * One expander write: every pin but the backlight as `data` asks, and the
   * backlight lit when the mirror says so (a caller can only add light).
   */
  function WriteI2C(backlight: bool, data: bv8): (bus: seq<bv8>)
    ensures |bus| == 1
    ensures bus[0] & !Backlight == data & !Backlight
    ensures BacklightPin(bus[0]) <==> backlight || BacklightPin(data)
  {
    [data | BacklightBit(backlight)]
  }

  /** Raises then drops EN on the value already on the pins. */
  function PulseEnable(backlight: bool, data: bv8): (bus: seq<bv8>)
    ensures |bus| == 2
    ensures bus[0] == bus[1] | Enable && bus[0] & Enable != 0
    ensures bus[1] & !Backlight == data & !Backlight
    ensures BacklightPin(bus[1]) <==> backlight || BacklightPin(data)
  {
    WriteI2C(backlight, data | Enable) + WriteI2C(backlight, data)
  }

  /**
   * One nibble transfer: the value with EN low, high, then low again. A clean
   * payload (EN, R/W and the backlight bit clear) is latched as its bits 4..7,
   * for the register its RS bit names, under the mirror's backlight.
   */
  function Write4(backlight: bool, data: bv8): (bus: seq<bv8>)
    ensures |bus| == 3
    ensures bus[0] == bus[2] && bus[1] == bus[0] | Enable
    ensures data & (Enable | ReadWrite | Backlight) == 0 ==>
      DecodeNibble(bus[0], bus[1], bus[2])
        == Some(Nibble(HighNibble(data), if data & RegisterSelect != 0 then Data else Command, backlight))
  {
    WriteI2C(backlight, data) + PulseEnable(backlight, data)
  }

  /**
   * One logical byte: the high nibble, then the low nibble shifted into
   * bits 4..7, each ORed with the register-select bit of `mode`.
   */
  function WriteByte(backlight: bool, b: bv8, mode: Mode): (bus: seq<bv8>)
    ensures |bus| == 6
  {
    Write4(backlight, Payload(HighNibble(b), mode)) + Write4(backlight, Payload(LowNibble(b), mode))
  }

  /** The driver's `write(data, c)`: only the low eight bits of `data` reach the bus. */
  function Write(backlight: bool, data: int, mode: Mode): (bus: seq<bv8>)
    ensures Framed(bus, ByteOf(data), backlight, mode)
  {
    WriteByteFraming(backlight, ByteOf(data), mode);
    WriteByte(backlight, ByteOf(data), mode)
  }

  /**
   * The side-channel bits every expander byte carries: R/W is never set,
   * RS matches the register addressed, the backlight bit matches the mirror.
   */
  predicate WellFormed(x: bv8, backlight: bool, mode: Mode) {
    && x & ReadWrite == 0
    && (x & RegisterSelect != 0 <==> mode == Data)
    && (BacklightPin(x) <==> backlight)
  }

  function Encode(backlight: bool, t: Transfer): seq<bv8> {
    WriteByte(backlight, t.value, t.mode)
  }

  /** The bus trace of a sequence of logical bytes sent under one backlight state. */
  function EncodeAll(backlight: bool, ts: seq<Transfer>): (bus: seq<bv8>)
    ensures |bus| == 6 * |ts|
    ensures forall i :: 0 <= i < |bus| ==> bus[i] & ReadWrite == 0
    ensures forall i :: 0 <= i < |bus| ==> (bus[i] & Backlight != 0 <==> backlight)
  {
    if |ts| == 0 then []
    else
      WriteByteFraming(backlight, ts[0].value, ts[0].mode);
      Encode(backlight, ts[0]) + EncodeAll(backlight, ts[1..])
  }

  /** A run of nibble transfers, one per payload, as the power-on sequence sends them. */
  function Write4All(backlight: bool, xs: seq<bv8>): (bus: seq<bv8>)
    ensures |bus| == 3 * |xs|
  {
    if |xs| == 0 then [] else Write4(backlight, xs[0]) + Write4All(backlight, xs[1..])
  }

  // ---------------------------------------------------------------------
  // Decoding: what the controller latches from the bus
  // ---------------------------------------------------------------------

  /** What the controller latches from one x, x|EN, x triple. */
  datatype Nibble = Nibble(bits: bv8, mode: Mode, backlight: bool)

  /**
   * Reads one nibble transfer off three bus bytes: they must be equal up to
   * EN, with EN low, high, low and R/W low; `bits` keeps bits 4..7.
   */
  function DecodeNibble(x: bv8, y: bv8, z: bv8): Option<Nibble> {
    if z == x && y == x | Enable && x & Enable == 0 && x & ReadWrite == 0 then
      Some(Nibble(HighNibble(x), if x & RegisterSelect != 0 then Data else Command, BacklightPin(x)))
    else
      None
  }

  /** Reads a sequence of nibble transfers off the bus. */
  function DecodeNibbles(bus: seq<bv8>): Option<seq<Nibble>>
    decreases |bus|
  {
    if |bus| == 0 then Some([])
    else if |bus| < 3 then None
    else
      match (DecodeNibble(bus[0], bus[1], bus[2]), DecodeNibbles(bus[3..]))
      case (Some(n), Some(rest)) => Some([n] + rest)
      case _ => None
  }

  /**
   * Reads one logical byte off the first six bus bytes: two nibble transfers
   * to the same register, both with the expected backlight bit, high first.
   */
  function DecodeFrame(backlight: bool, f: seq<bv8>): Option<Transfer>
    requires |f| >= 6
  {
    match (DecodeNibble(f[0], f[1], f[2]), DecodeNibble(f[3], f[4], f[5]))
    case (Some(hi), Some(lo)) =>
      if hi.mode == lo.mode && hi.backlight == backlight && lo.backlight == backlight then
        Some(Transfer(hi.bits | (lo.bits >> 4), hi.mode))
      else None
    case _ => None
  }

  /** Reads a whole trace of logical bytes sent under one backlight state. */
  function DecodeAll(backlight: bool, bus: seq<bv8>): Option<seq<Transfer>>
    decreases |bus|
  {
    if |bus| == 0 then Some([])
    else if |bus| < 6 then None
    else
      match (DecodeFrame(backlight, bus), DecodeAll(backlight, bus[6..]))
      case (Some(t), Some(rest)) => Some([t] + rest)
      case _ => None
  }

  // ---------------------------------------------------------------------
  // Bit-level facts
  // ---------------------------------------------------------------------

  /** The expander byte that carries nibble `bits` to the register of `mode`, EN low. */
  function Carrier(backlight: bool, bits: bv8, mode: Mode): bv8 {
    Payload(bits, mode) | BacklightBit(backlight)
  }

  /** The side-channel bits of a carrier byte, with EN low and raised, and how it decodes. */
  lemma CarrierBits(backlight: bool, bits: bv8, mode: Mode)
    requires bits & 0x0F == 0
    ensures var x := Carrier(backlight, bits, mode);
      && WellFormed(x, backlight, mode) && WellFormed(x | Enable, backlight, mode)
      && x & Enable == 0 && (x | Enable) & Enable != 0
      && HighNibble(x) == bits
      && DecodeNibble(x, x | Enable, x) == Some(Nibble(bits, mode, backlight))
  {
  }

  /** Raising EN commutes with ORing in the backlight bit. */
  lemma RaiseEnable(p: bv8, backlight: bool)
    ensures (p | Enable) | BacklightBit(backlight) == (p | BacklightBit(backlight)) | Enable
  {
  }

  /** A decoded nibble transfer is exactly the carrier triple of what was read. */
  lemma NibbleExact(x: bv8, y: bv8, z: bv8)
    requires DecodeNibble(x, y, z).Some?
    ensures var n := DecodeNibble(x, y, z).value;
      && n.bits & 0x0F == 0
      && x == Carrier(n.backlight, n.bits, n.mode) && y == x | Enable && z == x
  {
  }

  /** Both halves of a byte are clean nibbles, and joining them gives the byte back. */
  lemma NibbleJoin(v: bv8)
    ensures HighNibble(v) & 0x0F == 0 && LowNibble(v) & 0x0F == 0
    ensures HighNibble(v) | (LowNibble(v) >> 4) == v
  {
  }

  /** Joining two clean nibbles and splitting the result gives them back. */
  lemma NibbleSplit(hi: bv8, lo: bv8)
    requires hi & 0x0F == 0 && lo & 0x0F == 0
    ensures HighNibble(hi | (lo >> 4)) == hi
    ensures LowNibble(hi | (lo >> 4)) == lo
  {
  }

  // ---------------------------------------------------------------------
  // Framing and round trips
  // ---------------------------------------------------------------------

  /** Helper: a nibble transfer unfolded into its three literal bytes. */
  lemma Write4Shape(backlight: bool, p: bv8)
    ensures Write4(backlight, p) ==
      [p | BacklightBit(backlight), (p | Enable) | BacklightBit(backlight), p | BacklightBit(backlight)]
  {
  }

  /** A nibble transfer of a payload is its carrier byte with EN low, high, low. */
  lemma Write4Carrier(backlight: bool, bits: bv8, mode: Mode)
    ensures Write4(backlight, Payload(bits, mode)) ==
      [Carrier(backlight, bits, mode), Carrier(backlight, bits, mode) | Enable, Carrier(backlight, bits, mode)]
  {
    Write4Shape(backlight, Payload(bits, mode));
    RaiseEnable(Payload(bits, mode), backlight);
  }

  // Solver scaffolding: keeps the six-element literal equality out of the larger proofs.
  lemma ConcatTriples(a: seq<bv8>, b: seq<bv8>, h: bv8, l: bv8)
    requires a == [h, h | Enable, h] && b == [l, l | Enable, l]
    ensures a + b == SixOf(h, l)
  {
  }

  /** Helper: a logical byte unfolded into the carrier triples of its two halves. */
  lemma WriteByteShape(backlight: bool, v: bv8, mode: Mode)
    ensures WriteByte(backlight, v, mode) == SixOf(Carrier(backlight, HighNibble(v), mode), Carrier(backlight, LowNibble(v), mode))
  {
    Write4Carrier(backlight, HighNibble(v), mode);
    Write4Carrier(backlight, LowNibble(v), mode);
    ConcatTriples(Write4(backlight, Payload(HighNibble(v), mode)), Write4(backlight, Payload(LowNibble(v), mode)),
      Carrier(backlight, HighNibble(v), mode), Carrier(backlight, LowNibble(v), mode));
  }

  /** The six expander bytes of a logical byte whose halves ride on carriers `h` and `l`. */
  function SixOf(h: bv8, l: bv8): seq<bv8> {
    [h, h | Enable, h, l, l | Enable, l]
  }

  /** The control bits of one expander byte: side channel as expected, EN as given. */
  predicate Strobed(x: bv8, backlight: bool, mode: Mode, enable: bool) {
    WellFormed(x, backlight, mode) && (x & Enable != 0 <==> enable)
  }

  /** Every logical byte the driver writes is framed as `Framed` describes. */
  lemma WriteByteFraming(backlight: bool, b: bv8, mode: Mode)
    ensures Framed(WriteByte(backlight, b, mode), b, backlight, mode)
  {
    var h, l := Carrier(backlight, HighNibble(b), mode), Carrier(backlight, LowNibble(b), mode);
    WriteByteShape(backlight, b, mode);
    NibbleJoin(b);
    CarrierStrobes(backlight, HighNibble(b), mode);
    CarrierStrobes(backlight, LowNibble(b), mode);
    FramedSix(WriteByte(backlight, b, mode), h, l, b, backlight, mode);
  }

  /**
   * The framing of one logical byte: EN is high in the second write of each
   * triple and low elsewhere, every byte carries the side-channel bits, and
   * the high nibble of the first triple joined with the high nibble of the
   * second, shifted down, gives back the byte.
   */
  ghost predicate Framed(bus: seq<bv8>, b: bv8, backlight: bool, mode: Mode) {
    && |bus| == 6
    && (forall i :: 0 <= i < 6 ==> Strobed(bus[i], backlight, mode, i == 1 || i == 4))
    && bus[2] == bus[0] && bus[1] == bus[0] | Enable
    && bus[5] == bus[3] && bus[4] == bus[3] | Enable
    && HighNibble(bus[0]) | (HighNibble(bus[3]) >> 4) == b
  }

  /** The control bits of a carrier byte, with EN low and with EN raised. */
  lemma CarrierStrobes(backlight: bool, bits: bv8, mode: Mode)
    requires bits & 0x0F == 0
    ensures var x := Carrier(backlight, bits, mode);
      && Strobed(x, backlight, mode, false) && Strobed(x | Enable, backlight, mode, true)
      && HighNibble(x) == bits
  {
    CarrierBits(backlight, bits, mode);
  }

  // Solver scaffolding: checks Framed on a six-byte literal once, for any carriers.
  lemma FramedSix(bus: seq<bv8>, h: bv8, l: bv8, b: bv8, backlight: bool, mode: Mode)
    requires bus == SixOf(h, l)
    requires Strobed(h, backlight, mode, false) && Strobed(h | Enable, backlight, mode, true)
    requires Strobed(l, backlight, mode, false) && Strobed(l | Enable, backlight, mode, true)
    requires HighNibble(h) | (HighNibble(l) >> 4) == b
    ensures Framed(bus, b, backlight, mode)
  {
  }

  /** Every logical byte decodes back to itself: its two nibbles reassemble. */
  lemma FrameRoundTrip(backlight: bool, t: Transfer)
    ensures DecodeFrame(backlight, Encode(backlight, t)) == Some(t)
  {
    WriteByteShape(backlight, t.value, t.mode);
    NibbleJoin(t.value);
    CarrierBits(backlight, HighNibble(t.value), t.mode);
    CarrierBits(backlight, LowNibble(t.value), t.mode);
  }

  /** Equal decoded nibbles come from equal bus bytes. */
  lemma NibbleInjective(x: bv8, y: bv8, z: bv8, x': bv8, y': bv8, z': bv8)
    requires DecodeNibble(x, y, z).Some?
    requires DecodeNibble(x, y, z) == DecodeNibble(x', y', z')
    ensures x == x' && y == y' && z == z'
  {
    NibbleExact(x, y, z);
    NibbleExact(x', y', z');
  }

  /** The two nibble transfers of a decoded frame are the two halves of its byte. */
  lemma FrameNibbles(backlight: bool, f: seq<bv8>)
    requires |f| >= 6
    requires DecodeFrame(backlight, f).Some?
    ensures var t := DecodeFrame(backlight, f).value;
      && DecodeNibble(f[0], f[1], f[2]) == Some(Nibble(HighNibble(t.value), t.mode, backlight))
      && DecodeNibble(f[3], f[4], f[5]) == Some(Nibble(LowNibble(t.value), t.mode, backlight))
  {
    var hi, lo := DecodeNibble(f[0], f[1], f[2]).value, DecodeNibble(f[3], f[4], f[5]).value;
    NibbleExact(f[0], f[1], f[2]);
    NibbleExact(f[3], f[4], f[5]);
    NibbleSplit(hi.bits, lo.bits);
  }

  /** The decoder accepts only exact encodings: a decoded frame is re-encoded bit for bit. */
  lemma FrameExact(backlight: bool, f: seq<bv8>)
    requires |f| == 6
    requires DecodeFrame(backlight, f).Some?
    ensures Encode(backlight, DecodeFrame(backlight, f).value) == f
  {
    var t := DecodeFrame(backlight, f).value;
    var g := Encode(backlight, t);
    FrameRoundTrip(backlight, t);
    FrameNibbles(backlight, f);
    FrameNibbles(backlight, g);
    NibbleInjective(f[0], f[1], f[2], g[0], g[1], g[2]);
    NibbleInjective(f[3], f[4], f[5], g[3], g[4], g[5]);
    SameBytes(g, f);
  }

  // Solver scaffolding: sequence equality spelled out index by index, which keeps verification cheap.
  lemma SameBytes(g: seq<bv8>, f: seq<bv8>)
    requires |g| == |f| == 6
    requires g[0] == f[0] && g[1] == f[1] && g[2] == f[2]
    requires g[3] == f[3] && g[4] == f[4] && g[5] == f[5]
    ensures g == f
  {
  }

  /** The decoder reads a trace one six-byte frame at a time. */
  lemma DecodeAllCons(backlight: bool, f: seq<bv8>, rest: seq<bv8>)
    requires |f| == 6
    ensures DecodeAll(backlight, f + rest) ==
      match (DecodeFrame(backlight, f), DecodeAll(backlight, rest))
      case (Some(t), Some(ts)) => Some([t] + ts)
      case _ => None
  {
    var bus := f + rest;
    assert bus[6..] == rest;
    assert bus[0] == f[0] && bus[1] == f[1] && bus[2] == f[2];
    assert bus[3] == f[3] && bus[4] == f[4] && bus[5] == f[5];
    assert DecodeFrame(backlight, bus) == DecodeFrame(backlight, f);
  }

  lemma {:induction false} EncodeAllAppend(backlight: bool, a: seq<Transfer>, b: seq<Transfer>)
    ensures EncodeAll(backlight, a + b) == EncodeAll(backlight, a) + EncodeAll(backlight, b)
    decreases |a|
  {
    if |a| == 0 {
      assert a + b == b;
    } else {
      assert (a + b)[1..] == a[1..] + b;
      EncodeAllAppend(backlight, a[1..], b);
    }
  }

  /** Decoding inverts encoding on every sequence of logical bytes. */
  lemma {:induction false} DecodeEncode(backlight: bool, ts: seq<Transfer>)
    ensures DecodeAll(backlight, EncodeAll(backlight, ts)) == Some(ts)
    decreases |ts|
  {
    if |ts| > 0 {
      FrameRoundTrip(backlight, ts[0]);
      DecodeEncode(backlight, ts[1..]);
      DecodeAllCons(backlight, Encode(backlight, ts[0]), EncodeAll(backlight, ts[1..]));
      assert [ts[0]] + ts[1..] == ts;
    }
  }

  /** Encoding inverts decoding: a trace the decoder accepts is exactly the encoding of what it read. */
  lemma {:induction false} EncodeDecode(backlight: bool, bus: seq<bv8>)
    requires DecodeAll(backlight, bus).Some?
    ensures EncodeAll(backlight, DecodeAll(backlight, bus).value) == bus
    decreases |bus|
  {
    if |bus| > 0 {
      var f, rest := bus[..6], bus[6..];
      assert bus == f + rest;
      DecodeAllCons(backlight, f, rest);
      FrameExact(backlight, f);
      EncodeDecode(backlight, rest);
    }
  }

  /** Both directions at once: `bus` is the encoding of `ts` exactly when it decodes to `ts`. */
  lemma EncodingIsDecodable(backlight: bool, bus: seq<bv8>, ts: seq<Transfer>)
    ensures bus == EncodeAll(backlight, ts) <==> DecodeAll(backlight, bus) == Some(ts)
  {
    if bus == EncodeAll(backlight, ts) {
      DecodeEncode(backlight, ts);
    }
    if DecodeAll(backlight, bus) == Some(ts) {
      EncodeDecode(backlight, bus);
    }
  }

  /** Clean command nibbles decode to themselves, in order. */
  lemma {:induction false} DecodeWrite4All(backlight: bool, xs: seq<bv8>)
    requires forall i :: 0 <= i < |xs| ==> xs[i] & 0x0F == 0
    ensures DecodeNibbles(Write4All(backlight, xs)).Some?
    ensures var ns := DecodeNibbles(Write4All(backlight, xs)).value;
      |ns| == |xs| && forall i :: 0 <= i < |xs| ==> ns[i] == Nibble(xs[i], Command, backlight)
    decreases |xs|
  {
    if |xs| > 0 {
      var bus := Write4All(backlight, xs);
      assert bus[3..] == Write4All(backlight, xs[1..]);
      assert Payload(xs[0], Command) == xs[0];
      Write4Shape(backlight, xs[0]);
      RaiseEnable(xs[0], backlight);
      CarrierBits(backlight, xs[0], Command);
      DecodeWrite4All(backlight, xs[1..]);
    }
  }

  /** Every byte of a trace carries the side-channel bits of the logical byte it belongs to. */
  lemma {:induction false} EncodeAllWellFormed(backlight: bool, ts: seq<Transfer>)
    ensures var bus := EncodeAll(backlight, ts);
      forall i :: 0 <= i < |bus| ==> WellFormed(bus[i], backlight, ts[i / 6].mode)
    decreases |ts|
  {
    if |ts| > 0 {
      var head, tail := Encode(backlight, ts[0]), EncodeAll(backlight, ts[1..]);
      WriteByteFraming(backlight, ts[0].value, ts[0].mode);
      EncodeAllWellFormed(backlight, ts[1..]);
      forall i | 0 <= i < |head + tail| ensures WellFormed((head + tail)[i], backlight, ts[i / 6].mode) {
        if i < 6 {
          assert Strobed(head[i], backlight, ts[0].mode, i == 1 || i == 4);
        } else {
          assert (head + tail)[i] == tail[i - 6];
          assert ts[1..][(i - 6) / 6] == ts[i / 6];
        }
      }
    }
  }
}
