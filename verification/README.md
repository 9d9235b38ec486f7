# HD44780 over PCF8574: a Dafny model of the LCD driver

This project models the protocol core of a JavaScript driver for an HD44780 character LCD wired to a PCF8574 I²C expander. The expander's pins carry RS, R/W, EN, the backlight and the data nibble D4..D7. The driver has two layers:

- A protocol engine. `writei2c`, `_pulseEnable`, `write4` and `write` turn a logical byte into expander writes. The high nibble goes first, then the low nibble. Each nibble goes out as three writes, `x`, `x|EN`, `x`. Every write also carries the register-select bit and the current backlight bit.
- The driver's high-level operations. These are `_sendConf` (power-on initialisation, called by the constructor and by `changei2caddr`), the register writers, `clear`, `home`, `print`, `setCursor`, the blink/cursor/backlight/display toggles and `createChar`. They work from a configuration mirror, because the expander cannot be read back.

Every operation is a pure function from the mirror to a `Step`: the new mirror plus the expander bytes, in order, as `seq<bv8>`. `print` is also a method with a loop. The bus is an append-only trace.

The partner of the encoder is a decoder. It reads what the controller latches from a trace: one nibble per `x, x|EN, x` triple with R/W low, and one logical byte per two nibbles. Round trips are proved in both directions, so a contract can say "the bus carries exactly these instructions" instead of repeating the encoder.

Modules, one per part of the program:

- `Registers` holds the opcodes, flag bits and pin assignment (`displayPorts` / `LCD.*`).
- `Configuration` is the mirror and the three whole-register bytes.
- `Protocol` is the encoder, the decoder and the round trips.
- `Driver` holds the high-level operations, initialisation and whole-run invariants.
- `AsWritten` models the three defects of `lcd_driver.js` as written.
- `SrcVariant` covers what differs in `src/lcd_driver.js`.
- `Wrappers` holds `Option` and `Result`.

Facts about the code that a reader might not expect, all modelled as written:

- The mirror starts with the backlight off. The wake-up byte and the four resynchronisation nibbles go out dark. The backlight is switched on only before Function Set.
- The default record selects 5x10 dots (lcd_driver.js:77), so the default Function Set byte is 0x2C; with the 5x8 font it would be 0x28.
- `print` does not reject characters outside eight bits. `write` keeps the low eight bits of each UTF-16 code unit, so there is no unsupported-character error.
- Columns are not range checked. The glyph slot is masked with `& 7` rather than rejected.

Where the code is evidently defective, the main model uses the corrected behaviour and `AsWritten` keeps the code as written (see Findings):

- `setCursor` rejects a line outside 0..3, the four rows the offset table `[0x00, 0x40, 0x14, 0x54]` (lcd_driver.js:193) has entries for.
- `backlightOn`/`backlightOff` update the mirror and put the new backlight bit on the pins with one bare write.
- `createChar` sends the glyph rows to the data register.

## Model

| member | source | states |
|---|---|---|
| Configuration.FunctionSetByte | lcd_driver.js:152-155 | Function Set opcode in bits 5..7; the 8-bit, 2-line and 5x10 bits are each set exactly when the mirror says so; bits 0..1 clear |
| Configuration.DisplayControlByte | lcd_driver.js:157-160 | Display Control opcode in bits 3..7; display, cursor and blink bits each set exactly when the mirror's flag is on |
| Configuration.EntrySetByte | lcd_driver.js:162-165 | Entry Mode Set opcode in bits 2..7; left-entry and increment bits each set exactly when the mirror says so |
| Configuration.DisplayControlDeterminesGroup | lcd_driver.js:157-160 | two mirrors send the same Display Control byte if and only if they agree on all three flags of the group |
| Configuration.FunctionSetDeterminesGroup | lcd_driver.js:152-155 | same byte if and only if same data length, line count and font |
| Configuration.EntrySetDeterminesGroup | lcd_driver.js:162-165 | same byte if and only if same entry side and shift |
| Configuration.DefaultRegisters | lcd_driver.js:68-78 | the default record yields Function Set 0x2C, Display Control 0x0F, Entry Mode Set 0x06 |
| Protocol.WriteI2C | lcd_driver.js:123-126 | one expander byte: every pin but the backlight as `data` asks; the backlight pin lit exactly when the mirror or `data` lights it |
| Protocol.PulseEnable | lcd_driver.js:128-135 | two bytes: the value with EN raised, then the same value with EN as `data` has it (low for every payload the driver passes); every other pin as `data` asks, and the backlight lit in each exactly when the mirror or `data` lights it |
| Protocol.Write4 | lcd_driver.js:137-141 | three bytes with EN low, high, low around one value; a payload with EN, R/W and backlight clear is latched as its bits 4..7 in the register its RS bit names, under the mirror's backlight |
| Protocol.Write | lcd_driver.js:144-150 | `write(data, c)` emits six bytes, R/W always low, RS as `c`, backlight as the mirror; EN high only in the 2nd and 5th; the two nibbles rejoin to `data mod 256` |
| Protocol.WriteByteFraming | lcd_driver.js:144-150 | the framing above holds for every byte and register |
| Protocol.EncodeAll | lcd_driver.js:123-150 | a run of writes is six bytes per logical byte, none with R/W set, all with the mirror's backlight bit |
| Protocol.EncodeAllWellFormed | lcd_driver.js:123-150 | every byte of a run carries the RS bit of the logical byte it belongs to |
| Protocol.FrameRoundTrip | lcd_driver.js:144-150 | the controller reads back exactly the byte and register that `write` sent |
| Protocol.FrameExact | lcd_driver.js:144-150 | any six bytes the controller accepts as one byte are exactly the driver's encoding of it |
| Protocol.DecodeEncode | lcd_driver.js:123-150 | decoding inverts encoding for every sequence of logical bytes |
| Protocol.EncodeDecode | lcd_driver.js:123-150 | encoding inverts decoding for every trace the decoder accepts |
| Protocol.EncodingIsDecodable | lcd_driver.js:123-150 | a trace is the encoding of a byte sequence if and only if it decodes to that sequence |
| Protocol.EncodeAllAppend | lcd_driver.js:144-150 | writes compose: the trace of two byte sequences is the concatenation of their traces |
| Protocol.DecodeWrite4All | lcd_driver.js:91-98 | bare nibble transfers of clean nibbles are latched one by one, in order, as command nibbles |
| Driver.WriteFunctionSet | lcd_driver.js:152-155 | the bus carries exactly one command: the Function Set byte rebuilt from the whole mirror |
| Driver.WriteDisplayControl | lcd_driver.js:157-160 | the bus carries exactly one command: the Display Control byte rebuilt from the whole mirror |
| Driver.WriteEntrySet | lcd_driver.js:162-165 | the bus carries exactly one command: the Entry Mode Set byte rebuilt from the whole mirror |
| Driver.Clear | lcd_driver.js:168-170 | six bytes that carry exactly Clear Display as a command; mirror unchanged |
| Driver.Home | lcd_driver.js:173-176 | six bytes that carry exactly Return Home as a command; mirror unchanged |
| Driver.BlinkOff | lcd_driver.js:198-201 | only `blink` changes, to off; the bus is one Display Control command with display and cursor as before and blink off |
| Driver.BlinkOn | lcd_driver.js:204-207 | only `blink` changes, to on; one Display Control command with the other two flags kept |
| Driver.CursorOff | lcd_driver.js:210-213 | only `cursor` changes, to off; one Display Control command with display and blink kept |
| Driver.CursorOn | lcd_driver.js:216-219 | only `cursor` changes, to on; one Display Control command with the other two flags kept |
| Driver.Off | lcd_driver.js:234-238 | exactly backlight and display go off; one Display Control command with display off, cursor and blink kept, every byte dark |
| Driver.On | lcd_driver.js:241-245 | exactly backlight and display go on; one Display Control command with display on, every byte lit |
| Driver.ToggleRestores | lcd_driver.js:198-245 | switching blink, cursor, or display-with-backlight off and back on (or on and back off) restores the original mirror |
| Driver.BlinkIdempotent | lcd_driver.js:198-207 | repeating a blink toggle writes the same register again and changes nothing further |
| Driver.CursorIdempotent | lcd_driver.js:210-219 | repeating a cursor toggle writes the same register again and changes nothing further |
| Driver.PowerIdempotent | lcd_driver.js:234-245 | repeating `on` or `off` writes the same register again and changes nothing further |
| Driver.TogglesCommute | lcd_driver.js:198-219 | switching blink and then cursor, or cursor and then blink, ends in the same mirror and the same final Display Control write |
| Driver.SetBacklight | lcd_driver.js:222-231 | the mirror's backlight takes the new state, which one write with no nibble, EN or RS puts on the backlight pin |
| Driver.BacklightOn | lcd_driver.js:228-231 | backlight on in the mirror; the single byte 0x08 on the bus |
| Driver.BacklightOff | lcd_driver.js:222-225 | backlight off in the mirror; the single byte 0x00 on the bus |
| Driver.SetCursor | lcd_driver.js:192-195 | a line outside 0..3 is rejected with nothing written; otherwise one command, Set DDRAM Address with the row offset plus column |
| Driver.DdramCommand | lcd_driver.js:194 | the command has bit 7 set and carries the low seven bits of the address |
| Driver.CellAddressRoundTrip | lcd_driver.js:193-194 | on a 20x4 panel the address of a cell names that cell back |
| Driver.CellOfRoundTrip | lcd_driver.js:193-194 | every address of the four rows is the address of the cell it names |
| Driver.CellAddressInjective | lcd_driver.js:193-194 | distinct cells of a 20x4 panel never share an address |
| Driver.Print | lcd_driver.js:179-188 | a non-string writes nothing; a string writes six bytes per code unit, all with RS high, decoding in order to its code units mod 256 as data |
| Driver.PrintStep | lcd_driver.js:181-185 | each loop iteration appends exactly one `write(c, RS)` to the trace |
| Driver.TextIsData | lcd_driver.js:183 | every byte of printed text addresses the data register |
| Driver.CgramCommand | lcd_driver.js:249 | Set CGRAM Address for slot `ch & 7`: always 0x40..0x78, low three bits clear, slot in bits 3..5 |
| Driver.CreateCharIn | lcd_driver.js:248-253 | sixty bytes carrying the slot address, eight rows and DDRAM address 0, in that order, mirror unchanged |
| Driver.CreateChar | lcd_driver.js:248-253 | the slot address in 0x40..0x78, then rows `data[0..7]` mod 256 as data (missing rows as 0), then 0x80 |
| Driver.SendConf | lcd_driver.js:85-109 | 43 bytes: a bare write with the old backlight; nibbles 3, 3, 3, 2 under the old backlight; then Function Set, Display Control, Entry Mode Set, Clear, Home from the mirror with the backlight on |
| Driver.ResyncDecodes | lcd_driver.js:91-98 | the resynchronisation is latched as command nibbles 0x3, 0x3, 0x3, 0x2 |
| Driver.Init | lcd_driver.js:66-82 | initialisation leaves the default mirror with the backlight on |
| Driver.InitTrace | lcd_driver.js:66-109 | a fresh device emits exactly the 43 power-on bytes listed in `PowerOnBytes` |
| Driver.Construct | lcd_driver.js:59-63 | a new device sits at the given address with the default mirror and the backlight on, and emits exactly the 43 power-on bytes |
| Driver.ChangeAddress | lcd_driver.js:117-120 | the device moves to the new address and replays the configuration sequence from its current mirror |
| Driver.ChangeAddressReplays | lcd_driver.js:117-120 | on a fresh device the replay repeats the five setup instructions byte for byte, but its first 13 bytes now carry the backlight |
| Driver.Apply | lcd_driver.js:117-253 | only `setCursor` with a bad line is rejected; every accepted operation writes only R/W-low bytes; all but `changei2caddr` carry the mirror's new backlight bit in every byte, and `changei2caddr` ends on one that carries it |
| Driver.Transmit | lcd_driver.js:152-188 | `clear`, `home`, `print`, `createChar` and the three register writers leave the mirror alone and write only bytes carrying its backlight bit |
| Driver.Toggle | lcd_driver.js:198-245 | every blink, cursor, backlight and display toggle writes at least one byte, each carrying the new mirror's backlight bit |
| Driver.Outcome | lcd_driver.js:117-253 | every operation's bytes never read and end on the mirror's backlight bit; a rejected or empty operation leaves the mirror as it was |
| Driver.RunKeepsPin | lcd_driver.js:123-126 | along any run of the driver's high-level operations, `changei2caddr` and the register writers included, the last byte on the expander agrees with the mirror's backlight, and R/W is never raised |
| Driver.RunWithKeepsPin | lcd_driver.js:123-126 | the same for any effect that never reads and ends each step on the pin of its own mirror |
| Driver.SendConfEndsLit | lcd_driver.js:85-109 | configuration ends with the backlight on, the last byte lit, and no read requested |
| Driver.LifetimeKeepsPin | lcd_driver.js:58-63 | construction followed by any operations never reads and keeps the backlight pin in step with the mirror |
| AsWritten.SetBacklightAsWritten | lcd_driver.js:222-231 | as written: the mirror takes the new backlight state and no byte reaches the bus before the call throws |
| AsWritten.BacklightOffDesyncs | lcd_driver.js:222-225 | as written, `backlightOff()` after construction leaves the mirror saying off while the expander still holds a lit byte |
| AsWritten.BacklightOffAgrees | lcd_driver.js:222-225 | corrected, the same call leaves pin and mirror agreeing on off |
| AsWritten.CreateCharAsWritten | lcd_driver.js:248-253 | as written, the bus carries the CGRAM slot address, the eight pattern rows `data[0..7]` mod 256 (missing rows as 0) and DDRAM address 0, all ten as commands, so every pattern row reaches the instruction register |
| AsWritten.GlyphRowClearsDisplay | lcd_driver.js:250-251 | a pattern row 0x01 is executed as Clear Display as written, and stored as data when corrected |
| AsWritten.SetCursorAsWritten | lcd_driver.js:192-195 | as written, a valid line behaves as corrected, and any other line sends plain Set DDRAM Address 0 |
| AsWritten.CursorLineFourHomes | lcd_driver.js:192-195 | `setCursor(5, 4)` moves to the top-left cell as written and is rejected when corrected |
| SrcVariant.SrcDefaultRegisters | src/lcd_driver.js:9-26 | the shared record starts with the backlight on and yields 0x2C, 0x0F, 0x06 |
| SrcVariant.SrcInit | src/lcd_driver.js:53-62 | `_init` keeps the backlight and brings every register back to 0x2C, 0x0F, 0x06 |
| SrcVariant.SrcInitForgets | src/lcd_driver.js:53-62 | after `_init` only the backlight remembers the past; `_init` is idempotent |
| SrcVariant.SrcWrite4AsWritten | src/lcd_driver.js:74-87 | as written, a nibble transfer writes the same byte three times |
| SrcVariant.SrcWriteAsWritten | src/lcd_driver.js:89-96 | as written, `write` is six bytes: the high-nibble carrier three times, then the low-nibble carrier three times; EN is low in every byte, while RS, R/W and the backlight bit are as intended |
| SrcVariant.SrcWriteLatchesNothing | src/lcd_driver.js:76 | neither nibble of such a write is ever latched, so the controller reads no byte at all |
| SrcVariant.SrcWriteCorrected | src/lcd_driver.js:89-96 | with EN pulsed the same write is read back exactly |

The rest of `src/lcd_driver.js` (lines 70-198) follows the same engine over a single shared record. That covers `writei2c`, `write4`, `write`, the register writers, `print`, `setCursor`, the toggles, `on`/`off` and `createChar`. As written, none of it reaches the controller: the missing EN pulse at src/lcd_driver.js:76 means no byte of any `write` is latched (SrcVariant.SrcWriteLatchesNothing). Once that pulse is corrected, the `Driver` members above model these operations, applied to the record. The file also repeats the three other defects of `lcd_driver.js`, which the `Driver` members model corrected and `AsWritten` models as written:

- `backlightOff`/`backlightOn` call the unbound global `writei2c` (src/lcd_driver.js:169 and :175), as lcd_driver.js:224 and :230 do.
- `createChar` sends the glyph rows with the undefined `LCD.CHR` (src/lcd_driver.js:196), as lcd_driver.js:251 does with `displayPorts.CHR`.
- `setCursor` indexes the same four-entry offset table (src/lcd_driver.js:132-133), as lcd_driver.js:193-194 does.

## Left out

- Timing: every `_sleep`/`sleep.usleep` delay, the variants' different delay values, and the unreachable sleep after `return` in `home`. The model has no clock.
- The I2C transport: opening the bus, `sendByteSync` failures and `scanSync`, and so `isAlive`. The bus is the trace of bytes the driver hands to the transport. The device address is recorded but has no effect on the bytes.
- Direct calls to the low-level methods `writei2c`, `write4` and `write`. The class does not hide them (lcd_driver.js:123, :138, :144), and a caller can pass any value. `writei2c(0x02)` raises R/W. `writei2c(0x08)` on a dark mirror lights the backlight pin. `write(x, 2)` sets R/W on every byte. The model covers these methods only as the driver itself calls them: `write` with CMD or RS, and `write4` with clean payloads. The no-read and pin guarantees of Driver.RunKeepsPin and Driver.LifetimeKeepsPin hold for the high-level operations only.
- JavaScript coercion of non-integer arguments: strings, floats, `undefined` columns and non-array glyph data. Integer arguments of `write` are reduced mod 256 exactly as `& 0xF0` does; missing glyph rows read as 0. Arithmetic the code does on doubles before that point (`setCursor`'s offset plus column) is modelled as exact integer addition; see Driver.SetCursor below.
- The constructor and initialisation of `src/lcd_driver.js`. Lines 245-246 are a syntax error, so the module does not load. The constructor also sends `0x30 << 4` instead of 0x30 and never sends the 0x2 nibble. Initialisation is modelled from `lcd_driver.js` only.
- Aliasing of the shared `displayPorts` record between several `src` instances. The model gives each instance its own record.
- Driver.SetCursor: the column is not range checked, as in the code (lcd_driver.js:194 adds it to the row offset unchecked), so a column past the end of a row is accepted. JavaScript adds the row offset and the column as doubles, so a column of magnitude 2^53 or more can round (`setCursor(2^60, 1)` sends 0x80); the model adds exactly.
- Driver.Print: there is no unsupported-character error; code units above 0xFF are reduced mod 256, as the code does.
- Driver.DdramCommand: states the low seven bits of the address, not its value as a number; for row offset plus column at most 0x7F the two agree.

## Findings

| source | as written | input that shows it | evidently intended | confidence | as-written member | corrected member |
|---|---|---|---|---|---|---|
| lcd_driver.js:222-231 | `backlightOn`/`backlightOff` call an unbound global `writei2c`: the mirror changes, then a ReferenceError is thrown and nothing is written | `backlightOff()` right after construction: the mirror says off, the expander still holds 0x28 and the light stays on | update the mirror and write the new backlight bit | not executed | AsWritten.BacklightOffDesyncs | Driver.SetBacklight |
| lcd_driver.js:250-251 | glyph rows are ORed with the undefined `displayPorts.CHR`, so RS stays low and they go to the instruction register | `createChar(0, [0x01])`: the first row is executed as Clear Display | rows written as data (RS high) into CGRAM | not executed | AsWritten.GlyphRowClearsDisplay | Driver.CreateChar |
| lcd_driver.js:192-195 | a line outside the offset table makes the address NaN, which ORs into 0x80 as 0 | `setCursor(5, 4)` moves the cursor to the top-left cell | reject the line and write nothing | not executed | AsWritten.CursorLineFourHomes | Driver.SetCursor |
| src/lcd_driver.js:76 | the enable pulse ORs in `LCD._Enable`, which is undefined (the constant is `LCD.Enable`), so EN never rises | any `write`, e.g. `write(0x41, LCD.RS)`: three identical bytes per nibble, nothing latched | raise EN (0x04) on the middle write | not executed | SrcVariant.SrcWriteLatchesNothing | Protocol.Write |
