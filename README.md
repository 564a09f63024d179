# ESP32-C3 bare-metal firmware core, modelled in Dafny

The firmware drives an SSD1306 128x64 OLED over a bit-banged I2C bus and runs a small
line-editing shell over the USB Serial/JTAG console of an ESP32-C3. It exists twice, in C
(`main/`) and in Rust (`rust/src/`). The two twins do the same thing, so each component has one
model here that serves both. Where they differ, the model follows the behaviour they share and
"## Left out" names the difference.

- `gpio.dfy` (module `Gpio`): the GPIO and IO-MUX registers as a map from register to `bv32`.
  It covers the range-checked pin index and the read-modify-write of the mux function-select
  and drive fields. It also covers the enable bit, set/clear/toggle of an output bit, and the
  open-drain configuration the I2C drivers apply.
- `i2c.dfy` (module `I2c`): the bit-banged I2C master as a class with the two line levels, the
  delay count, a trace of line events and a log of the bytes each transaction put on the wire.
  The remote device is an oracle: the sequence of SDA levels the master will sample, released
  (high, hence NACK) once exhausted. A receiver-side decoder of the line events is the
  independent reference. It recognises START and STOP conditions and data bits as in the I2C-bus
  specification UM10204 (sections 3.1.3 to 3.1.6 and 3.1.10). The protocol lemmas say what a
  listener on the wire sees.
- `ssd1306.dfy` (module `Ssd1306`): the 1024-byte page-packed framebuffer as an `array<bv8>`
  that the drawing operations update in place. It also turns commands and the framebuffer into
  I2C write transactions, with the control bytes of section 8.1.5 of the SSD1306 datasheet
  rev 1.1 and the command values of its section 9. Every framebuffer function has lemmas that
  state its meaning pixel by pixel.
- `seqs.dfy` (module `Seqs`): the one sequence lemma the other modules share.
- `console.dfy` (module `Console`): the 64-byte transmit buffer of the console and the ordered
  record of its register writes: data bytes to EP1 and WR_DONE to EP1_CONF. Its invariant is
  conservation of order: the bytes written out, then the bytes still buffered, are every byte
  passed to `putc`.
- `shell.dfy` (module `Shell`): the shell as a class over the input line buffer
  (`array<char>` of 64) and the 8 x 22 display-line buffer (one `array<char>` in the C
  row-major layout). It uses the console and display models. Its behaviour is specified by value
  functions:
  - `Edited`, `KeyEcho` and `KeyActions` describe the line editor;
  - `Args`, over the reference tokenizer `Words`, describes parsing;
  - `Dispatch` and `Response` describe what a command line does, as a list of `Show(text)` /
    `Wipe` actions;
  - `Replay` and `Transcript` give the rows those actions leave in use and the console bytes
    they send.

  Each shell operation's `ensures` ties the new rows and console bytes to those functions of
  the old state.

One behaviour of the source that the model makes visible: the help line
`"  clear - Clear screen"` is 22 chars long, and a display row keeps 21. So on the screen it
reads `"  clear - Clear scree"`, while the console gets it whole (lemma `Shell.HelpOnScreen`).

## Model

| member | source | states |
|---|---|---|
| `Gpio.PinBit` | main/drivers/gpio.c:46 | the mask `1 << n` of a pin in 0..21 is a single bit |
| `Gpio.PinBitsDisjoint` | main/drivers/gpio.c:51 | two different pins have disjoint masks, so an operation on one pin never touches another pin's bit |
| `Gpio.OutputMux` | main/drivers/gpio.c:32-43 | the mux value gets function select (bits 12-14) 1 and drive (bits 10-11) 2, and keeps every other bit (rust/src/gpio.rs:52-63) |
| `Gpio.OpenDrainMux` | main/drivers/i2c.c:46-61 | function select 1, drive 2, FUN_IE and FUN_WPU set, FUN_WPD clear, every other mux bit kept (rust/src/i2c.rs:73-88) |
| `Gpio.WithBitSpec` | main/drivers/gpio.c:51 | a W1TS write of a single-bit mask sets that output bit and leaves all the others |
| `Gpio.WithoutBitSpec` | main/drivers/gpio.c:56 | a W1TC write of a single-bit mask clears that output bit and leaves all the others |
| `Gpio.FlippedSpec` | main/drivers/gpio.c:59-67 | toggling inverts the pin's output bit and leaves all the others |
| `Gpio.FlipIsSetOrClear` | main/drivers/gpio.c:62-66 | the source's branch on the current OUT value (clear when set, set when clear) is exactly the flip |
| `Gpio.FlipTwice` | main/drivers/gpio.c:59-67 | toggling twice restores the output register |
| `Gpio.Registers.SetOutput` | main/drivers/gpio.c:28-47 | a pin outside 0..21 changes nothing; otherwise only its mux register (to `OutputMux`) and its enable bit change (rust/src/gpio.rs:44-67) |
| `Gpio.Registers.SetHigh` | main/drivers/gpio.c:49-52 | out-of-range pin: no change; otherwise only output bit n is set (rust/src/gpio.rs:70-75) |
| `Gpio.Registers.SetLow` | main/drivers/gpio.c:54-57 | out-of-range pin: no change; otherwise only output bit n is cleared (rust/src/gpio.rs:78-83) |
| `Gpio.Registers.Toggle` | main/drivers/gpio.c:59-67 | out-of-range pin: no change; otherwise only output bit n is inverted (rust/src/gpio.rs:86-96) |
| `Gpio.Registers.SetOpenDrain` | main/drivers/i2c.c:43-65 | out-of-range pin: no change; otherwise only its mux register (to `OpenDrainMux`) and its enable bit change, i.e. the registers become `OpenDrainRegs` of the old ones (rust/src/i2c.rs:67-92) |
| `Gpio.OpenDrainRegs` | main/drivers/i2c.c:43-65 | the register file after configuring pin n open-drain: same registers; for n in 0..21 its mux is `OpenDrainMux` of the old value and its enable bit is set; every other register unchanged; a pin outside 0..21 changes nothing |
| `Gpio.OpenDrainMuxTwice` | main/drivers/i2c.c:46-61 | configuring a pin open-drain a second time leaves its mux value as it is |
| `Gpio.OpenDrainEnable` | main/drivers/i2c.c:63 | configuring pin n adds exactly its enable bit, nothing for a pin outside 0..21 |
| `Gpio.OpenDrainPair` | main/drivers/i2c.c:107-108 | after the SCL and SDA configuration of i2c_init each pin in 0..21 has the open-drain mux of its old value, also when SCL and SDA are the same pin; OUT and every other pin's mux are unchanged |
| `Gpio.OpenDrainPairEnable` | main/drivers/i2c.c:107-108 | after the SCL and SDA configuration the enable register gains exactly the bits of the pins in 0..21 |
| `Gpio.LineMask` | main/drivers/i2c.c:68-89 | the mask `1 << pin` of the line helpers is a single bit for a pin in 0..31, the pin's `PinBit` for a pin in 0..21 |
| `Gpio.ReleasedLines` | main/drivers/i2c.c:111-112 | after the two W1TS writes every register except OUT is unchanged |
| `Gpio.ReleasedOut` | main/drivers/i2c.c:111-112 | releasing both lines sets the OUT bit of each pin in 0..31 and keeps every other OUT bit, also when the pins coincide |
| `Gpio.ReleasedAtBoardPins` | main/drivers/i2c.c:111-112 | with SCL on GPIO7 and SDA on GPIO6 (the pins of the board's `main`), a cleared OUT becomes 0xC0 |
| `Gpio.Registers.WriteSet` | main/drivers/i2c.c:68-71 | a write of mask m to GPIO_OUT_W1TS_REG sets the bits of m in OUT and changes nothing else |
| `I2c.DelayCycles` | main/drivers/i2c.c:104 | the delay count is the largest r with 4 * freq * r <= 160 MHz, i.e. the two truncating divisions of the source, for any nonzero 32-bit frequency (rust/src/i2c.rs:141) |
| `I2c.DelayAt400kHz` | main/drivers/i2c.c:100-104 | the count is 100 at 400 kHz and 400 at 100 kHz |
| `I2c.ToBitsAt` | main/drivers/i2c.c:133-138 | bit i of the data is the (7 - i)-th bit sent: MSB first |
| `I2c.AssembleToBits` | main/drivers/i2c.c:158-164 | sampling the bits of a byte sent MSB first assembles that byte again |
| `I2c.ToBitsAssemble` | main/drivers/i2c.c:158-164 | the byte read_byte assembles has sample k as its bit 7 - k |
| `I2c.AddrByte` | main/drivers/i2c.c:185 | the address byte is 2 * addr mod 256 (u8 shift), with R/W bit 0 (write) |
| `I2c.SentIsPrefixToFirstNack` | main/drivers/i2c.c:191-196 | a write puts a nonempty prefix of its frame on the wire, ending at the first NACK, with every byte before it acknowledged; the oracle moves one level per byte sent |
| `I2c.AckedIffAllAcked` | main/drivers/i2c.c:179-200 | a write returns true iff every byte was acknowledged, and then the whole frame was sent |
| `I2c.RunSentPrefixes` | main/drivers/i2c.c:179-200 | a run of writes logs one entry per transaction, each a nonempty prefix of the frame requested |
| `I2c.RunSentWhenAcked` | main/drivers/i2c.c:179-200 | when the device acknowledges everything, the log grows by exactly the frames requested |
| `I2c.DecodeStart` | main/drivers/i2c.c:115-122 | from an idle bus the start events are one START condition (SDA falls while SCL is high), and SCL ends low |
| `I2c.DecodeStop` | main/drivers/i2c.c:124-129 | with SCL low, the stop events are one STOP condition (SDA rises while SCL is high), and the bus ends idle |
| `I2c.DecodeBits` | main/drivers/i2c.c:133-141 | the data-bit events are read as exactly those bits, with no START/STOP among them: SDA changes only while SCL is low |
| `I2c.DecodeAck` | main/drivers/i2c.c:143-147 | the acknowledge clock is read as one bit, the level the device left on SDA |
| `I2c.DecodeByte` | main/drivers/i2c.c:131-150 | write_byte is read as the byte's eight bits MSB first, then the acknowledge bit |
| `I2c.DecodeRead` | main/drivers/i2c.c:152-177 | read_byte is read as the eight samples, then the master's bit: low (ACK) iff `ack` |
| `I2c.DecodeMasterAck` | main/drivers/i2c.c:166-174 | the master's acknowledge clock is read as one bit, low iff `ack`, and SDA is released after it |
| `I2c.DecodeBody` | main/drivers/i2c.c:191-196 | the byte writes of a frame are read as the bytes sent, every one acknowledged except possibly the last |
| `I2c.DecodeTx` | main/drivers/i2c.c:179-200 | a whole write transaction is read as START, the bytes sent with their acknowledge bits, STOP, and the bus is left idle (UM10204 framing) |
| `I2c.Bus.Init` | main/drivers/i2c.c:96-113 | records the pins, sets the delay count, leaves the GPIO registers as `OpenDrainRegs` applied for SCL then SDA, whatever the pins, followed by `ReleasedLines` (the W1TS writes of `sda_high(); scl_high();`, which set both pins' OUT bits), and leaves both lines high with an empty trace (rust/src/i2c.rs:134-151) |
| `I2c.ReleaseLines` | main/drivers/i2c.c:111-112 | the OUT register gains SDA's line mask, then SCL's; no other register changes |
| `I2c.Bus.SclHigh` | main/drivers/i2c.c:68-71 | SCL driven high, nothing else changed |
| `I2c.Bus.SclLow` | main/drivers/i2c.c:74-77 | SCL driven low, nothing else changed |
| `I2c.Bus.SdaHigh` | main/drivers/i2c.c:80-83 | SDA released high, nothing else changed |
| `I2c.Bus.SdaLow` | main/drivers/i2c.c:86-89 | SDA driven low, nothing else changed |
| `I2c.Bus.SdaRead` | main/drivers/i2c.c:92-94 | the level read is the device's next level, which is consumed |
| `I2c.Bus.Start` | main/drivers/i2c.c:115-122 | always returns true; both lines end low and the trace gets the start events (rust/src/i2c.rs:154-161) |
| `I2c.Bus.Stop` | main/drivers/i2c.c:124-129 | both lines end released and the trace gets the stop events (rust/src/i2c.rs:164-169) |
| `I2c.Bus.ClockOut` | main/drivers/i2c.c:134-140 | one data bit on SDA, then an SCL pulse; SCL ends low |
| `I2c.Bus.ClockOutByte` | main/drivers/i2c.c:133-141 | the eight data bits of the byte go out MSB first, one SCL pulse each |
| `I2c.Bus.ClockAck` | main/drivers/i2c.c:144-147 | SDA released, SCL high, the device's level sampled, SCL low |
| `I2c.Bus.WriteByte` | main/drivers/i2c.c:131-150 | returns true iff the device held SDA low in the ninth clock (active-low ACK); ends with SCL low and SDA released (rust/src/i2c.rs:172-191) |
| `I2c.Bus.ClockIn` | main/drivers/i2c.c:159-163 | one SCL pulse with SDA sampled while SCL is high |
| `I2c.Bus.ClockInByte` | main/drivers/i2c.c:158-164 | the byte assembled from the next eight device levels, bit 7 first |
| `I2c.Bus.SendAck` | main/drivers/i2c.c:167-174 | SDA low iff `ack` for one SCL pulse, then SDA released |
| `I2c.Bus.ReadByte` | main/drivers/i2c.c:152-177 | returns the byte whose bit 7 - k is the k-th sample; ends with SCL low and SDA released (rust/src/i2c.rs:194-219) |
| `I2c.Bus.WriteOrStop` | main/drivers/i2c.c:192-195 | on ACK the frame goes on; on NACK a STOP completes the transaction, which returns false |
| `I2c.Bus.FrameByte` | main/drivers/i2c.c:192 | one more byte of the frame written; a NACK leaves the transaction complete but for its STOP |
| `I2c.Bus.StopFrame` | main/drivers/i2c.c:193 | the STOP that ends a transaction, which is then logged |
| `I2c.Bus.Finish` | main/drivers/i2c.c:198-199 | after the last byte acknowledged, STOP; the transaction returns true |
| `I2c.Bus.WriteData` | main/drivers/i2c.c:190-199 | the data loop of both writes: every data byte in turn, STOP at the first NACK or after the last byte |
| `I2c.Bus.Write` | main/drivers/i2c.c:179-200 | START, address byte, data, STOP; stops at the first NACK; true iff all acknowledged; bus left idle (rust/src/i2c.rs:222-243) |
| `I2c.Bus.WriteReg` | main/drivers/i2c.c:202-229 | as `Write` with the register byte after the address (rust/src/i2c.rs:246-273) |
| `Ssd1306.BitMaskIsShift` | main/devices/ssd1306.c:243 | the mask for bit position k is `1 << k` |
| `Ssd1306.MaskBits` | main/devices/ssd1306.c:242-246 | `\|=` with a mask sets that bit only, and `&= ~` with it clears that bit only |
| `Ssd1306.PixelPosition` | main/devices/ssd1306.c:233-243 | every on-screen pixel has a byte index in 0..1023, and distinct pixels never share both byte and bit |
| `Ssd1306.WithPixelOnly` | main/devices/ssd1306.c:242-246 | writing a pixel gives it the colour and leaves every other pixel alone |
| `Ssd1306.WithPixelPixels` | main/devices/ssd1306.c:242-246 | `WithPixelOnly` for all pixels at once |
| `Ssd1306.BlankIsDark` | main/devices/ssd1306.c:199-201 | the cleared buffer has every pixel off |
| `Ssd1306.ColumnFilledPixel` | main/devices/ssd1306.c:294-296 | filling one column segment colours exactly its on-screen pixels and no others |
| `Ssd1306.RectFilledPixel` | main/devices/ssd1306.c:292-298 | a filled rectangle colours exactly its on-screen pixels, nothing when w <= 0 or h <= 0 |
| `Ssd1306.RectFilledPixels` | main/devices/ssd1306.c:292-298 | `RectFilledPixel` for every pixel at once |
| `Ssd1306.ColumnPixel` | main/devices/ssd1306.c:259-264 | one glyph column lights exactly the set bits among rows 0..6 and turns nothing off |
| `Ssd1306.GlyphPixel` | main/devices/ssd1306.c:258-265 | the visited glyph columns light exactly their set bits of rows 0..6 |
| `Ssd1306.DrawnCharPixels` | main/devices/ssd1306.c:251-266 | draw_char turns on exactly the inked pixels of the glyph (codes outside 32..126 drawn as space, bit 7 ignored) and turns no pixel off |
| `Ssd1306.LayoutNewline` | main/devices/ssd1306.c:274-276 | a newline moves the cursor to x and 8 rows down without drawing |
| `Ssd1306.LayoutChar` | main/devices/ssd1306.c:277-285 | any other char is drawn at the cursor, which moves 6 columns on, wrapping to x and 8 rows down on reaching 128 |
| `Ssd1306.LayoutChars` | main/devices/ssd1306.c:273-287 | draw_string draws each char before the first NUL except newlines, once and in order |
| `Ssd1306.LayoutPositions` | main/devices/ssd1306.c:270-288 | every drawn cell lies a whole number of 6-column steps right of x, left of 128 unless at x, and a whole number of 8-row text rows below y |
| `Ssd1306.RowLayout` | main/devices/ssd1306.c:278-284 | up to 21 plain chars from the left edge never wrap: char k lands at column 6 * k |
| `Ssd1306.InkedByAppend` | main/devices/ssd1306.c:273-287 | two drawings together ink exactly what either of them inks |
| `Ssd1306.DrawnCellsPixel` | main/devices/ssd1306.c:273-287 | drawing cells lights exactly the pixels some cell inks and turns no pixel off |
| `Ssd1306.Driver.Init` | main/devices/ssd1306.c:114-195 | address stored, bus initialised at 400 kHz on the configured pins (GPIO registers as `I2c.Bus.Init` leaves them: both pins open-drain, both OUT bits set), the 25 set-up commands AE D5 80 A8 3F D3 00 40 8D 14 20 00 A1 C8 DA 12 81 CF D9 F1 DB 40 A4 A6 AF as single-command transactions in order, then a blank framebuffer sent (rust/src/ssd1306.rs:102-152) |
| `Ssd1306.Driver.SendCommands` | main/devices/ssd1306.c:132-188 | one `[addr << 1, 0x80, cmd]` transaction per command, in order, whatever the device answers |
| `Ssd1306.Driver.SendCommand` | main/devices/ssd1306.c:78-81 | one `[addr << 1, 0x80, cmd]` write transaction; true iff all three bytes acknowledged (rust/src/ssd1306.rs:62-67) |
| `Ssd1306.Driver.SendData` | main/devices/ssd1306.c:85-112 | one transaction `[addr << 1, 0x40] + data`, stopping at the first NACK; true iff all acknowledged (rust/src/ssd1306.rs:70-99) |
| `Ssd1306.Driver.Display` | main/devices/ssd1306.c:205-218 | commands 21 00 7F 22 00 07, then one data transaction of the whole framebuffer; the framebuffer is unchanged (rust/src/ssd1306.rs:164-175) |
| `Ssd1306.Driver.SetContrast` | main/devices/ssd1306.c:302-305 | two command transactions, 0x81 then the level; framebuffer untouched |
| `Ssd1306.Driver.DisplayOn` | main/devices/ssd1306.c:309-311 | one command transaction, AF when on, AE when off |
| `Ssd1306.Driver.InvertDisplay` | main/devices/ssd1306.c:315-317 | one command transaction, A7 when inverting, A6 otherwise |
| `Ssd1306.Driver.Clear` | main/devices/ssd1306.c:199-201 | all 1024 framebuffer bytes zero (rust/src/ssd1306.rs:155-161) |
| `Ssd1306.Driver.SetPixel` | main/devices/ssd1306.c:222-247 | in bounds: only bit y & 7 of byte x + (y / 8) * 128 changes, set iff color != 0; out of bounds: no change (rust/src/ssd1306.rs:178-193) |
| `Ssd1306.Driver.FillColumn` | main/devices/ssd1306.c:294-296 | the inner loop of fill_rect: the column segment filled |
| `Ssd1306.Driver.FillRect` | main/devices/ssd1306.c:292-298 | every on-screen pixel of [x, x + w) x [y, y + h) gets the colour and every other pixel is unchanged (rust/src/ssd1306.rs:238-244) |
| `Ssd1306.Driver.DrawColumn` | main/devices/ssd1306.c:259-264 | the inner loop of draw_char: one glyph column plotted |
| `Ssd1306.Driver.DrawChar` | main/devices/ssd1306.c:251-266 | the glyph drawn as `DrawnCharPixels` describes, Rust's font-length guard included (rust/src/ssd1306.rs:196-214) |
| `Ssd1306.Driver.DrawString` | main/devices/ssd1306.c:270-288 | the cells of the cursor layout drawn in order: exactly the pixels they ink are turned on, none off (rust/src/ssd1306.rs:217-235) |
| `Console.BytesOfDataWrites` | main/drivers/console.c:148-153 | writing a buffer's bytes to EP1 puts exactly those bytes on the wire, in order |
| `Console.BatchesStep` | main/drivers/console.c:148-162 | every WR_DONE closes a batch of at least one data byte |
| `Console.FlushSent` | main/drivers/console.c:139-166 | a flush of a nonempty buffer keeps the batch structure and puts the buffered bytes on the wire after the earlier ones |
| `Console.UnexpandExpand` | main/drivers/console.c:267-280 | the newline translation is lossless: reading each CR LF back as LF gives the string (up to its NUL) again |
| `Console.GreetingLength` | main/drivers/console.c:204 | the greeting passes 35 bytes to putc: its 33 plain chars, then CR LF for the newline |
| `Console.Transmitter.Init` | main/drivers/console.c:195-205 | empty buffer, then the greeting's 35 bytes go out as exactly one batch: their EP1 writes, then one WR_DONE (rust/src/console.rs:110-115) |
| `Console.Transmitter.Flush` | main/drivers/console.c:139-176 | empty buffer: no write at all; otherwise the buffered bytes in order, one WR_DONE, buffer emptied (rust/src/console.rs:81-103) |
| `Console.PutcKeeps` | main/drivers/console.c:229-242 | one putc on the value state `Tx` keeps every earlier register write and loses no byte |
| `Console.FlushedKeeps` | main/drivers/console.c:139-166 | a flush on the value state keeps every earlier write and puts exactly the pending bytes on the wire |
| `Console.FedKeeps` | main/drivers/console.c:265-282 | passing any bytes to putc one at a time keeps every earlier write, and the writes then the pending bytes are the old ones plus the new bytes |
| `Console.FedShort` | main/drivers/console.c:233-241 | bytes that fit the buffer only join it: no register is written until the 64th |
| `Console.OneBatch` | main/drivers/console.c:265-288 | fewer than 64 bytes from an empty start, then flushed, are one batch: their EP1 writes and one WR_DONE |
| `Console.Transmitter.Putc` | main/drivers/console.c:229-242 | the byte is stored; storing the 64th flushes at once, so the fill level stays below 64; order is conserved; the new writes and buffer are `PutcStep` of the old ones (rust/src/console.rs:118-127) |
| `Console.Transmitter.PutsStep` | main/drivers/console.c:270-278 | one round of the loop: CR first for a newline, then the char's byte, each through putc |
| `Console.Transmitter.PutChars` | main/drivers/console.c:267-282 | the loop: the writes and buffer become `Fed` of the old ones with every char up to the NUL encoded, earlier writes kept |
| `Console.Transmitter.Puts` | main/drivers/console.c:265-288 | the writes become exactly `Flushed(Fed(old state, Expand(s)))`: earlier writes kept as they were, every char up to the NUL passed to putc with CR before each LF, batches cut every 64 bytes, then a final flush; buffer empty (rust/src/console.rs:130-138) |
| `Shell.TerminatedEndsAt` | main/shell.c:30-34 | a C string ends at n iff its part before the first NUL is its first n chars |
| `Shell.StrLen` | main/shell.c:30-34 | the index of the first NUL, or the slice length without one (rust/src/shell.rs:33-40) |
| `Shell.StrEquals` | main/shell.c:36-43 | true iff both strings read the same up to their NULs (rust/src/shell.rs:42-54) |
| `Shell.StrCopy` | main/shell.c:21-28 | at most max_len - 1 chars of src written, stopping at its NUL, then a NUL; nothing else in dest changes (rust/src/shell.rs:21-31) |
| `Shell.WordsAreWords` | main/shell.c:151-166 | every argument the tokenizer yields is nonempty and holds no space and no NUL |
| `Shell.WordsOfJoin` | main/shell.c:99-107 | splitting words joined by single spaces gives the words back |
| `Shell.SkipSpaces` | main/shell.c:154 | the index of the first non-space from p |
| `Shell.ArgEnd` | main/shell.c:161 | the index of the first space or NUL from p |
| `Shell.Tokenize` | main/shell.c:151-166 | the tokenizer yields the first 8 space-separated words of args_buffer, in order (rust/src/shell.rs:179-205) |
| `Shell.LeadingSpacesAre` | main/shell.c:137 | the leading spaces skipped are all spaces |
| `Shell.ArgsAreWords` | main/shell.c:136-166 | every argument of a command line is a word |
| `Shell.ArgsOfLine` | main/shell.c:136-166 | a line the input buffer can hold is parsed into its first 8 space-separated words: neither the skip nor the copy changes them |
| `Shell.ParseArgs` | main/shell.c:136-168 | the arguments are `Args` of the line read up to its NUL; none for a blank line |
| `Shell.JoinedBound` | main/shell.c:99-107 | the echo message never exceeds 63 chars (rust/src/shell.rs:111-138) |
| `Shell.JoinedFull` | main/shell.c:99 | once the message is full nothing more is added, so the C outer `pos < 63` guard, which Rust lacks, changes nothing |
| `Shell.EchoJoins` | main/shell.c:99-108 | echo prints its arguments joined by single spaces exactly when that fits in 62 chars |
| `Shell.AppendArg` | main/shell.c:101-103 | the chars of the argument appended while the message is shorter than 62 |
| `Shell.EchoArg` | main/shell.c:100-106 | one outer round: argument i, then a space unless it is the last or the message is full |
| `Shell.EchoMessage` | main/shell.c:95-108 | the message buffer reads as `EchoText`, the bounded join of argv[1..] |
| `Shell.EchoRoundTrip` | main/shell.c:89-111 | when the arguments after "echo" fit, echo prints them joined by single spaces and splitting that line gives them back |
| `Shell.Lookup` | main/shell.c:171-178 | the index of the first command whose name equals argv[0], or 3 when none does (rust/src/shell.rs:212-219) |
| `Shell.DispatchOf` | main/shell.c:171-198 | the handler picked by table position does what the by-name dispatch says |
| `Shell.FitsRow` | main/shell.c:183-187 | true iff prefix length plus name length is at most 21 |
| `Shell.ErrorMessage` | main/shell.c:189-191 | the one-row message buffer reads as "command unknown: " followed by the name |
| `Shell.PromptLine` | main/shell.c:130-133 | the prompt buffer reads as "> " followed by the command line cut to 61 chars |
| `Shell.RubOut` | main/shell.c:224-226 | the console gets backspace, space, backspace |
| `Shell.ScrolledLast` | main/shell.c:52-61 | printing keeps at most 8 rows: the new row last, before it the most recent old rows |
| `Shell.ReplayCut` | main/shell.c:60 | lines printed while rows are free go below the rows in use, in order, each cut to 21 chars |
| `Shell.ReplayShows` | main/shell.c:52-61 | lines that fit a row, printed while rows are free, are added whole, in order |
| `Shell.BannerRows` | main/shell.c:212-214 | the three banner lines fit a row each and are shown whole |
| `Shell.HelpOnScreen` | main/shell.c:76-81 | help on an empty screen shows its four lines cut to 21 chars: the third loses its last letter |
| `Shell.TypeThenErase` | main/shell.c:220-255 | a printable char then backspace gives the line back, and the console sees the char then the rub-out sequence; neither key runs anything |
| `Shell.EditedFits` | main/shell.c:249-252 | whatever is typed, the line stays at most 63 printable chars, so input_pos <= 63 and the NUL after it fits |
| `Shell.Shell.Refresh` | main/shell.c:259-270 | framebuffer cleared, every nonempty row drawn at y = 8 * i, the framebuffer sent with `Display` (rust/src/shell.rs:310-323) |
| `Shell.Shell.DrawRows` | main/shell.c:263-267 | the row loop: the framebuffer becomes the screen of all eight rows |
| `Shell.Shell.DrawRow` | main/shell.c:264-266 | row i drawn at y = 8 * i if it is not empty |
| `Shell.Shell.Init` | main/shell.c:202-215 | empty input line, all rows empty, then the banner printed: the rows in use are the banner (rust/src/shell.rs:246-261) |
| `Shell.Shell.Greet` | main/shell.c:212-214 | the three banner lines printed on an empty screen |
| `Shell.Shell.ClearRows` | main/shell.c:68-70 | every row reads empty |
| `Shell.Shell.ClearScreen` | main/shell.c:67-73 | no rows in use and the display refreshed (rust/src/shell.rs:87-95) |
| `Shell.Shell.PutLine` | main/shell.c:48-49 | the text and then a newline through console_puts, the console buffer left empty |
| `Shell.Shell.Print` | main/shell.c:46-64 | the text and a newline to the console; rows scrolled if all 8 are in use; the text cut to 21 chars in the next row; display refreshed; the console buffer is left empty, so everything printed so far is on the wire (rust/src/shell.rs:63-84) |
| `Shell.Shell.AddRow` | main/shell.c:52-61 | the rows in use become `Scrolled` of the old ones with the new row |
| `Shell.Shell.ScrollUp` | main/shell.c:54-56 | rows 1..7 move up to 0..6; the last row stays |
| `Shell.Shell.Help` | main/shell.c:76-81 | the four help lines printed (rust/src/shell.rs:98-103) |
| `Shell.Shell.Echo` | main/shell.c:89-111 | the usage line without arguments, else the joined arguments, printed (rust/src/shell.rs:111-138) |
| `Shell.Shell.EchoArgs` | main/shell.c:95-110 | the echo message printed once |
| `Shell.Shell.Unknown` | main/shell.c:180-198 | "command unknown: name" on one row iff 17 + len(name) <= 21, else the prefix and the name as two rows (rust/src/shell.rs:221-242) |
| `Shell.Shell.Report` | main/shell.c:187-197 | one row or two, as the measured lengths say |
| `Shell.Shell.UnknownShort` | main/shell.c:188-192 | the one-row unknown-command message printed |
| `Shell.Shell.PrintPair` | main/shell.c:195-196 | two lines printed one after the other |
| `Shell.Shell.RunCommand` | main/shell.c:170-198 | the rows and console bytes follow `Dispatch(argv)`: the named handler, or the unknown-command message |
| `Shell.Shell.Handle` | main/shell.c:173-197 | the handler at the table position found, or the unknown-command message |
| `Shell.Shell.Execute` | main/shell.c:128-199 | the rows and console bytes follow `Response`: the prompt line, then the command the arguments name; the console buffer is left empty (rust/src/shell.rs:153-243) |
| `Shell.Shell.PrintPrompt` | main/shell.c:130-134 | the prompt line printed |
| `Shell.Shell.Command` | main/shell.c:136-198 | nothing for a blank line, else the command its arguments name |
| `Shell.Shell.ProcessChar` | main/shell.c:218-256 | the line becomes `Edited`, the console gets `KeyEcho` and the actions' bytes, and the rows follow `KeyActions`; the invariant (line <= 63 printable chars, NUL after it) is kept; after a newline the console buffer is empty, while a typed printable char goes out only when it fills the buffer (rust/src/shell.rs:264-307) |
| `Shell.Shell.Erase` | main/shell.c:220-229 | a nonempty line loses its last char and the console gets the rub-out sequence; an empty line: nothing |
| `Shell.Shell.Insert` | main/shell.c:249-255 | the char appended and passed to putc; unless it is the 64th byte in the console buffer it stays there, nothing goes out |
| `Shell.Shell.Append` | main/shell.c:251-252 | the char stored at the end of the line, the NUL after it |
| `Shell.Shell.Enter` | main/shell.c:232-246 | newline echoed, a nonempty line run, ">" printed, the line emptied |
| `Shell.Shell.Submit` | main/shell.c:236-244 | a nonempty line run, then ">" printed and the line emptied |
| `Shell.Shell.RunLine` | main/shell.c:236-238 | the line run by shell_execute only when it is not empty |
| `Shell.Shell.NewPrompt` | main/shell.c:241-244 | ">" printed and the line emptied |

## Left out

- Busy-wait timing: `i2c_delay`, the power-up wait of `ssd1306_init`, the spin after every console flush. They are no-ops here; only the delay-count arithmetic is modelled.
- Electrical behaviour: open-drain outputs, pull-ups and the remote I2C device are not modelled. The SDA levels the master samples are an oracle parameter.
- Memory-mapped I/O is modelled as a map from register to value (GPIO), as the recorded write sequence (console), and as line levels (I2C). W1TS/W1TC writes are set/clear of the OUT value. The IO-MUX register addresses are not modelled.
- I2c.Bus: only the two W1TS writes of `i2c_init` reach the GPIO register model. The line writes of every later `scl_high`/`scl_low`/`sda_high`/`sda_low` (W1TS/W1TC of the pin's bit in OUT) are kept as the Bus's `scl`/`sda` levels and its trace, not applied to `Gpio.Registers`. Between transactions both lines are released, so the source's OUT then holds both bits set, as `Init` leaves the model's. The intermediate OUT values during a transaction are not captured. For a pin outside 0..31 the source's `1 << pin` is undefined in C and panics or wraps in Rust; the model writes no bit there and runs the bus normally. The trace starts after the two releasing events of `i2c_init`.
- `console_getc` and Rust `getc`: foreign or hardware input. The shell takes the typed char as a parameter.
- Boot glue (`main/main.c`, `rust/src/main.rs`, `bootloader/bootloader_main.c`): watchdog, HAL initialisation, and the polling loop that feeds chars to the shell.
- The font glyph data is not part of this model. The font is a constructor parameter: a sequence of 5-byte glyphs, glyph k for char code 32 + k.
- The `if (!i2c_start())` early returns are unreachable, since start always returns true. `Bus.Start` ensures it returns true; callers ignore the result.
- `Ssd1306.Driver.SendCommands` is one loop that stands for the 25 unrolled `send_command` calls of `ssd1306_init`.
- `Ssd1306.Driver.Init` returns nothing: the source returns the constant true, whatever the device answered.
- Several methods are extracted loop bodies or branch parts with no function of their own in the source. They are decompositions of the functions cited in their rows:
  - SSD1306: `DrawColumn`, `FillColumn`, `SendCommands`.
  - I2C: `ClockOut`, `ClockOutByte`, `ClockAck`, `ClockIn`, `ClockInByte`, `SendAck`, `WriteOrStop`, `FrameByte`, `StopFrame`, `Finish`, `WriteData`.
  - Shell output: `DrawRows`, `DrawRow`, `AddRow`, `ScrollUp`, `ClearRows`, `Greet`, `PrintPair`.
  - Shell commands and echo loops: `EchoArgs`, `EchoArg`, `AppendArg`, `SkipSpaces`, `ArgEnd`, `Tokenize`, `RunCommand`, `Handle`, `Report`, `UnknownShort`, `FitsRow`, `ErrorMessage`, `PromptLine`, `ParseArgs`, `Command`, `PrintPrompt`.
  - Shell line editor: `Erase`, `Insert`, `Append`, `Enter`, `Submit`, `RunLine`, `NewPrompt`, `RubOut`.
- The C tokenizer ends each argument by writing a NUL over its space in `args_buffer`. The model takes each argument as a slice of `args_buffer`, as the Rust version does. The arguments are the same.
- The Rust scroll copies whole 22-byte rows; the C one copies each row with `str_copy`. The model follows the C copy. Both leave every row reading the same.
- The input line is handed to `shell_execute` as the contents of the input buffer (a value), not as a pointer into it.
- The Rust unknown-command message is built with two explicit loops, not with `str_copy`. The result is the same.
- The Rust command names carry a trailing NUL (`"help\0"`). `str_len`, and so `str_equals`, stop there, so they compare as the C names do.
- The Rust `draw_string` and `puts` iterate over a whole `&str` with no NUL stop. The strings the Rust shell passes to them hold no NUL: `bytes_to_str` cuts before it and the literals have none. So stopping at the first NUL, as the C code and the model do, changes nothing.
- Chars are bytes: `Console.CharByte` keeps the low 8 bits, as Rust's `as u8` does. Plain `char` is unsigned on the RISC-V target, so C and Rust read the same byte.
- Ssd1306.Driver.SetPixel, Ssd1306.Driver.FillRect, Ssd1306.Driver.DrawChar and Ssd1306.Driver.DrawString take their coordinates as unbounded integers. The source's are C `int` and Rust `i32`. Near the 32-bit limits the sums `x + w`, `y + h`, `x + i`, `y + j`, `cursor_x += 6` and `y += 8` overflow in the source (undefined behaviour in C, a panic or a wrap in Rust). The model computes them exactly, so it does not capture that overflow.
- Integer widths: the `uint8_t` `input_pos` and `current_line` never exceed 64, so they are unbounded integers here. The 32-bit delay division is modelled for nonzero frequencies only, because the source divides by the frequency.
- Shell.Shell (the constructor `Init` and every method except `Refresh`, the drawing helpers `DrawRows`/`DrawRow` and the row helpers `ClearRows`/`AddRow`/`ScrollUp`, which make no I2C transaction): the contracts state the rows, the framebuffer, the console bytes and the console buffer level, but not the I2C bus log of the display refreshes they make. Only `Shell.Shell.Refresh` states that log (the framebuffer sent with `Display`).
- The framebuffer contract of `Shell.Shell.Refresh` is the screen built from the rows with `DrawString`'s cell layout; its pixel meaning is given by the `Ssd1306` lemmas.
