# Chromaduino driver core in Dafny

This project models the core of the Chromaduino master firmware, which drives
a chain of three Colorduino LED matrices over a two-wire (I2C) bus and serves
a small control web page. It has three parts:

- **Colour conversion** (`hsv2rgb.h`, module `Colour` in `colour.dfy`).
  - The 256-entry `gamma8` table.
  - `HSVtoRGB`, which turns a hue on a 1536-step colour wheel, a saturation
    and a value into the three gamma-corrected bytes of one pixel.
  - The pure function `HsvToRgb` specifies the conversion. The method
    `HSVtoRGB` follows the source's steps and writes `pChannel[0..3)` of a
    caller's array.
- **Bus commands** (`comm.h`, module `Comm` in `comm.dfy`).
  - The address table and the logical-to-physical matrix mapping.
  - The six commands that talk to a matrix.
  - The bus is a `Wire` object. It records each completed transaction in a
    log and answers read requests from a script of replies. Each command's
    contract states exactly which transactions it adds to the log.
  - The build-time settings `LED_MATRIX_COUNT` and `DISPLAY_ROTATED` are
    fields of a `Config` parameter.
- **Home page** (`homepage.h`, module `HomePage` in `homepage.dfy`).
  - `constructHomePage` builds the page by appending four constant fragments,
    two three-digit fields and the host name.
  - `patchHomePage` rewrites the two fields of an existing page in place with
    `setCharAt`.
  - The fragments are opaque constants and the host name is a parameter.

C's truncating `/` and `%` and the machine integer types are in module `CInt`
(`cint.dfy`). The home page is served through the ESP8266 network stack
(homepage.h:63), a 32-bit target, so `int` is `Int32`. The width changes no
computed value: every intermediate product stays below 65,536. Only the
ranges of `hue` and `count` that the model accepts are wider than on a
16-bit board.

## Model

| member | source | states |
|---|---|---|
| CInt.Rem | hsv2rgb.h:35 | C's `%` by a positive divisor: the remainder has the dividend's sign, is smaller than the divisor in magnitude, and is congruent to the dividend |
| CInt.Quot | comm.h:58 | C's `/` by a positive divisor truncates toward zero: `Quot(a, d) * d + Rem(a, d) == a`, and it agrees with floor division for `a >= 0` |
| Colour.Gamma8 | hsv2rgb.h:60-62 | `pgm_read_byte(&gamma8[i])`: the entry never exceeds its index (gamma correction never brightens), and entry 255 is 255 |
| Colour.GammaShape | hsv2rgb.h:7-23 | the gamma table has 256 entries, listed as sixteen rows of sixteen |
| Colour.GammaRow | hsv2rgb.h:8-23 | within any row of the table the entries never decrease, and no entry exceeds its index in the table |
| Colour.GammaRows0To3 | hsv2rgb.h:8-11 | rows 0 to 3 of the table never decrease, and no entry exceeds its index |
| Colour.GammaRows4To7 | hsv2rgb.h:12-15 | rows 4 to 7 of the table never decrease, and no entry exceeds its index |
| Colour.GammaRows8To11 | hsv2rgb.h:16-19 | rows 8 to 11 of the table never decrease, and no entry exceeds its index |
| Colour.GammaRows12To15 | hsv2rgb.h:20-23 | rows 12 to 15 of the table never decrease, and no entry exceeds its index |
| Colour.GammaRowJoin | hsv2rgb.h:8-23 | the last entry of each row is at most the first entry of the next row |
| Colour.GammaAdjacent | hsv2rgb.h:7-23 | `gamma8[i] <= gamma8[i + 1]` for every index, across row ends too |
| Colour.GammaNondecreasing | hsv2rgb.h:7-23 | `gamma8` is monotone: `i <= j` implies `gamma8[i] <= gamma8[j]` |
| Colour.GammaEnds | hsv2rgb.h:8-23 | `gamma8[0] == 0` and `gamma8[255] == 255` |
| Colour.NormalizeHue | hsv2rgb.h:35-36 | C's `hue %= 1536` followed by the sign fix gives the residue `hue mod 1536`, which lies in 0..1535 for every hue, negative ones included |
| Colour.NormalizeStep | hsv2rgb.h:35-36 | one step up the wheel advances the normalised hue by one, wrapping from 1535 to 0 |
| Colour.NormalizePeriodic | hsv2rgb.h:35-36 | whole turns of 1536 steps, in either direction, do not change the normalised hue |
| Colour.SextantColour | hsv2rgb.h:39-47 | a sextant in 0..5 gives a colour with one channel at 255 and one at 0; any other sextant gives black (and only those give a colour without a full channel) |
| Colour.BaseColour | hsv2rgb.h:35-47 | the colour the switch picks for any hue has one channel at 255 and one at 0 |
| Colour.SextantStep | hsv2rgb.h:40-45 | inside a sextant, one step of the mix moves exactly one channel by exactly one |
| Colour.SextantBoundary | hsv2rgb.h:40-45 | the colour at the end of each sextant is the colour at the start of the next, magenta-to-red wrapping to red-to-yellow |
| Colour.ShiftProduct | hsv2rgb.h:53 | `(x * y) >> 8` with `y` in 1..256 stays within 0..x, keeps x when y is 256, and gives 0 when y is 1 |
| Colour.ShiftProductMonotone | hsv2rgb.h:53 | `(x * y) >> 8` grows with both factors |
| Colour.Saturate | hsv2rgb.h:52-55 | saturation never lowers a channel; `sat == 255` leaves it unchanged and `sat == 0` gives 255 |
| Colour.Scale | hsv2rgb.h:59-62 | the gamma index `(c * (val + 1)) >> 8` is at most c, so it stays inside the table, and at most val; `val == 0` gives 0, `val == 255` gives c, and a full channel gives exactly val |
| Colour.Shade | hsv2rgb.h:52-62 | one output channel is never brighter than `gamma8[val]`, a full base channel is exactly that bright, and `val == 0` gives 0 |
| Colour.HsvToRgb | hsv2rgb.h:29-63 | the value sets the brightness: no channel of the pixel exceeds `gamma8[val]`, and at least one channel equals it, for every hue and saturation |
| Colour.HSVtoRGB | hsv2rgb.h:29-63 | writes exactly the R, G and B bytes of `HsvToRgb(hue, sat, val)` to `pChannel[0..3)`, in that order, and leaves the rest of the array unchanged |
| Colour.HuePeriodic | hsv2rgb.h:35-36 | adding any whole number of turns (1536 steps, in either direction) to the hue gives the same pixel |
| Colour.SextantInRange | hsv2rgb.h:35-47 | after normalisation the sextant `hue >> 8` is in 0..5, so the switch's black `default` arm is never taken |
| Colour.HueStepIsSmooth | hsv2rgb.h:38-47 | one step of hue moves the base colour by at most one unit in one channel, and by nothing at a sextant boundary (1535 to 0 included) |
| Colour.FullSaturationKeepsHue | hsv2rgb.h:52-62 | at `sat == 255` the pixel is the pure base colour, scaled by value and mapped through the gamma table |
| Colour.ZeroSaturationIsWhite | hsv2rgb.h:52-62 | at `sat == 0` and `val == 255` every hue gives (255, 255, 255) |
| Colour.ZeroValueIsBlack | hsv2rgb.h:59-62 | at `val == 0` every hue and saturation gives (0, 0, 0) |
| Colour.HueZeroIsRed | hsv2rgb.h:29-63 | hue 0 at full saturation and value is pure red (255, 0, 0) |
| Colour.ShadeMonotone | hsv2rgb.h:52-62 | an output channel never decreases when the value rises or the saturation falls |
| Colour.ValueMonotone | hsv2rgb.h:59-62 | raising the value never darkens any channel of the pixel |
| Colour.SaturationMonotone | hsv2rgb.h:52-55 | raising the saturation never brightens any channel of the pixel |
| Comm.GetMatrixIndex | comm.h:15-23 | a logical matrix of the chain maps to a slot of the chain; that the mapping is a bijection and its values in each orientation are in the lemmas below |
| Comm.MatrixIndexInvolution | comm.h:15-23 | the index mapping is its own inverse in both orientations |
| Comm.MatrixIndexBijective | comm.h:15-23 | on the matrices of the chain the index mapping is injective and onto the slots |
| Comm.GetMatrixAddress | comm.h:25 | the address of a matrix of the chain is one of the table's addresses |
| Comm.AddressesBijective | comm.h:13-25 | distinct matrices get distinct addresses, and together they use every address in `matrixAddress` |
| Comm.ChainAddresses | comm.h:13-25 | not rotated, matrices 0, 1 and 2 are at 0x72, 0x71 and 0x70; rotated, at 0x70, 0x71 and 0x72 |
| Comm.BlockLength | comm.h:58-61 | bytes sent for a count: a multiple of 3 and at most 30; zero exactly when the count is below 3; otherwise at most the count, and either 30 or the count rounded down to whole pixels |
| Comm.BlockLengthIsCappedPixels | comm.h:58-61 | for a non-negative count, rounding then capping equals capping at 30 then rounding down to a multiple of 3 |
| Comm.BlockLengthExamples | comm.h:58-61 | a count of 31 sends 30 bytes, 29 sends 27, and 2 sends none |
| Comm.Wire.constructor | comm.h:30-32 | a fresh bus has an empty log and the given script of replies |
| Comm.Wire.BeginTransmission | comm.h:30 | starts an empty transmission to the address; nothing else changes |
| Comm.Wire.Write | comm.h:31 | appends one byte to the pending transmission |
| Comm.Wire.EndTransmission | comm.h:32 | logs the pending transmission as one transaction and clears it |
| Comm.Wire.RequestFrom | comm.h:83 | logs the request; the next scripted reply, cut to the quantity asked for, becomes the receive buffer |
| Comm.Wire.Available | comm.h:85 | the number of received bytes not yet read |
| Comm.Wire.Read | comm.h:86 | the next received byte, or -1 when none is left |
| Comm.StartBuffer | comm.h:27-34 | adds exactly one transaction to the log: `[0x00]` to the matrix's address |
| Comm.StartFastCmd | comm.h:36-43 | adds exactly one transaction to the log: `[0x11]` to the matrix's address |
| Comm.WriteData | comm.h:45-53 | adds exactly one transaction to the log: `pRGB[0..3)` in order, to the matrix's address |
| Comm.WriteBlock | comm.h:55-69 | adds nothing when `BlockLength(count)` is 0; otherwise adds one transaction carrying the first `BlockLength(count)` bytes of `pBuf` |
| Comm.ShowBuffer | comm.h:71-78 | adds exactly one transaction to the log: `[0x01]` to the matrix's address |
| Comm.SetBalance | comm.h:80-94 | first requests one byte from the matrix, then sends `[0x02]`; returns true exactly when a byte came back and it was 3 |
| HomePage.LowByte | homepage.h:57 | `values & 0xff` differs from `values` by a multiple of 256 |
| HomePage.SecondByte | homepage.h:60 | `(values >> 8) & 0xff`, with the low byte below it, makes up bits 0..15 of `values` |
| HomePage.Digit | homepage.h:57 | the character of a decimal digit is a digit whose value is that digit |
| HomePage.DecimalValueOfThree | homepage.h:57 | a three-character string spells hundreds, tens and units |
| HomePage.Fmt3 | homepage.h:57 | `%03d` of a byte is exactly three digits, and they spell the byte |
| HomePage.Fmt3OfDecimalValue | homepage.h:57 | every three-digit string that spells a byte is that byte's `%03d` form, so formatting is a bijection |
| HomePage.Page | homepage.h:52-66 | the page `constructHomePage` returns has the total length of its seven parts, starts with `index_1` and ends with `index_4` |
| HomePage.PageFields | homepage.h:52-66 | a constructed page has the sum of its parts' lengths, and its two fields sit at `strlen(index_1)` and `strlen(index_1) + 3 + strlen(index_2)`, reading back as the low and second bytes of `values` |
| HomePage.PageAt | homepage.h:52-66 | every character of a constructed page comes from the fragment or field that covers its position |
| HomePage.ConstructHomePage | homepage.h:52-66 | the successive appends build the page `index_1 + %03d(low byte) + index_2 + %03d(second byte) + index_3 + hostname + index_4` |
| HomePage.SetCharAt | homepage.h:77 | `String::setCharAt` keeps the length, replaces the character at the position, and ignores a position past the end |
| HomePage.Overwrite | homepage.h:76-77 | a run of `setCharAt` calls keeps the length, puts the field's characters inside the field's span and keeps every other character; positions past the end are ignored |
| HomePage.Patched | homepage.h:71-82 | the patch keeps the length, fills the two fields with the `%03d` forms of the low and second bytes, and changes nothing else |
| HomePage.PatchHomePage | homepage.h:71-82 | the two `setCharAt` loops leave the buffer equal to `Patched` of its old contents |
| HomePage.PatchConstructedPage | homepage.h:52-82 | patching a page built with any old values gives exactly the page built with the new values |
| HomePage.PatchIdempotent | homepage.h:71-82 | patching twice with the same values is the same as patching once |
| HomePage.OnlyLow16BitsMatter | homepage.h:52-82 | values that agree on bits 0..15 build the same page and patch any page the same way |

## Left out

- `delay(1)` after each transmission is left out. Timing is not modelled.
- Bus errors are left out. The return codes of `endTransmission` and `requestFrom` are ignored by the driver and are not modelled.
- The bus library's 32-byte transmit buffer is not modelled. No command writes more than 30 bytes.
- The bus itself is a log of transactions with scripted replies. No device's behaviour is modelled.
- Program-memory access (`PROGMEM`, `pgm_read_byte`, `FPSTR`, `strlen_P`) is modelled as plain constants and their lengths.
- The host name comes from the network stack. Here it is a parameter.
- The HTML and script text of `index_1` .. `index_4` are opaque constants. Only their lengths and order matter to the code.
- `sprintf` is modelled only for `%03d` of a byte, the one use the code makes.
- The `String` class is modelled as a character sequence, or an `array<char>` for the buffer patched in place. Heap allocation failure on append is not modelled.
- Comm.GetMatrixAddress: states only that the address is in the table. Injectivity and coverage are in Comm.AddressesBijective. An index outside the chain reads outside the C array (before it, when not rotated and `matrix` is `LED_MATRIX_COUNT`), so it is excluded by the precondition.
- Colour.BaseColour: `hue >> 8` and `hue & 255` are written as `/ 256` and `% 256`. These agree because the hue is already normalised to 0..1535.
- Colour.Gamma8: the table is stored as its sixteen source rows with a lookup by row and column, not as one flat array of 256 entries. The values and their order are the source's.
