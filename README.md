# ruuvitag-sensor-rs: a verified model of the decoder and the event routing

This project models the core of `ruuvitag-sensor-rs`, a command-line tool that listens to RuuviTag
Bluetooth sensors. It covers three parts:

- **Decoder** (`src/measurement.rs`): decodes a "data format 5" (RAWv2) advertisement, given as the
  hex text of its manufacturer data, into a `RuuviMeasurement`.
  - The fields sit at fixed offsets of the hex string.
  - A sentinel pattern means "not transmitted".
  - Signed fields go through `twos_complement`.
  - The power field packs battery voltage and tx power.
  - The MAC is printed as colon-separated hex.
- **Front end** (`src/ruuvitag.rs`):
  - `is_ruuvitag` checks the little-endian company identifier 0x0499.
  - `from_manufacturer_data` guards the length, then hands the data to the external
    `ruuvi_sensor_protocol` parser.
  - `RuuviTag::new` builds a tag with integer readings.
  - `normalize_sensor_values` converts once, one way, to physical units.
- **Event routing** (`src/controller.rs`): the three modes that drain the controller's channel.
  - `collect` forwards updated tags on the allow-list to the database sender.
  - `find` prints each discovered address.
  - `show` prints every tag.

Files:

- `wrappers.dfy`: `Option` and `Result`.
- `machine_ints.dfy`: the Rust integer widths as ranges.
- `measurement.dfy`: module `Measurement`.
- `ruuvitag.dfy`: module `Ruuvitag`.
- `controller.dfy`: module `Controller`.

`get_mac`, with its two loops, and `get_power_info`, with its conditional assignments, are methods.
So is `from_str`, which calls them. They are proved against specification functions (`MacText`,
the field getters). `FromStr` has an `asWritten` mode that decodes as the source does and a
corrected mode; `DecodersAgreeBesideMac` shows that on a string both accept they differ only in
the MAC. As written, every temperature field ≥ 0x8000 is excluded, because the source aborts there. The MAC text is
related to its bytes through `MacBytes`, a reader of the text that the source does not have;
`MacBytes` and its colon search `LastColon` exist only to state the round trip. The readings of `src/ruuvitag.rs` are pure functions over datatypes.
The controller is a class whose `receiver` field is the sequence of events still in its channel; its
modes drain that sequence into a `TagSender` or a `Console` object. The database thread behind the
`TagSender` may end at any send, after which every send fails. `find` and `show` are proved to
print exactly a specification function of the events they read (`FindLines`, `ShowLines`). For
`collect` the database receives `Forwarded` of some prefix of those events, and all of them
when its thread is still alive at the end. Lemmas state what those functions promise.

Integer widths are ranges of unbounded integers (`Byte`, `U16`, `I16`, `U32`, `I32`). The source's
bit operations on bytes that came from two hex digits are modelled as arithmetic
(`CombineBytesBitwise` proves this, on 16-bit vectors, for the rebuild of a u16 from two bytes):

- `& 0xFF` is a no-op below 256.
- `<< 8` is `* 256`.
- The `|` of disjoint bit ranges is `+`.
- `& 0b11111` is `% 32`.
- `>> n` is division by 2^n.

The tx power is computed as in a release build: u16 wrap-around, then `as u8` keeps the low byte.

## Model

| member | source | states |
|---|---|---|
| Measurement.FromStrRadix16 | src/measurement.rs:37 | `from_str_radix(_, 16)` into a type with maximum `max`: an all-hex string parses to its value when that fits and is `PosOverflow` otherwise; empty text is `Empty`; other text without a leading '+' is `InvalidDigit`; every `Ok` is at most `max` |
| Measurement.TwosComplement | src/measurement.rs:6-11 | `twos_complement(val, bits)` returns either `val` or `val - 2^bits`; which one, and the signed range, are stated by `TwosComplementSigned` |
| Measurement.TwosComplementSigned | src/measurement.rs:6-11 | for 1 ≤ bits ≤ 16 and 0 ≤ val < 2^bits the result lies in [-2^(bits-1), 2^(bits-1)), is congruent to val mod 2^bits, and equals val exactly when the sign bit is clear |
| Measurement.TwosComplementExamples | src/measurement.rs:6-11 | 0x7FFF,16 → 32767; 0x8000,16 → -32768; 0xFF,8 → -1; 0x7F,8 → 127 |
| Measurement.RShift | src/measurement.rs:13-15 | `rshift(val, n)` is `val` div 2^n for every u16: the `% 0x100000000` changes nothing |
| Measurement.HexValueAppend | src/measurement.rs:92-95 | the value of two digit strings read one after the other is the first times 16^(length of the second) plus the second (big-endian positional notation) |
| Measurement.HexValueSnoc | src/measurement.rs:92-95 | one more digit multiplies the value read so far by 16 and adds the digit |
| Measurement.HexField16 | src/measurement.rs:92-95 | a 4-digit field equals 256 × its first two digits + its last two digits |
| Measurement.CombineBytes | src/measurement.rs:95 | the rebuilt u16 of two bytes has high byte `hi` and low byte `lo` |
| Measurement.CombineBytesBitwise | src/measurement.rs:95 | on 16-bit values below 256, `(hi & 0xFF) << 8 \| lo & 0xFF` is the number `CombineBytes` computes, hi·256 + lo |
| Measurement.Field16 | src/measurement.rs:92-95 | the value rebuilt from a field's two byte halves equals the 4-digit field read as one number |
| Measurement.Raw16Parse | src/measurement.rs:86 | the single-parse reading `Raw16` of a 4-digit field, used for every sentinel check, is exactly what `u16::from_str_radix(_, 16)` returns for those digits: the parse always succeeds |
| Measurement.SignedField | src/measurement.rs:113-136 | a 4-digit field converted by `twos_complement(_, 16)`: congruent to the field mod 2^16, and equal to it exactly when the field is below 0x8000 |
| Measurement.SignedFieldBelowSign | src/measurement.rs:81 | below the sign bit the i16 reading is the field itself, so the as-written temperature agrees with the corrected one wherever it does not abort |
| Measurement.GetTemperatureAsWritten | src/measurement.rs:71-83 | as written, the i16 parse of chars 6..10 fails (the `unwrap` aborts) exactly when the field is ≥ 0x8000; the result is absent exactly for 0x7FFF; otherwise it is the field value, below 0x7FFF |
| Measurement.NegativeTemperaturePanics | src/measurement.rs:72 | the field 0xFF38 (-1.00 °C) makes the as-written getter fail with `PosOverflow`, while the corrected getter gives -200 |
| Measurement.GetTemperature | src/measurement.rs:71-83 | absent exactly when the field is 0x7FFF (so 0x0000 gives 0, not absent); otherwise `twos_complement(field, 16)`, congruent to the field mod 2^16 and equal to it when the field is below 0x8000 |
| Measurement.GetHumidity | src/measurement.rs:85-97 | absent exactly when chars 10..14 are 0xFFFF; otherwise the 16-bit field |
| Measurement.GetPressure | src/measurement.rs:99-111 | absent exactly when chars 14..18 are 0xFFFF; otherwise (field + 50000) div 100 hPa, which lies in 500..1155 |
| Measurement.GetAcceleration | src/measurement.rs:113-136 | absent exactly when any one axis is 0x7FFF; otherwise each axis is `twos_complement(field, 16)` and lies in [-32768, 32767] |
| Measurement.GetPowerInfo | src/measurement.rs:138-159 | battery present exactly when p >> 5 ≠ 0x7FF, and then (p >> 5) + 1600 mV, within 1600..3646; tx power present exactly when p & 0x1F ≠ 0x1F, and then its byte read as signed is 2 × (p & 0x1F) − 40 dBm |
| Measurement.TxPowerByte | src/measurement.rs:144-155 | the u16 tx value wrapped and cast to u8 is the two's-complement byte of 2 × low − 40 |
| Measurement.GetMovementCounter | src/measurement.rs:161-164 | the byte at chars 34..36; the `& 0xFF` changes nothing |
| Measurement.GetMeasurementSequenceNumber | src/measurement.rs:166-170 | the big-endian u16 at chars 36..40 |
| Measurement.UpperDigit | src/measurement.rs:175 | the digit printed for a nibble is 0-9 or upper-case A-F, a hex digit of that value, never ':' |
| Measurement.UpperHex | src/measurement.rs:175 | `format!("{:X}", b)` is one or two digits, each 0-9 or upper-case A-F, without ':'; two exactly when b ≥ 16; and it reads back as b |
| Measurement.HexBytes | src/measurement.rs:174 | `hex::decode` of 2n digits gives n bytes |
| Measurement.HexBytesAt | src/measurement.rs:174 | byte k of `hex::decode(s)` is the value of digits 2k and 2k+1 |
| Measurement.HexBytesCons | src/measurement.rs:174 | `hex::decode` reads the first two digits as the first byte and decodes the rest the same way |
| Measurement.HexBytesOne | src/measurement.rs:174 | two digits decode to exactly one byte, their value |
| Measurement.GetMac | src/measurement.rs:172-182 | the two loops build exactly `MacText(data, rest)`: the hex of the byte at chars 40..42, then ":" and the hex of each byte from char `rest` on (`rest` = 44 in the source) |
| Measurement.PushSegments | src/measurement.rs:174-180 | one `for x in …` loop of `get_mac`: the text afterwards is the text before followed by the separator and hex of each byte, in order |
| Measurement.SegmentsStep | src/measurement.rs:178-180 | one more byte appends its separator and its hex to the text |
| Measurement.SegmentsPush | src/measurement.rs:178-180 | one turn of the second loop appends ":" and the byte's hex to the text built so far |
| Measurement.SegmentsColons | src/measurement.rs:175-180 | each byte contributes exactly one copy of its separator, and the hex digits contribute no ':' |
| Measurement.SegmentsChars | src/measurement.rs:174-180 | the loops print nothing but ':' and upper-case hex digits |
| Measurement.MacTextChars | src/measurement.rs:172-182 | the whole MAC text consists of upper-case hex digits and ':' only |
| Measurement.MacColons | src/measurement.rs:172-182 | the MAC text holds one ':' per byte from char `rest` on |
| Measurement.MacSkipsChars42To44 | src/measurement.rs:178 | as written, two strings that differ only in chars 42..44 give the same MAC |
| Measurement.MacBytesSingle | src/measurement.rs:174-176 | a text without ':' (the first loop's output) reads back as the single byte it denotes |
| Measurement.MacBytesSnoc | src/measurement.rs:178-180 | text after the last ':' reads back as the last byte, after the bytes of what precedes it |
| Measurement.MacBytesAppend | src/measurement.rs:178-180 | appending ":"-separated bytes to any text appends exactly those bytes to what it reads back as |
| Measurement.MacBytesRoundTrip | src/measurement.rs:172-182 | reading the text of one leading byte and any tail back gives those bytes |
| Measurement.MacRoundTrip | src/measurement.rs:172-182 | the unpadded MAC text still determines the bytes: reading it back gives the byte at chars 40..42 followed by every byte from `rest` on |
| Measurement.MacIntendedRoundTrip | src/measurement.rs:178 | with the rest read from char 42, reading the MAC text back gives `hex::decode` of all of chars 40.. |
| Measurement.MacFieldBytes | src/measurement.rs:174-178 | `hex::decode` of chars 40.. is the byte at 40..42 followed by the bytes from 42 on, so a loop from 42 misses nothing |
| Measurement.MacDropsSecondByte | src/measurement.rs:178 | on the format's test vector (MAC CB:B8:33:4C:88:4F) the as-written text reads back as CB,33,4C,88,4F; read from char 42 it gives all six bytes |
| Measurement.TestVectorMacAsWritten | src/measurement.rs:178 | on the example, the MAC text as written reads back as CB,33,4C,88,4F |
| Measurement.TestVectorMacIntended | src/measurement.rs:174-180 | on the example, the MAC text read from char 42 reads back as CB,B8,33,4C,88,4F |
| Measurement.FromStr | src/measurement.rs:36-64 | the format byte's u8 parse is the only error and its error is returned unchanged; on success `dataFormat` is the value of that parse (a leading '+' included), and a hex format byte always succeeds; every field holds its reading (`HoldsFields`), an absent battery voltage or tx power being 0. With `asWritten` the MAC text is built from char 44 and a temperature field ≥ 0x8000 is excluded (the source aborts); otherwise the MAC is built from char 42 and negative temperatures decode |
| Measurement.DecodersAgreeBesideMac | src/measurement.rs:36-64 | on a string both decoders accept, the as-written and the corrected `from_str` give the same readings in every field but the MAC, which is `MacText(s, 44)` against `MacText(s, 42)` |
| Measurement.PressureDetermined | src/measurement.rs:99-111 | the whole-hPa pressure is determined by the field: at most one value lies within 100 Pa below it |
| Measurement.TxPowerDetermined | src/measurement.rs:155 | the tx power byte is determined by its signed reading |
| Measurement.DecodableRanges | src/measurement.rs:36-64 | a string `from_str` can decode has hex digits at every offset each getter reads, and whole MAC bytes from the second loop's start on |
| Measurement.Hex2 | src/measurement.rs:174 | a two-digit string is 16 × its first digit + its second |
| Measurement.Hex4At | src/measurement.rs:92-95 | a four-digit field read digit by digit |
| Measurement.HexByteAt | src/measurement.rs:174 | the byte at chars i..i+2 read digit by digit |
| Measurement.HexBytesFrom | src/measurement.rs:178 | byte k of `hex::decode(&data[rest..])` is the byte at chars rest+2k..rest+2k+2 |
| Measurement.TestVectorDigits | src/measurement.rs:69 | the format's valid-data example, with the 0x0499 identifier in front, is 52 hex digits |
| Measurement.TestVectorClimate | src/measurement.rs:71-111 | the example decodes to temperature 4860 (24.3 °C), humidity 21396 (53.49 %) and 1000 hPa (100044 Pa) |
| Measurement.TestVectorMotion | src/measurement.rs:113-164 | the example decodes to acceleration (4, -4, 1036) and movement counter 66 |
| Measurement.TestVectorPower | src/measurement.rs:138-170 | the example decodes to 2977 mV, +4 dBm and sequence number 205 |
| Measurement.TestVectorDecodable | src/measurement.rs:36-64 | the example passes every check of `from_str`, as written and corrected |
| Measurement.TestVectorDecodes | src/measurement.rs:36-64 | on the example both decoders give temperature 4860; the as-written MAC reads back as CB,33,4C,88,4F and the corrected one as CB,B8,33,4C,88,4F |
| Measurement.TestVectorMacBytes | src/measurement.rs:172-182 | the example's MAC bytes, from char 40, 42 and 44 |
| Measurement.TestVectorMacFirst | src/measurement.rs:174 | the example's MAC byte at chars 40..42 is CB |
| Measurement.TestVectorMacTail | src/measurement.rs:178 | the example's bytes from char 44 on are 33,4C,88,4F |
| Ruuvitag.ManufacturerId | src/ruuvitag.rs:175 | the little-endian identifier: its low byte is data[0] and its high byte data[1], with no overflow |
| Ruuvitag.IsRuuviTag | src/ruuvitag.rs:174-177 | true exactly when data[0] = 0x99 and data[1] = 0x04 |
| Ruuvitag.FromManufacturerData | src/ruuvitag.rs:179-186 | at most two bytes give `EmptyValue`; longer data goes to the parser with id data[0] + 256·data[1] and payload data[2..], unchanged |
| Ruuvitag.ShortDataIsEmpty | src/ruuvitag.rs:179-186 | for data of at most two bytes the result is `EmptyValue` whatever the parser, so whatever the identifier |
| Ruuvitag.SensorValuesFrom | src/ruuvitag.rs:76-100 | every reading the library reports is copied; every absent one becomes 0, and an absent acceleration vector (0,0,0) |
| Ruuvitag.AbsentReadsAsZero | src/ruuvitag.rs:83-85 | an absent temperature and a temperature of 0 give the same readings |
| Ruuvitag.NormalizedFrom | src/ruuvitag.rs:130-144 | temperature ÷ 1000, humidity ÷ 10000, battery ÷ 1000; pressure is pressure div 100; acceleration, movement counter and sequence number copied unchanged |
| Ruuvitag.NormalizedLosesOnlyPressureDigits | src/ruuvitag.rs:130-144 | two readings with the same normalized form agree on every field except the last two digits of the pressure |
| Ruuvitag.NewTag | src/ruuvitag.rs:41-48 | the parse error is passed on unchanged; on success the tag keeps the given address, has time `now` and holds the Raw readings of what the parser returned |
| Ruuvitag.NewTagRejectsShortData | src/ruuvitag.rs:41-42 | data of at most two bytes gives `EmptyValue` for every parser |
| Ruuvitag.NormalizeSensorValues | src/ruuvitag.rs:50-61 | the result is Normalized; Raw readings are converted by `NormalizedFrom`; a Normalized tag is returned unchanged; address and time never change |
| Ruuvitag.NormalizeIdempotent | src/ruuvitag.rs:50-61 | normalizing twice equals normalizing once |
| Controller.Forwarded | src/controller.rs:39-49 | collect forwards no more tags than it reads events, and each forwarded tag's address is on the allow-list |
| Controller.FindLines | src/controller.rs:52-60 | find prints at most one line per event, and each line is a `Found RuuviTag` line |
| Controller.Discoveries | src/controller.rs:56 | the positions of the discovery events, strictly increasing, each a discovery, and every discovery among them |
| Controller.ShowLines | src/controller.rs:62-69 | show prints exactly one line per event, line i being event i's tag |
| Controller.ForwardedAppend | src/controller.rs:39-49 | forwarding is order-preserving: the forwarded tags of `a + b` are those of `a` followed by those of `b` |
| Controller.ForwardedStep | src/controller.rs:41-47 | handling one more event forwards its tag exactly when it is an update whose address is on the allow-list |
| Controller.ForwardedPrefix | src/controller.rs:39-49 | what a prefix of the stream forwards is a prefix of what the whole stream forwards |
| Controller.ForwardedMembership | src/controller.rs:41-46 | a tag is forwarded exactly when some event is an update of it and its address is on the allow-list |
| Controller.EmptyAllowListForwardsNothing | src/controller.rs:43 | with an empty allow-list nothing is forwarded |
| Controller.DiscoveredNeverForwarded | src/controller.rs:47 | a discovery event adds nothing to what collect forwards |
| Controller.FindLinesMembership | src/controller.rs:56 | find prints `Found RuuviTag: m` exactly when some discovered tag has address m |
| Controller.FindLinesAppend | src/controller.rs:52-60 | find on a stream in two parts prints the lines of each part, in order |
| Controller.FindPrintsEachDiscovery | src/controller.rs:56 | each discovery, a repeated one included, prints one more `Found RuuviTag` line after all earlier ones |
| Controller.FindLinesAreDiscoveries | src/controller.rs:52-60 | find prints exactly one line per discovery: line k is the address of the k-th discovered tag |
| Controller.FindIgnoresUpdates | src/controller.rs:56-66 | an update adds no line in find and exactly one line in show |
| Controller.TagSender.Send | src/controller.rs:44 | a send succeeds exactly while the database thread is alive, and then appends the tag; otherwise nothing is sent; the thread may end before any send and never comes back |
| Controller.Console.PrintLine | src/controller.rs:56 | a printed line is appended to standard output |
| Controller.Controller.constructor | src/controller.rs:15-18 | the new controller's channel holds the events still to be received |
| Controller.Controller.Collect | src/controller.rs:20-50 | collect drains the channel; the database receives `Forwarded` of a prefix of the events, in order: all of them when its thread is still alive at the end, none when it was gone from the start; failed sends do not stop the loop |
| Controller.Controller.Find | src/controller.rs:52-60 | find drains the channel and prints exactly `FindLines(events)` |
| Controller.Controller.Show | src/controller.rs:62-69 | show drains the channel and prints exactly `ShowLines(events)` |

## Left out

- The f64 scaling and `round::ceil` of temperature (÷ 200), humidity (÷ 400) and battery voltage.
  The decoder keeps the integer raw units: 0.005 °C, 1/400 %, whole mV.
  `Ruuvitag.NormalizedFrom` uses exact reals, not f64 rounding.
- Measurement.TwosComplement: defined for 1 ≤ bits ≤ 16 and 0 ≤ val < 2^31 only. Every caller
  passes a non-negative value of 16 bits or fewer. The bit test is written as division, which agrees
  with `&` on such values.
- Measurement.GetPowerInfo: models the u16 wrap-around of a release build. In a debug build,
  `(p & 0x1F) * 2 - 40` at src/measurement.rs:144 overflows and panics for low bits below 20.
- Measurement.FromStrRadix16: the order in which Rust reports `InvalidDigit` and `PosOverflow` for
  text that is both too long and malformed is not modelled.
- Measurement.FromStrRadix16: the leading '-' that the i16 parse accepts is not modelled. Every
  parsed field is required to be hex digits, so the sign never occurs.
- The `unwrap` panics on short or non-hex text are preconditions (`HexRange`, `MacDigits`,
  `Decodable`). So is `from_str`'s abort on a sentinel temperature, humidity, pressure or axis.
  Rust's panic on slicing inside a multi-byte character is not modelled: the text is a sequence of
  characters.
- Measurement.FromStr: in its as-written mode the abort on a temperature field ≥ 0x8000 is a
  precondition, like every other panic; `Measurement.NegativeTemperaturePanics` exhibits it. See
  Findings.
- Measurement.UpperHex: `format!("{:X}")` is unpadded, so a byte below 16 prints as one digit. This
  is modelled as written. `Measurement.MacRoundTrip` shows the bytes can still be read back.
- The internals of `ruuvi_sensor_protocol` are not part of this model. The parser is a function
  parameter, its getters are the optional fields of `LibraryReadings`, and its errors other than
  `EmptyValue` are collapsed into `LibraryError`.
- `Utc::now()` is the `now` parameter of `NewTag`.
- `Display`, `colored` output, serde's `BDAddrDef` and `BDAddr::from_str` are formatting and
  parsing outside the core.
- `thread::spawn`, the tokio runtime, the InfluxDB client and the `mpsc` channel are concurrency
  and I/O. The channel is the finite `receiver` sequence, and each mode stops when it is empty. The
  source loops forever and panics on `recv()` once every sender is gone. The moment the database
  thread ends is a nondeterministic choice inside `Controller.TagSender.Send`; what that thread does
  with the tags it receives is not modelled.
- src/ble.rs, src/influx.rs and src/bin/cli.rs are radio, database and argument-parsing I/O and are
  not part of this model.

## Expected behaviour versus code

On these points a reader of the tool's purpose might expect one behaviour while the code does
another; the model follows the code.

- **Empty allow-list.** One might expect an empty allow-list to pass every address. The code's
  `ruuvitags_macs.contains` forwards nothing (src/controller.rs:43). See
  `Controller.EmptyAllowListForwardsNothing`.
- **Absent versus zero.** One might expect a "not transmitted" pattern never to turn into zero. The
  code's `unwrap_or_default` turns absent readings into 0:
  - the battery voltage and tx power in `from_str` (src/measurement.rs:44-45);
  - every library reading in `SensorValues::from` (src/ruuvitag.rs:76-100).

  See `Ruuvitag.AbsentReadsAsZero`.
- **Panics.** One might expect a decoder of radio data never to abort. The code `unwrap`s every
  parse. Those panics are preconditions here.
- **Length check before identifier check.** One might expect the manufacturer identifier to be
  checked first. The code rejects data of two bytes or fewer with `EmptyValue` whatever its
  identifier (src/ruuvitag.rs:180-184). See `Ruuvitag.ShortDataIsEmpty`.

## Findings

| source | as written | input that shows it | evidently intended | confidence | as-written member | corrected member |
|---|---|---|---|---|---|---|
| src/measurement.rs:72 | chars 6..10 are parsed with `i16::from_str_radix`, which rejects every field ≥ 0x8000, so the `unwrap` aborts on every negative temperature | "990405FF38" (field 0xFF38, -1.00 °C) | parse as u16 and let `twos_complement(_, 16)` give the sign, as the acceleration getter does | high; not executed | Measurement.NegativeTemperaturePanics | Measurement.GetTemperature |
| src/measurement.rs:178 | the second loop decodes from char 44, so the MAC's second byte (chars 42..44) never appears in the MAC text | the format's valid-data example with identifier 9904: MAC CB:B8:33:4C:88:4F comes out as CB:33:4C:88:4F | decode every MAC byte from char 42 on | medium; not executed | Measurement.MacDropsSecondByte | Measurement.MacIntendedRoundTrip |
