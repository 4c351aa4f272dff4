/**
 * Model of src/measurement.rs: the decoder of Ruuvi "data format 5" (RAWv2)
 * advertisements, given as the hex text of the manufacturer data.
 *
 * Layout of the hex string (character offsets):
 *   0..4 manufacturer id, 4..6 data format, 6..10 temperature, 10..14 humidity,
 *   14..18 pressure, 18..30 acceleration x/y/z, 30..34 power info,
 *   34..36 movement counter, 36..40 measurement sequence number, 40.. MAC.
 *
 * Every `unwrap` of the source that would abort on a short or non-hex string is
 * a precondition here (`HexRange`, lengths). The f64 scaling of temperature and
 * humidity is not modelled: those fields keep their integer raw value.
 */
module Measurement {
  import opened Wrappers
  import opened MachineInts

  // ---------------------------------------------------------------------------
  // Hex digits and hex strings
  // ---------------------------------------------------------------------------

  /** A digit accepted by Rust's `from_str_radix(_, 16)` and by `hex::decode`. */
  predicate IsHexDigit(c: char) {
    '0' <= c <= '9' || 'a' <= c <= 'f' || 'A' <= c <= 'F'
  }

  function DigitValue(c: char): (d: nat)
    requires IsHexDigit(c)
    ensures d < 16
  {
    if '0' <= c <= '9' then c as int - '0' as int
    else if 'a' <= c <= 'f' then c as int - 'a' as int + 10
    else c as int - 'A' as int + 10
  }

  /** A digit `format!("{:X}", _)` prints: 0-9 or upper-case A-F. */
  predicate IsUpperHexDigit(c: char) {
    '0' <= c <= '9' || 'A' <= c <= 'F'
  }

  predicate AllHex(s: seq<char>) {
    forall i | 0 <= i < |s| :: IsHexDigit(s[i])
  }

  /** Characters `lo..hi` of `data` exist and are all hex digits. */
  predicate HexRange(data: string, lo: nat, hi: nat) {
    lo <= hi <= |data| && forall i | lo <= i < hi :: IsHexDigit(data[i])
  }

  function Pow16(n: nat): (r: nat)
    ensures r >= 1
  {
    if n == 0 then 1 else 16 * Pow16(n - 1)
  }

  /** The number a string of hex digits denotes, most significant digit first. */
  function HexValue(s: seq<char>): (v: nat)
    requires AllHex(s)
    ensures v < Pow16(|s|)
    decreases |s|
  {
    if s == [] then 0 else HexValue(s[..|s| - 1]) * 16 + DigitValue(s[|s| - 1])
  }

  /** One more digit shifts the value by one place and adds the digit. */
  lemma HexValueSnoc(s: seq<char>, c: char)
    requires AllHex(s) && IsHexDigit(c)
    ensures AllHex(s + [c]) && HexValue(s + [c]) == HexValue(s) * 16 + DigitValue(c)
  {
    assert (s + [c])[..|s|] == s;
  }

  /** Reading the digits of `a` followed by those of `b` is big-endian positional notation. */
  lemma {:induction false} HexValueAppend(a: seq<char>, b: seq<char>)
    requires AllHex(a) && AllHex(b)
    ensures AllHex(a + b)
    ensures HexValue(a + b) == HexValue(a) * Pow16(|b|) + HexValue(b)
    decreases |b|
  {
    if b == [] {
      assert a + b == a;
    } else {
      var b', c := b[..|b| - 1], b[|b| - 1];
      assert b == b' + [c] && a + b == (a + b') + [c];
      assert AllHex(b');
      HexValueAppend(a, b');
      HexValueSnoc(a + b', c);
      HexValueSnoc(b', c);
      ShiftArith(HexValue(a), Pow16(|b'|), HexValue(b'), DigitValue(c));
    }
  }

  lemma ShiftArith(x: int, p: int, y: int, d: int)
    ensures (x * p + y) * 16 + d == x * (16 * p) + (y * 16 + d)
  {
  }

  /**
   * A four-digit field is its first byte times 256 plus its second byte: the
   * value the source rebuilds from the two two-digit halves.
   */
  lemma HexField16(data: string, i: nat)
    requires HexRange(data, i, i + 4)
    ensures AllHex(data[i..i + 4]) && AllHex(data[i..i + 2]) && AllHex(data[i + 2..i + 4])
    ensures HexValue(data[i..i + 4]) == 256 * HexValue(data[i..i + 2]) + HexValue(data[i + 2..i + 4])
  {
    assert data[i..i + 4] == data[i..i + 2] + data[i + 2..i + 4];
    HexValueAppend(data[i..i + 2], data[i + 2..i + 4]);
    assert Pow16(2) == 256;
  }

  // ---------------------------------------------------------------------------
  // Rust's `from_str_radix(_, 16)`
  // ---------------------------------------------------------------------------

  /** The kinds of `ParseIntError` a non-negative hex parse can report. */
  datatype IntErrorKind = Empty | InvalidDigit | PosOverflow

  /**
   * `from_str_radix(s, 16)` for a type whose largest value is `max`: an
   * optional leading '+', then at least one hex digit, and a value that fits.
   */
  function FromStrRadix16(s: string, max: nat): (r: Result<nat, IntErrorKind>)
    ensures r.Ok? ==> r.value <= max
    ensures |s| > 0 && AllHex(s) ==>
              r == if HexValue(s) <= max then Ok(HexValue(s)) else Err(PosOverflow)
    ensures s == [] ==> r == Err(Empty)
    ensures s != [] && s[0] != '+' && !AllHex(s) ==> r == Err(InvalidDigit)
  {
    if s == [] then Err(Empty)
    else
      var digits := if s[0] == '+' then s[1..] else s;
      if digits == [] || !AllHex(digits) then Err(InvalidDigit)
      else if HexValue(digits) > max then Err(PosOverflow)
      else Ok(HexValue(digits))
  }

  // ---------------------------------------------------------------------------
  // Integer helpers: twos_complement, rshift and the byte recombination
  // ---------------------------------------------------------------------------

  function Pow2(n: nat): (r: nat)
    ensures r >= 1
  {
    if n == 0 then 1 else 2 * Pow2(n - 1)
  }

  /**
   * `twos_complement(val, bits)`: when bit `bits - 1` of `val` is set, subtract
   * 2^bits. The bit test `val & (1 << (bits - 1)) != 0` is written as division,
   * which is the same for the non-negative values every caller passes.
   */
  function TwosComplement(val: int, bits: nat): (r: int)
    requires 1 <= bits <= 16 && 0 <= val < 0x8000_0000
    ensures r == val || r == val - Pow2(bits)
  {
    if (val / Pow2(bits - 1)) % 2 == 1 then val - Pow2(bits) else val
  }

  /**
   * On a `bits`-wide unsigned value, `TwosComplement` is the signed reading of
   * the same bit pattern: in range, congruent to the input, and the identity
   * exactly when the sign bit is clear.
   */
  lemma TwosComplementSigned(val: int, bits: nat)
    requires 1 <= bits <= 16 && 0 <= val < Pow2(bits)
    ensures val < 0x8000_0000
    ensures -(Pow2(bits - 1) as int) <= TwosComplement(val, bits) < Pow2(bits - 1)
    ensures (TwosComplement(val, bits) - val) % Pow2(bits) == 0
    ensures TwosComplement(val, bits) == val <==> val < Pow2(bits - 1)
  {
    var half := Pow2(bits - 1);
    assert Pow2(bits) == 2 * half;
    Pow2Monotone(bits, 16);
    Pow2Values();
    if val < half {
      DivSmall(val, half);
      assert TwosComplement(val, bits) == val;
    } else {
      DivShift(val - half, half);
      assert val / half == 1;
      assert TwosComplement(val, bits) == val - Pow2(bits);
      NegModSelf(Pow2(bits));
    }
  }

  lemma {:induction false} Pow2Monotone(m: nat, n: nat)
    requires m <= n
    ensures Pow2(m) <= Pow2(n)
    decreases n
  {
    if m < n {
      Pow2Monotone(m, n - 1);
    }
  }

  lemma Pow2Values()
    ensures Pow2(5) == 32 && Pow2(7) == 0x80 && Pow2(8) == 0x100
    ensures Pow2(15) == 0x8000 && Pow2(16) == 0x1_0000
  {
  }

  lemma DivSmall(x: int, d: int)
    requires 0 <= x < d
    ensures x / d == 0
  {
  }

  lemma DivShift(x: int, d: int)
    requires 0 <= x < d
    ensures (d + x) / d == 1
  {
  }

  lemma NegModSelf(d: int)
    requires d > 0
    ensures (-d) % d == 0
  {
  }

  lemma DivBounds(x: int, d: int)
    requires 0 <= x && 1 <= d
    ensures 0 <= x / d <= x
  {
  }

  lemma TwosComplementExamples()
    ensures TwosComplement(0x7FFF, 16) == 32767
    ensures TwosComplement(0x8000, 16) == -32768
    ensures TwosComplement(0xFF, 8) == -1
    ensures TwosComplement(0x7F, 8) == 127
  {
    assert Pow2(15) == 0x8000 && Pow2(16) == 0x1_0000;
    assert Pow2(7) == 0x80 && Pow2(8) == 0x100;
  }

  /**
   * `rshift(val, n)`: `(val as u64 % 0x100000000) >> n`. The modulus never
   * changes a u16, so the result is `val` divided by 2^n.
   */
  function RShift(val: U16, n: nat): (r: nat)
    requires n < 64
    ensures r == val / Pow2(n)
  {
    var wide := val % 0x1_0000_0000;
    assert wide == val;
    DivBounds(wide, Pow2(n));
    wide / Pow2(n)
  }

  /**
   * `(hi & 0xFF) << 8 | lo & 0xFF` on u16 values that each came from two hex
   * digits: both are below 256, so the masks keep them unchanged; shifting
   * left by 8 is `* 256`, and the or of the disjoint bit ranges is their sum.
   * The result is the big-endian u16 whose high byte is `hi` and low byte `lo`.
   */
  function CombineBytes(hi: nat, lo: nat): (r: U16)
    requires hi < 256 && lo < 256
    ensures r / 256 == hi && r % 256 == lo
  {
    hi * 0x100 + lo
  }

  /**
   * The bit operations of the rebuild, on u16 values below 256, compute the
   * same number as `CombineBytes`.
   */
  lemma CombineBytesBitwise(hi: bv16, lo: bv16)
    requires hi < 256 && lo < 256
    ensures (((hi & 0xFF) << 8) | (lo & 0xFF)) as int == CombineBytes(hi as int, lo as int)
  {
  }

  /** The value of the four-digit field at `i`, as the source rebuilds it from its two bytes. */
  function Field16(data: string, i: nat): (r: U16)
    requires HexRange(data, i, i + 4)
    ensures AllHex(data[i..i + 4]) && r == HexValue(data[i..i + 4])
  {
    HexField16(data, i);
    CombineBytes(HexValue(data[i..i + 2]), HexValue(data[i + 2..i + 4]))
  }

  /** The value of the four-digit field at `i`, as one u16 parse reads it. */
  function Raw16(data: string, i: nat): (r: U16)
    requires HexRange(data, i, i + 4)
  {
    assert AllHex(data[i..i + 4]);
    assert Pow16(4) == 0x1_0000;
    HexValue(data[i..i + 4])
  }

  /** The four-digit field at `i` read as a two's-complement i16. */
  function SignedField(data: string, i: nat): (r: I16)
    requires HexRange(data, i, i + 4)
    ensures r == TwosComplement(Raw16(data, i), 16)
    ensures (r - Raw16(data, i)) % 0x1_0000 == 0
    ensures r == Raw16(data, i) <==> Raw16(data, i) < 0x8000
  {
    var combined := Field16(data, i);
    Pow2Values();
    TwosComplementSigned(combined, 16);
    TwosComplement(combined, 16)
  }

  /** `Raw16` is what `u16::from_str_radix` returns for the four digits: they always fit. */
  lemma Raw16Parse(data: string, i: nat)
    requires HexRange(data, i, i + 4)
    ensures FromStrRadix16(data[i..i + 4], 0xFFFF) == Ok(Raw16(data, i))
  {
    assert AllHex(data[i..i + 4]);
  }

  // ---------------------------------------------------------------------------
  // Field getters
  // ---------------------------------------------------------------------------

  /**
   * `get_temperature` as written: chars 6..10 are parsed as an i16, so a field
   * of 0x8000 or more (every negative temperature) fails that parse and the
   * source's `unwrap` panics; that outcome is `Err` here. The sign conversion
   * is then applied to a value below 0x8000, where it changes nothing.
   * The temperature is kept in its raw unit of 0.005 degrees Celsius.
   */
  function GetTemperatureAsWritten(data: string): (r: Result<Option<int>, IntErrorKind>)
    requires HexRange(data, 6, 10)
    ensures r.Err? <==> Raw16(data, 6) >= 0x8000
    ensures r == Ok(None) <==> Raw16(data, 6) == 0x7FFF
    ensures r.Ok? && r.value.Some? ==> r.value.value == Raw16(data, 6) && 0 <= r.value.value < 0x7FFF
  {
    assert AllHex(data[6..10]);
    var parsed := FromStrRadix16(data[6..10], 0x7FFF);
    if parsed.Err? then Err(parsed.error)
    else if parsed.value == 0x7FFF then Ok(None)
    else
      HexField16(data, 6);
      // (temp_1 << 8) + temp_2 in i16: no overflow, as the whole field is below 0x8000
      var combined := HexValue(data[6..8]) * 0x100 + HexValue(data[8..10]);
      assert combined == parsed.value < 0x7FFF;
      Pow2Values();
      TwosComplementSigned(combined, 16);
      Ok(Some(TwosComplement(combined, 16)))
  }

  /** A field of -200 (-1.00 degrees Celsius): the source aborts where it should decode. */
  lemma NegativeTemperaturePanics()
    ensures HexRange("990405FF38", 6, 10)
    ensures GetTemperatureAsWritten("990405FF38") == Err(PosOverflow)
    ensures GetTemperature("990405FF38") == Some(-200)
  {
    var data := "990405FF38";
    assert data[6..10] == "FF38";
    assert data[6..8] == "FF" && data[8..10] == "38";
    assert HexValue("FF38") == 0xFF38 by {
      assert "FF38"[..3] == "FF3" && "FF3"[..2] == "FF" && "FF"[..1] == "F" && "F"[..0] == [];
    }
    Pow2Values();
    TwosComplementSigned(0xFF38, 16);
  }

  /**
   * `get_temperature` as evidently intended: the field is read as a u16 and
   * converted with `twos_complement`, so negative temperatures decode. 0x7FFF
   * is the "not transmitted" sentinel.
   */
  function GetTemperature(data: string): (r: Option<I16>)
    requires HexRange(data, 6, 10)
    ensures r.None? <==> Raw16(data, 6) == 0x7FFF
    ensures r.Some? ==> r.value == TwosComplement(Raw16(data, 6), 16)
    ensures r.Some? ==> (r.value - Raw16(data, 6)) % 0x1_0000 == 0
    ensures r.Some? && Raw16(data, 6) < 0x8000 ==> r.value == Raw16(data, 6)
  {
    if Raw16(data, 6) == 0x7FFF then None else Some(SignedField(data, 6))
  }

  /**
   * `get_humidity`: the u16 at chars 10..14, or absent for the sentinel
   * 0xFFFF. Kept in its raw unit of 1/400 percent relative humidity.
   */
  function GetHumidity(data: string): (r: Option<U16>)
    requires HexRange(data, 10, 14)
    ensures r.None? <==> Raw16(data, 10) == 0xFFFF
    ensures r.Some? ==> r.value == Raw16(data, 10) && r.value < 0xFFFF
  {
    if Raw16(data, 10) == 0xFFFF then None else Some(Field16(data, 10))
  }

  /**
   * `get_pressure`: the u16 at chars 14..18 plus 50000 Pa, in whole hPa,
   * or absent for 0xFFFF. The source divides by 100, rounds up to two
   * decimals with `round::ceil(_, 2)` and then truncates with `as u16`.
   * The quotient of a whole number of pascals by 100 already has at most two
   * decimals, so the rounding leaves it unchanged and the result is the
   * quotient rounded down.
   */
  function GetPressure(data: string): (r: Option<U16>)
    requires HexRange(data, 14, 18)
    ensures r.None? <==> Raw16(data, 14) == 0xFFFF
    ensures r.Some? ==> r.value * 100 <= Raw16(data, 14) + 50000 < r.value * 100 + 100
    ensures r.Some? ==> 500 <= r.value <= 1155
  {
    if Raw16(data, 14) == 0xFFFF then None
    else
      var pascals := Field16(data, 14) + 50000;
      Some(pascals / 100)
  }

  /**
   * `get_acceleration`: three signed 16-bit axes at chars 18..22, 22..26 and
   * 26..30; the whole vector is absent when any axis is 0x7FFF.
   */
  function GetAcceleration(data: string): (r: Option<(I32, I32, I32)>)
    requires HexRange(data, 18, 30)
    ensures r.None? <==> (Raw16(data, 18) == 0x7FFF || Raw16(data, 22) == 0x7FFF || Raw16(data, 26) == 0x7FFF)
    ensures r.Some? ==> (r.value.0 == TwosComplement(Raw16(data, 18), 16)
                      && r.value.1 == TwosComplement(Raw16(data, 22), 16)
                      && r.value.2 == TwosComplement(Raw16(data, 26), 16))
    ensures r.Some? ==> (-0x8000 <= r.value.0 < 0x8000 && -0x8000 <= r.value.1 < 0x8000
                      && -0x8000 <= r.value.2 < 0x8000)
  {
    if Raw16(data, 18) == 0x7FFF || Raw16(data, 22) == 0x7FFF || Raw16(data, 26) == 0x7FFF then None
    else
      Some((SignedField(data, 18), SignedField(data, 22), SignedField(data, 26)))
  }

  /**
   * `get_power_info`: the u16 at chars 30..34 packs the battery voltage in its
   * upper 11 bits (mV above 1600) and the transmit power in its lower 5 bits
   * (2 dBm steps above -40 dBm); all-ones marks either as absent.
   * The tx power is computed in u16 and cast to u8; with the wrap-around of a
   * release build that leaves the two's-complement byte of the dBm value.
   */
  method GetPowerInfo(data: string) returns (batteryVoltage: Option<nat>, txPower: Option<Byte>)
    requires HexRange(data, 30, 34)
    ensures batteryVoltage.Some? <==> Raw16(data, 30) / 32 != 0x7FF
    ensures batteryVoltage.Some? ==> batteryVoltage.value == Raw16(data, 30) / 32 + 1600
    ensures batteryVoltage.Some? ==> 1600 <= batteryVoltage.value <= 3646
    ensures txPower.Some? <==> Raw16(data, 30) % 32 != 0x1F
    ensures txPower.Some? ==> TwosComplement(txPower.value, 8) == 2 * (Raw16(data, 30) % 32) - 40
  {
    Pow2Values();
    var powerInfo := Field16(data, 30);
    var battery: int := RShift(powerInfo, 5) + 1600;
    // `& 0b11111` is `% 32`; u16 arithmetic wraps modulo 2^16
    var low: int := powerInfo % 32;
    var tx: int := (low * 2 - 40) % 0x1_0000;

    batteryVoltage := None;
    if RShift(powerInfo, 5) != 0x7FF {
      batteryVoltage := Some(battery);
    }

    txPower := None;
    if low != 0x1F {
      // `as u8` keeps the low byte
      var byte := tx % 0x100;
      TxPowerByte(low, byte);
      txPower := Some(byte);
    }
  }

  /** The low byte of the wrapped tx power is the two's-complement byte of `2 * low - 40`. */
  lemma TxPowerByte(low: int, b: Byte)
    requires 0 <= low < 31 && b == ((low * 2 - 40) % 0x1_0000) % 0x100
    ensures TwosComplement(b, 8) == 2 * low - 40
  {
    assert Pow2(7) == 0x80 && Pow2(8) == 0x100;
    TwosComplementSigned(b, 8);
    if low < 20 {
      assert b == low * 2 - 40 + 0x100;
    } else {
      assert b == low * 2 - 40;
    }
  }

  /** `get_movement_counter`: the byte at chars 34..36 (its `& 0xFF` changes nothing). */
  function GetMovementCounter(data: string): (r: Byte)
    requires HexRange(data, 34, 36)
    ensures AllHex(data[34..36]) && r == HexValue(data[34..36])
  {
    assert AllHex(data[34..36]);
    assert Pow16(2) == 256;
    HexValue(data[34..36]) % 0x100
  }

  /** `get_measurement_sequence_number`: the big-endian u16 at chars 36..40. */
  function GetMeasurementSequenceNumber(data: string): (r: U16)
    requires HexRange(data, 36, 40)
    ensures r == Raw16(data, 36)
  {
    Field16(data, 36)
  }

  // ---------------------------------------------------------------------------
  // MAC text
  // ---------------------------------------------------------------------------

  /** The upper-case digit `format!("{:X}", _)` prints for `d`. */
  function UpperDigit(d: nat): (c: char)
    requires d < 16
    ensures IsUpperHexDigit(c) && IsHexDigit(c) && DigitValue(c) == d && c != ':'
  {
    if d < 10 then ('0' as int + d) as char else ('A' as int + d - 10) as char
  }

  /** `format!("{:X}", b)` for a byte: upper-case hex without leading zeros. */
  function UpperHex(b: Byte): (s: string)
    ensures 1 <= |s| <= 2 && AllHex(s) && ':' !in s
    ensures forall i | 0 <= i < |s| :: IsUpperHexDigit(s[i])
    ensures HexValue(s) == b
    ensures |s| == 2 <==> b >= 16
  {
    if b < 16 then
      var s := [UpperDigit(b)];
      assert s[..0] == [];
      s
    else
      var s := [UpperDigit(b / 16), UpperDigit(b % 16)];
      assert s[..1] == [UpperDigit(b / 16)] && s[..1][..0] == [];
      s
  }

  /** `hex::decode`: every two hex digits become one byte. */
  function HexBytes(s: string): (r: seq<Byte>)
    requires |s| % 2 == 0 && AllHex(s)
    ensures |r| == |s| / 2
    decreases |s|
  {
    if s == [] then []
    else
      assert Pow16(2) == 256;
      [HexValue(s[..2])] + HexBytes(s[2..])
  }

  /** `hex::decode` takes the first two digits as the first byte. */
  lemma HexBytesCons(s: string)
    requires |s| >= 2 && |s| % 2 == 0 && AllHex(s)
    ensures AllHex(s[..2]) && HexBytes(s) == [HexValue(s[..2])] + HexBytes(s[2..])
  {
  }

  /** Two digits decode to one byte. */
  lemma HexBytesOne(s: string)
    requires |s| == 2 && AllHex(s)
    ensures HexBytes(s) == [HexValue(s)]
  {
    assert s[..2] == s && s[2..] == [];
    HexBytesCons(s);
  }

  /** Byte `k` of `hex::decode(s)` is the value of digits `2k` and `2k + 1`. */
  lemma {:induction false} HexBytesAt(s: string, k: nat)
    requires |s| % 2 == 0 && AllHex(s) && k < |s| / 2
    ensures AllHex(s[2 * k..2 * k + 2]) && HexBytes(s)[k] == HexValue(s[2 * k..2 * k + 2])
    decreases |s|
  {
    if k > 0 {
      HexBytesAt(s[2..], k - 1);
      assert s[2..][2 * (k - 1)..2 * (k - 1) + 2] == s[2 * k..2 * k + 2];
    }
  }

  /** What the source's loops append for `bytes`: each byte in hex, preceded by `sep`. */
  function Segments(bytes: seq<Byte>, sep: string): string
  {
    if bytes == [] then ""
    else Segments(bytes[..|bytes| - 1], sep) + sep + UpperHex(bytes[|bytes| - 1])
  }

  /**
   * `get_mac` can decode: chars 40..42 and everything from char `rest` on are
   * whole hex bytes. The source has `rest` = 44; the corrected decoder 42.
   */
  predicate MacDigits(data: string, rest: nat) {
    42 <= rest <= |data| && (|data| - rest) % 2 == 0 && HexRange(data, 40, 42) && HexRange(data, rest, |data|)
  }

  /** The MAC text: the byte at chars 40..42, then ":" and each byte from char `rest` on. */
  function MacText(data: string, rest: nat): string
    requires MacDigits(data, rest)
  {
    assert AllHex(data[40..42]) && AllHex(data[rest..]);
    Segments(HexBytes(data[40..42]), "") + Segments(HexBytes(data[rest..]), ":")
  }

  /**
   * `get_mac`: two loops pushing the hex of each decoded byte onto the text,
   * the second one over the bytes from char `rest` on (44 in the source).
   */
  method GetMac(data: string, rest: nat) returns (mac: string)
    requires MacDigits(data, rest)
    ensures mac == MacText(data, rest)
  {
    MacDigitsHex(data, rest);
    var head := HexBytes(data[40..42]);
    mac := PushSegments("", head, "");
    assert mac == Segments(head, "");
    var tail := HexBytes(data[rest..]);
    mac := PushSegments(mac, tail, ":");
  }

  lemma MacDigitsHex(data: string, rest: nat)
    requires MacDigits(data, rest)
    ensures AllHex(data[40..42]) && AllHex(data[rest..]) && |data[rest..]| % 2 == 0
  {
  }

  /** One `for x in bytes` loop of `get_mac`: push `sep` and the hex of each byte onto `text`. */
  method PushSegments(text: string, bytes: seq<Byte>, sep: string) returns (r: string)
    ensures r == text + Segments(bytes, sep)
  {
    r := text;
    for i := 0 to |bytes|
      invariant r == text + Segments(bytes[..i], sep)
    {
      SegmentsPush(text, bytes, i, sep);
      r := r + sep + UpperHex(bytes[i]);
    }
    assert bytes[..|bytes|] == bytes;
  }

  /** One turn of a loop of `get_mac`, stated on the text built so far. */
  lemma SegmentsPush(text: string, bytes: seq<Byte>, i: nat, sep: string)
    requires i < |bytes|
    ensures text + Segments(bytes[..i + 1], sep) == text + Segments(bytes[..i], sep) + sep + UpperHex(bytes[i])
  {
    SegmentsStep(bytes, i, sep);
  }

  lemma SegmentsStep(bytes: seq<Byte>, i: nat, sep: string)
    requires i < |bytes|
    ensures Segments(bytes[..i + 1], sep) == Segments(bytes[..i], sep) + sep + UpperHex(bytes[i])
  {
    assert bytes[..i + 1][..i] == bytes[..i];
  }

  /** Each byte contributes exactly one copy of `sep`, and the hex digits add no ':'. */
  lemma {:induction false} SegmentsColons(bytes: seq<Byte>, sep: string)
    requires sep == ":" || sep == ""
    ensures multiset(Segments(bytes, sep))[':'] == if sep == ":" then |bytes| else 0
    decreases |bytes|
  {
    if bytes != [] {
      var init := bytes[..|bytes| - 1];
      SegmentsColons(init, sep);
      var prev, u := Segments(init, sep), UpperHex(bytes[|bytes| - 1]);
      assert Segments(bytes, sep) == prev + sep + u;
      assert multiset(prev + sep + u) == multiset(prev) + multiset(sep) + multiset(u);
      assert multiset(u)[':'] == 0 by {
        assert ':' !in multiset(u);
      }
      assert multiset(sep)[':'] == if sep == ":" then 1 else 0;
    }
  }

  /** Text made only of ':' and the digits `{:X}` prints. */
  predicate MacChars(t: string) {
    forall i | 0 <= i < |t| :: t[i] == ':' || IsUpperHexDigit(t[i])
  }

  /** The loops print only ':' and upper-case hex digits. */
  lemma {:induction false} SegmentsChars(bytes: seq<Byte>, sep: string)
    requires sep == ":" || sep == ""
    ensures MacChars(Segments(bytes, sep))
    decreases |bytes|
  {
    if bytes != [] {
      var init := bytes[..|bytes| - 1];
      SegmentsChars(init, sep);
      var prev, u := Segments(init, sep), UpperHex(bytes[|bytes| - 1]);
      assert MacChars(prev + sep);
      assert Segments(bytes, sep) == (prev + sep) + u;
    }
  }

  /** The MAC text is upper-case hex digits and ':' only. */
  lemma MacTextChars(data: string, rest: nat)
    requires MacDigits(data, rest)
    ensures MacChars(MacText(data, rest))
  {
    MacDigitsHex(data, rest);
    var head, tail := HexBytes(data[40..42]), HexBytes(data[rest..]);
    SegmentsChars(head, "");
    SegmentsChars(tail, ":");
    assert MacText(data, rest) == Segments(head, "") + Segments(tail, ":");
  }

  /** The MAC text holds one ':' per byte from char `rest` on, however chars 42..`rest` read. */
  lemma MacColons(data: string, rest: nat)
    requires MacDigits(data, rest)
    ensures multiset(MacText(data, rest))[':'] == (|data| - rest) / 2
  {
    assert AllHex(data[40..42]) && AllHex(data[rest..]);
    var head, tail := HexBytes(data[40..42]), HexBytes(data[rest..]);
    SegmentsColons(head, "");
    SegmentsColons(tail, ":");
    assert multiset(MacText(data, rest)) == multiset(Segments(head, "")) + multiset(Segments(tail, ":"));
  }

  /** As written, chars 42..44 are skipped: two strings that differ only there give the same MAC. */
  lemma MacSkipsChars42To44(d1: string, d2: string)
    requires MacDigits(d1, 44) && MacDigits(d2, 44) && |d1| == |d2|
    requires forall i | 0 <= i < |d1| && (i < 42 || i >= 44) :: d1[i] == d2[i]
    ensures MacText(d1, 44) == MacText(d2, 44)
  {
    assert d1[40..42] == d2[40..42];
    assert d1[44..] == d2[44..];
  }

  /** Position of the last ':' in `s`, or -1 when there is none. */
  function LastColon(s: string): (k: int)
    ensures -1 <= k < |s|
    ensures k >= 0 ==> s[k] == ':'
    ensures forall j | k < j < |s| :: s[j] != ':'
  {
    if s == [] then -1
    else if s[|s| - 1] == ':' then |s| - 1
    else LastColon(s[..|s| - 1])
  }

  /**
   * Reads a MAC text back into bytes: the part after the last ':' is the last
   * byte, and what precedes it is read the same way. The inverse of `MacText`.
   */
  function MacBytes(mac: string): seq<nat>
    decreases |mac|
  {
    var k := LastColon(mac);
    if k < 0 then
      (if AllHex(mac) then [HexValue(mac)] else [])
    else if AllHex(mac[k + 1..]) then MacBytes(mac[..k]) + [HexValue(mac[k + 1..])]
    else []
  }

  lemma LastColonNone(s: string)
    requires ':' !in s
    ensures LastColon(s) == -1
  {
  }

  lemma LastColonAfter(prefix: string, u: string)
    requires ':' !in u
    ensures LastColon(prefix + [':'] + u) == |prefix|
  {
    var s := prefix + [':'] + u;
    var k := LastColon(s);
    assert s[|prefix|] == ':';
  }

  /** A text without ':' reads back as one byte. */
  lemma MacBytesSingle(u: string)
    requires ':' !in u && AllHex(u)
    ensures MacBytes(u) == [HexValue(u)]
  {
    LastColonNone(u);
  }

  /** The part after the last ':' is read as the last byte. */
  lemma MacBytesSnoc(prefix: string, u: string)
    requires ':' !in u && AllHex(u)
    ensures MacBytes(prefix + [':'] + u) == MacBytes(prefix) + [HexValue(u)]
  {
    var m := prefix + [':'] + u;
    LastColonAfter(prefix, u);
    assert m[..|prefix|] == prefix;
    assert m[|prefix| + 1..] == u;
  }

  lemma HeadText(head: seq<Byte>)
    requires |head| == 1
    ensures Segments(head, "") == UpperHex(head[0])
  {
    assert head[..0] == [];
  }

  /** One more ":"-separated byte at the end of a MAC text is read as one more byte. */
  lemma MacBytesPush(prefix: string, bytes: seq<Byte>, last: Byte)
    ensures MacBytes(prefix + Segments(bytes + [last], ":")) == MacBytes(prefix + Segments(bytes, ":")) + [last]
  {
    var u := UpperHex(last);
    var p := prefix + Segments(bytes, ":");
    assert (bytes + [last])[..|bytes|] == bytes;
    assert prefix + Segments(bytes + [last], ":") == p + [':'] + u;
    MacBytesSnoc(p, u);
  }

  /** Appending ":"-separated bytes to any text appends those bytes to what it reads back as. */
  lemma {:induction false} MacBytesAppend(h: string, tail: seq<Byte>)
    ensures MacBytes(h + Segments(tail, ":")) == MacBytes(h) + tail
    decreases |tail|
  {
    if tail == [] {
      assert h + Segments(tail, ":") == h;
    } else {
      var init, last := tail[..|tail| - 1], tail[|tail| - 1];
      assert tail == init + [last];
      MacBytesAppend(h, init);
      MacBytesPush(h, init, last);
    }
  }

  lemma MacBytesRoundTrip(head: seq<Byte>, tail: seq<Byte>)
    requires |head| == 1
    ensures MacBytes(Segments(head, "") + Segments(tail, ":")) == head + tail
  {
    var h := UpperHex(head[0]);
    HeadText(head);
    MacBytesAppend(h, tail);
    MacBytesSingle(h);
    assert head == [head[0]];
  }

  /**
   * The MAC text determines the decoded bytes: reading it back gives the byte
   * at chars 40..42 followed by every byte from char `rest` on.
   */
  lemma MacRoundTrip(data: string, rest: nat)
    requires MacDigits(data, rest)
    ensures AllHex(data[40..42]) && AllHex(data[rest..])
    ensures MacBytes(MacText(data, rest)) == HexBytes(data[40..42]) + HexBytes(data[rest..])
  {
    assert AllHex(data[40..42]) && AllHex(data[rest..]);
    MacBytesRoundTrip(HexBytes(data[40..42]), HexBytes(data[rest..]));
  }

  /**
   * With the rest of the MAC read from char 42, the text carries every byte of
   * the MAC field: reading it back gives `hex::decode` of all of chars 40.. .
   */
  lemma MacIntendedRoundTrip(data: string)
    requires MacDigits(data, 42)
    ensures AllHex(data[40..]) && MacBytes(MacText(data, 42)) == HexBytes(data[40..])
  {
    MacRoundTrip(data, 42);
    MacFieldBytes(data);
  }

  /** `hex::decode` of chars 40.. is the byte at 40..42 followed by the bytes from 42 on. */
  lemma MacFieldBytes(data: string)
    requires MacDigits(data, 42)
    ensures AllHex(data[40..]) && AllHex(data[40..42]) && AllHex(data[42..])
    ensures HexBytes(data[40..]) == HexBytes(data[40..42]) + HexBytes(data[42..])
  {
    var all := data[40..];
    assert all[..2] == data[40..42] && all[2..] == data[42..];
    assert AllHex(all);
    HexBytesCons(all);
    HexBytesOne(data[40..42]);
  }

  // ---------------------------------------------------------------------------
  // The decoded measurement: `RuuviMeasurement::from_str`
  // ---------------------------------------------------------------------------

  /**
   * `RuuviMeasurement`. Temperature and humidity keep their raw units
   * (0.005 degrees Celsius, 1/400 percent); pressure is in hPa, the battery
   * voltage in mV, the tx power the byte of a signed dBm value.
   */
  datatype RuuviMeasurement = RuuviMeasurement(
    dataFormat: Byte,
    temperature: I16,
    humidity: U16,
    pressure: U16,
    accelerationX: I32,
    accelerationY: I32,
    accelerationZ: I32,
    batteryVoltage: nat,
    txPower: Byte,
    movementCounter: Byte,
    sequenceNumber: U16,
    mac: string)

  /**
   * Where `get_mac`'s second loop starts: char 44 in the source as written,
   * char 42 in the corrected decoder (see Findings in the README).
   */
  function MacStart(asWritten: bool): nat
  {
    if asWritten then 44 else 42
  }

  /**
   * What `from_str` needs once the format byte has parsed, so that none of
   * its `unwrap`s aborts: chars 6..42 and the MAC bytes read by the second
   * loop are hex digits (chars 42..44 are not read as written), and
   * temperature, humidity, pressure and the three axes are present. As
   * written, the i16 temperature parse also needs a field below 0x8000.
   */
  predicate Decodable(s: string, asWritten: bool) {
    MacStart(asWritten) <= |s| && (|s| - MacStart(asWritten)) % 2 == 0
    && HexRange(s, 6, 42) && HexRange(s, MacStart(asWritten), |s|)
    && Raw16(s, 6) != 0x7FFF && Raw16(s, 10) != 0xFFFF && Raw16(s, 14) != 0xFFFF
    && Raw16(s, 18) != 0x7FFF && Raw16(s, 22) != 0x7FFF && Raw16(s, 26) != 0x7FFF
    && (asWritten ==> Raw16(s, 6) < 0x8000)
  }

  /** A decodable string has every field the getters read, and whole MAC bytes from the second loop's start on. */
  lemma DecodableRanges(s: string, asWritten: bool)
    requires Decodable(s, asWritten)
    ensures HexRange(s, 6, 10) && HexRange(s, 10, 14) && HexRange(s, 14, 18) && HexRange(s, 18, 30)
    ensures HexRange(s, 30, 34) && HexRange(s, 34, 36) && HexRange(s, 36, 40)
    ensures MacDigits(s, MacStart(asWritten))
  {
  }

  /**
   * `m` holds the readings of the fields of `s`: the signed temperature and
   * axes, the raw humidity, the pressure in whole hPa, the battery voltage or
   * 0 when absent, the tx power byte or 0 when absent, the two counters and
   * the MAC text built from the bytes at 40..42 and from `MacStart` on.
   */
  predicate HoldsFields(s: string, asWritten: bool, m: RuuviMeasurement)
    requires Decodable(s, asWritten)
  {
    assert MacDigits(s, MacStart(asWritten)) && AllHex(s[34..36]);
    var power := Raw16(s, 30);
    && m.temperature == TwosComplement(Raw16(s, 6), 16)
    && m.humidity == Raw16(s, 10)
    && m.pressure * 100 <= Raw16(s, 14) + 50000 < m.pressure * 100 + 100
    && m.accelerationX == TwosComplement(Raw16(s, 18), 16)
    && m.accelerationY == TwosComplement(Raw16(s, 22), 16)
    && m.accelerationZ == TwosComplement(Raw16(s, 26), 16)
    && m.batteryVoltage == (if power / 32 != 0x7FF then power / 32 + 1600 else 0)
    && (power % 32 != 0x1F ==> TwosComplement(m.txPower, 8) == 2 * (power % 32) - 40)
    && (power % 32 == 0x1F ==> m.txPower == 0)
    && m.movementCounter == HexValue(s[34..36])
    && m.sequenceNumber == Raw16(s, 36)
    && m.mac == MacText(s, MacStart(asWritten))
  }

  /**
   * `from_str`: the format byte at chars 4..6 is parsed as a u8, and a failure
   * of that parse is the only error; then every field is read, an absent
   * battery voltage or tx power becoming 0. With `asWritten` the temperature
   * and the MAC are read as the source does (`GetTemperatureAsWritten`,
   * `GetMac(_, 44)`); otherwise by the corrected decoders (`GetTemperature`,
   * `GetMac(_, 42)`).
   */
  method FromStr(hexString: string, asWritten: bool) returns (r: Result<RuuviMeasurement, IntErrorKind>)
    requires |hexString| >= 6
    requires FromStrRadix16(hexString[4..6], 0xFF).Ok? ==> Decodable(hexString, asWritten)
    ensures r.Err? <==> FromStrRadix16(hexString[4..6], 0xFF).Err?
    ensures r.Err? ==> r.error == FromStrRadix16(hexString[4..6], 0xFF).error
    ensures r.Ok? ==> r.value.dataFormat == FromStrRadix16(hexString[4..6], 0xFF).value
    ensures AllHex(hexString[4..6]) ==> r.Ok? && r.value.dataFormat == HexValue(hexString[4..6])
    ensures r.Ok? ==> Decodable(hexString, asWritten) && HoldsFields(hexString, asWritten, r.value)
  {
    assert Pow16(2) == 256;
    var dataFormat := FromStrRadix16(hexString[4..6], 0xFF);
    if dataFormat.Err? {
      return Err(dataFormat.error);
    }
    DecodableRanges(hexString, asWritten);
    var temperature: I16;
    if asWritten {
      temperature := GetTemperatureAsWritten(hexString).value.value;
      SignedFieldBelowSign(hexString, 6);
    } else {
      temperature := GetTemperature(hexString).value;
    }
    var humidity := GetHumidity(hexString).value;
    var pressure := GetPressure(hexString).value;
    var acceleration := GetAcceleration(hexString).value;
    var batteryVoltage, txPower := GetPowerInfo(hexString);
    var movementCounter := GetMovementCounter(hexString);
    var sequenceNumber := GetMeasurementSequenceNumber(hexString);
    var mac := GetMac(hexString, MacStart(asWritten));
    r := Ok(RuuviMeasurement(
      dataFormat.value, temperature, humidity, pressure,
      acceleration.0, acceleration.1, acceleration.2,
      batteryVoltage.GetOr(0), txPower.GetOr(0),
      movementCounter, sequenceNumber, mac));
  }

  /** Below the sign bit the i16 reading of a field is the field itself. */
  lemma SignedFieldBelowSign(data: string, i: nat)
    requires HexRange(data, i, i + 4) && Raw16(data, i) < 0x8000
    ensures TwosComplement(Raw16(data, i), 16) == Raw16(data, i)
  {
    var v := SignedField(data, i);
  }

  /** Whole hPa are determined by the pascals: at most one value lies within 100 Pa below them. */
  lemma PressureDetermined(pascals: int, a: int, b: int)
    requires a * 100 <= pascals < a * 100 + 100 && b * 100 <= pascals < b * 100 + 100
    ensures a == b
  {
  }

  /** Distinct bytes have distinct signed readings. */
  lemma TxPowerDetermined(a: Byte, b: Byte)
    requires TwosComplement(a, 8) == TwosComplement(b, 8)
    ensures a == b
  {
    Pow2Values();
    TwosComplementSigned(a, 8);
    TwosComplementSigned(b, 8);
    assert (a - b) % 256 == 0;
  }

  /**
   * Only the MAC tells the two decoders apart: on a string both accept, the
   * readings agree field by field and the MACs differ only in where the second
   * loop starts.
   */
  lemma DecodersAgreeBesideMac(s: string, written: RuuviMeasurement, corrected: RuuviMeasurement)
    requires Decodable(s, true) && Decodable(s, false)
    requires HoldsFields(s, true, written) && HoldsFields(s, false, corrected)
    requires written.dataFormat == corrected.dataFormat
    ensures written.(mac := corrected.mac) == corrected
    ensures MacDigits(s, 44) && MacDigits(s, 42)
    ensures written.mac == MacText(s, 44) && corrected.mac == MacText(s, 42)
  {
    var w, c := written, corrected;
    assert w.temperature == c.temperature && w.humidity == c.humidity;
    assert w.accelerationX == c.accelerationX && w.accelerationY == c.accelerationY;
    assert w.accelerationZ == c.accelerationZ && w.sequenceNumber == c.sequenceNumber;
    assert w.batteryVoltage == c.batteryVoltage && w.movementCounter == c.movementCounter;
    PressureDetermined(Raw16(s, 14) + 50000, w.pressure, c.pressure);
    TxPowerDetermined(w.txPower, c.txPower);
  }

  // ---------------------------------------------------------------------------
  // The valid-data test vector of the data format 5 documentation
  // ---------------------------------------------------------------------------

  /** Manufacturer id 0x0499, then the 24 bytes of the format's valid-data example. */
  const TestVector: string := "99040512FC5394C37C0004FFFC" + "040CAC364200CDCBB8334C884F"

  lemma Hex2(s: string)
    requires |s| == 2 && AllHex(s)
    ensures HexValue(s) == 16 * DigitValue(s[0]) + DigitValue(s[1])
  {
    assert s[..1][..0] == [];
  }

  /** A four-digit field read digit by digit. */
  lemma Hex4At(data: string, i: nat)
    requires HexRange(data, i, i + 4)
    ensures Raw16(data, i) == 4096 * DigitValue(data[i]) + 256 * DigitValue(data[i + 1])
                              + 16 * DigitValue(data[i + 2]) + DigitValue(data[i + 3])
  {
    HexField16(data, i);
    Hex2(data[i..i + 2]);
    Hex2(data[i + 2..i + 4]);
  }

  lemma TestVectorDigits()
    ensures |TestVector| == 52 && HexRange(TestVector, 0, 52)
  {
  }

  lemma TestVectorTemperatureField()
    ensures HexRange(TestVector, 6, 10) && Raw16(TestVector, 6) == 0x12FC
  {
    assert TestVector[6] == '1' && TestVector[7] == '2' && TestVector[8] == 'F' && TestVector[9] == 'C';
    Hex4At(TestVector, 6);
  }

  lemma TestVectorHumidityField()
    ensures HexRange(TestVector, 10, 14) && Raw16(TestVector, 10) == 0x5394
  {
    assert TestVector[10] == '5' && TestVector[11] == '3' && TestVector[12] == '9' && TestVector[13] == '4';
    Hex4At(TestVector, 10);
  }

  lemma TestVectorPressureField()
    ensures HexRange(TestVector, 14, 18) && Raw16(TestVector, 14) == 0xC37C
  {
    assert TestVector[14] == 'C' && TestVector[15] == '3' && TestVector[16] == '7' && TestVector[17] == 'C';
    Hex4At(TestVector, 14);
  }

  lemma TestVectorAccelerationXField()
    ensures HexRange(TestVector, 18, 22) && Raw16(TestVector, 18) == 0x0004
  {
    assert TestVector[18] == '0' && TestVector[19] == '0' && TestVector[20] == '0' && TestVector[21] == '4';
    Hex4At(TestVector, 18);
  }

  lemma TestVectorAccelerationYField()
    ensures HexRange(TestVector, 22, 26) && Raw16(TestVector, 22) == 0xFFFC
  {
    assert TestVector[22] == 'F' && TestVector[23] == 'F' && TestVector[24] == 'F' && TestVector[25] == 'C';
    Hex4At(TestVector, 22);
  }

  lemma TestVectorAccelerationZField()
    ensures HexRange(TestVector, 26, 30) && Raw16(TestVector, 26) == 0x040C
  {
    assert TestVector[26] == '0' && TestVector[27] == '4' && TestVector[28] == '0' && TestVector[29] == 'C';
    Hex4At(TestVector, 26);
  }

  lemma TestVectorPowerField()
    ensures HexRange(TestVector, 30, 34) && Raw16(TestVector, 30) == 0xAC36
  {
    assert TestVector[30] == 'A' && TestVector[31] == 'C' && TestVector[32] == '3' && TestVector[33] == '6';
    Hex4At(TestVector, 30);
  }

  lemma TestVectorSequenceField()
    ensures HexRange(TestVector, 36, 40) && Raw16(TestVector, 36) == 0x00CD
  {
    assert TestVector[36] == '0' && TestVector[37] == '0' && TestVector[38] == 'C' && TestVector[39] == 'D';
    Hex4At(TestVector, 36);
  }

  lemma TestVectorMovementField()
    ensures HexRange(TestVector, 34, 36) && AllHex(TestVector[34..36]) && HexValue(TestVector[34..36]) == 0x42
  {
    assert TestVector[34] == '4' && TestVector[35] == '2';
    HexByteAt(TestVector, 34);
  }

  /** Temperature 24.3 degrees Celsius, humidity 53.49 %, pressure 100044 Pa. */
  lemma TestVectorClimate()
    ensures HexRange(TestVector, 6, 18)
    ensures GetTemperature(TestVector) == Some(4860)
    ensures GetHumidity(TestVector) == Some(21396)
    ensures GetPressure(TestVector) == Some(1000)
  {
    TestVectorTemperatureField();
    TestVectorHumidityField();
    TestVectorPressureField();
  }

  /** Acceleration (4, -4, 1036) mG and movement counter 66. */
  lemma TestVectorMotion()
    ensures HexRange(TestVector, 18, 36)
    ensures GetAcceleration(TestVector) == Some((4, -4, 1036))
    ensures GetMovementCounter(TestVector) == 66
  {
    TestVectorAccelerationXField();
    TestVectorAccelerationYField();
    TestVectorAccelerationZField();
    TestVectorMovementField();
    Pow2Values();
  }

  /** Battery 2977 mV, tx power +4 dBm, sequence number 205. */
  lemma TestVectorPower()
    ensures HexRange(TestVector, 30, 40)
    ensures Raw16(TestVector, 30) / 32 + 1600 == 2977
    ensures Raw16(TestVector, 30) % 32 != 0x1F && 2 * (Raw16(TestVector, 30) % 32) - 40 == 4
    ensures GetMeasurementSequenceNumber(TestVector) == 205
  {
    TestVectorPowerField();
    TestVectorSequenceField();
  }

  /** The test vector passes every check of `from_str`. */
  lemma TestVectorDecodable()
    ensures Decodable(TestVector, false) && Decodable(TestVector, true)
  {
    TestVectorDigits();
    TestVectorTemperatureField();
    TestVectorHumidityField();
    TestVectorPressureField();
    TestVectorAccelerationXField();
    TestVectorAccelerationYField();
    TestVectorAccelerationZField();
  }

  /**
   * Both decoders on the example: the same temperature, 4860 (24.3 degrees
   * Celsius), but the MAC as written reads back without its second byte B8.
   */
  lemma TestVectorDecodes(written: RuuviMeasurement, corrected: RuuviMeasurement)
    requires Decodable(TestVector, true) && Decodable(TestVector, false)
    requires HoldsFields(TestVector, true, written) && HoldsFields(TestVector, false, corrected)
    ensures written.temperature == corrected.temperature == 4860
    ensures MacBytes(written.mac) == [0xCB, 0x33, 0x4C, 0x88, 0x4F]
    ensures MacBytes(corrected.mac) == [0xCB, 0xB8, 0x33, 0x4C, 0x88, 0x4F]
  {
    TestVectorTemperatureField();
    SignedFieldBelowSign(TestVector, 6);
    TestVectorMacAsWritten();
    TestVectorMacIntended();
  }

  /** The byte at chars `i..i + 2`, digit by digit. */
  lemma HexByteAt(data: string, i: nat)
    requires HexRange(data, i, i + 2)
    ensures AllHex(data[i..i + 2]) && HexValue(data[i..i + 2]) == 16 * DigitValue(data[i]) + DigitValue(data[i + 1])
  {
    Hex2(data[i..i + 2]);
  }

  /** Byte `k` of `hex::decode(&data[rest..])` is the byte at chars `rest + 2k..rest + 2k + 2`. */
  lemma HexBytesFrom(data: string, rest: nat, k: nat)
    requires rest <= |data| && (|data| - rest) % 2 == 0 && HexRange(data, rest, |data|) && k < (|data| - rest) / 2
    ensures AllHex(data[rest..]) && HexRange(data, rest + 2 * k, rest + 2 * k + 2)
    ensures HexBytes(data[rest..])[k] == HexValue(data[rest + 2 * k..rest + 2 * k + 2])
  {
    assert AllHex(data[rest..]);
    HexBytesAt(data[rest..], k);
    assert data[rest..][2 * k..2 * k + 2] == data[rest + 2 * k..rest + 2 * k + 2];
  }

  /** The MAC bytes of the test vector, CB:B8:33:4C:88:4F. */
  lemma TestVectorMacBytes()
    ensures MacDigits(TestVector, 42) && MacDigits(TestVector, 44)
    ensures HexBytes(TestVector[40..42]) == [0xCB]
    ensures HexBytes(TestVector[42..]) == [0xB8, 0x33, 0x4C, 0x88, 0x4F]
    ensures HexBytes(TestVector[44..]) == [0x33, 0x4C, 0x88, 0x4F]
  {
    TestVectorMacTail();
    TestVectorMacFirst();
    var v := TestVector;
    assert v[42] == 'B' && v[43] == '8';
    HexByteAt(v, 42);
    var rest := v[42..];
    assert rest[..2] == v[42..44] && rest[2..] == v[44..];
    HexBytesCons(rest);
  }

  lemma TestVectorMacFirst()
    ensures HexRange(TestVector, 40, 42) && HexBytes(TestVector[40..42]) == [0xCB]
  {
    var v := TestVector;
    assert v[40] == 'C' && v[41] == 'B';
    HexByteAt(v, 40);
    HexBytesOne(v[40..42]);
  }

  lemma TestVectorMacTail()
    ensures |TestVector| == 52 && HexRange(TestVector, 44, 52)
    ensures HexBytes(TestVector[44..]) == [0x33, 0x4C, 0x88, 0x4F]
  {
    var t := TestVector[44..];
    assert t[0] == '3' && t[1] == '3' && t[2] == '4' && t[3] == 'C';
    assert t[4] == '8' && t[5] == '8' && t[6] == '4' && t[7] == 'F';
    assert |t| == 8;
    HexBytes4(t);
  }

  /** `hex::decode` of eight digits, digit by digit. */
  lemma HexBytes4(s: string)
    requires |s| == 8 && AllHex(s)
    ensures HexBytes(s) == [16 * DigitValue(s[0]) + DigitValue(s[1]), 16 * DigitValue(s[2]) + DigitValue(s[3]),
                            16 * DigitValue(s[4]) + DigitValue(s[5]), 16 * DigitValue(s[6]) + DigitValue(s[7])]
  {
    HexBytesDigits(s, 0);
    HexBytesDigits(s, 1);
    HexBytesDigits(s, 2);
    HexBytesDigits(s, 3);
  }

  /** Byte `k` of `hex::decode(s)`, digit by digit. */
  lemma HexBytesDigits(s: string, k: nat)
    requires |s| % 2 == 0 && AllHex(s) && k < |s| / 2
    ensures HexBytes(s)[k] == 16 * DigitValue(s[2 * k]) + DigitValue(s[2 * k + 1])
  {
    HexBytesAt(s, k);
    Hex2(s[2 * k..2 * k + 2]);
  }

  /**
   * As written, the MAC text of the test vector reads back as five bytes,
   * the second byte B8 of the MAC missing; read from char 42 it gives all six.
   */
  lemma MacDropsSecondByte()
    ensures MacDigits(TestVector, 44) && MacDigits(TestVector, 42)
    ensures MacBytes(MacText(TestVector, 44)) == [0xCB, 0x33, 0x4C, 0x88, 0x4F]
    ensures MacBytes(MacText(TestVector, 42)) == [0xCB, 0xB8, 0x33, 0x4C, 0x88, 0x4F]
  {
    TestVectorMacAsWritten();
    TestVectorMacIntended();
  }

  lemma TestVectorMacAsWritten()
    ensures MacDigits(TestVector, 44)
    ensures MacBytes(MacText(TestVector, 44)) == [0xCB, 0x33, 0x4C, 0x88, 0x4F]
  {
    TestVectorMacBytes();
    MacRoundTrip(TestVector, 44);
  }

  lemma TestVectorMacIntended()
    ensures MacDigits(TestVector, 42)
    ensures MacBytes(MacText(TestVector, 42)) == [0xCB, 0xB8, 0x33, 0x4C, 0x88, 0x4F]
  {
    TestVectorMacBytes();
    MacRoundTrip(TestVector, 42);
  }
}
