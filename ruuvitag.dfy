/**
 * Model of src/ruuvitag.rs: the front end that hands Bluetooth manufacturer
 * data to the `ruuvi_sensor_protocol` parser, the integer readings built from
 * what that parser returns, and the one-way Raw -> Normalized conversion.
 *
 * The parser itself belongs to another library; it is a function-typed
 * parameter here, and its readings are a record of optional values.
 */
module Ruuvitag {
  import opened Wrappers
  import opened MachineInts

  /** A Bluetooth device address: six bytes. */
  type BDAddr = a: seq<Byte> | |a| == 6 witness [0, 0, 0, 0, 0, 0]

  /** A point in time; the clock is read by the caller. */
  type Timestamp = int

  /** The parser's error; only `EmptyValue` is produced in this module. */
  datatype ParseError = EmptyValue | LibraryError(code: int)

  datatype AccelerationVector = AccelerationVector(x: I16, y: I16, z: I16)

  /** What the library's getters report; each reading may be absent. */
  datatype LibraryReadings = LibraryReadings(
    temperatureMillicelsius: Option<I32>,
    humidityPpm: Option<U32>,
    pressurePascals: Option<U32>,
    accelerationMilliG: Option<AccelerationVector>,
    batteryMillivolts: Option<U16>,
    movementCounter: Option<U32>,
    measurementSequenceNumber: Option<U32>)

  /** `SensorValuesRaw::from_manufacturer_specific_data(id, payload)`. */
  type Parser = (U16, seq<Byte>) -> Result<LibraryReadings, ParseError>

  // ---------------------------------------------------------------------------
  // Manufacturer data
  // ---------------------------------------------------------------------------

  /**
   * The company identifier at the head of manufacturer data, little-endian:
   * `u16::from(data[0]) + (u16::from(data[1]) << 8)`, which cannot overflow.
   */
  function ManufacturerId(data: seq<Byte>): (id: U16)
    requires |data| >= 2
    ensures id % 256 == data[0] && id / 256 == data[1]
  {
    data[0] as int + data[1] as int * 256
  }

  /** `is_ruuvitag`: the company identifier is Ruuvi's 0x0499. */
  function IsRuuviTag(data: seq<Byte>): (r: bool)
    requires |data| >= 2
    ensures r <==> data[0] == 0x99 && data[1] == 0x04
  {
    ManufacturerId(data) == 0x0499
  }

  /**
   * `from_manufacturer_data`: data of at most two bytes is `EmptyValue`;
   * otherwise the parser gets the identifier and the rest, unchanged.
   */
  function FromManufacturerData(data: seq<Byte>, parse: Parser): (r: Result<LibraryReadings, ParseError>)
    ensures |data| <= 2 ==> r == Err(EmptyValue)
    ensures |data| > 2 ==> r == parse(data[0] as int + 256 * data[1] as int, data[2..])
  {
    if |data| > 2 then parse(ManufacturerId(data), data[2..]) else Err(EmptyValue)
  }

  /** Short data is rejected before any parser is consulted. */
  lemma ShortDataIsEmpty(data: seq<Byte>, p: Parser, q: Parser)
    requires |data| <= 2
    ensures FromManufacturerData(data, p) == FromManufacturerData(data, q) == Err(EmptyValue)
  {
  }

  // ---------------------------------------------------------------------------
  // Readings
  // ---------------------------------------------------------------------------

  /** `SensorValues`: integer readings in millicelsius, ppm, Pa, mG and mV. */
  datatype SensorValues = SensorValues(
    temperature: I32,
    humidity: U32,
    pressure: U32,
    accelerationX: I16,
    accelerationY: I16,
    accelerationZ: I16,
    batteryVoltage: U16,
    movementCounter: U32,
    measurementSequenceNumber: U32)

  /**
   * `SensorValuesNormalized`: degrees Celsius, relative humidity as a
   * fraction of 100 %, whole hPa and volts; the rest as in `SensorValues`.
   * The f64 fields are exact reals here.
   */
  datatype SensorValuesNormalized = SensorValuesNormalized(
    temperature: real,
    humidity: real,
    pressure: U32,
    accelerationX: I16,
    accelerationY: I16,
    accelerationZ: I16,
    batteryVoltage: real,
    movementCounter: U32,
    measurementSequenceNumber: U32)

  /** `From<&SensorValuesRaw> for SensorValues`: every absent reading becomes 0. */
  function SensorValuesFrom(raw: LibraryReadings): (v: SensorValues)
    ensures raw.temperatureMillicelsius.Some? ==> v.temperature == raw.temperatureMillicelsius.value
    ensures raw.temperatureMillicelsius.None? ==> v.temperature == 0
    ensures raw.humidityPpm.Some? ==> v.humidity == raw.humidityPpm.value
    ensures raw.humidityPpm.None? ==> v.humidity == 0
    ensures raw.pressurePascals.Some? ==> v.pressure == raw.pressurePascals.value
    ensures raw.pressurePascals.None? ==> v.pressure == 0
    ensures raw.accelerationMilliG.Some? ==>
              AccelerationVector(v.accelerationX, v.accelerationY, v.accelerationZ) == raw.accelerationMilliG.value
    ensures raw.accelerationMilliG.None? ==> v.accelerationX == v.accelerationY == v.accelerationZ == 0
    ensures raw.batteryMillivolts.Some? ==> v.batteryVoltage == raw.batteryMillivolts.value
    ensures raw.batteryMillivolts.None? ==> v.batteryVoltage == 0
    ensures raw.movementCounter.Some? ==> v.movementCounter == raw.movementCounter.value
    ensures raw.movementCounter.None? ==> v.movementCounter == 0
    ensures raw.measurementSequenceNumber.Some? ==> v.measurementSequenceNumber == raw.measurementSequenceNumber.value
    ensures raw.measurementSequenceNumber.None? ==> v.measurementSequenceNumber == 0
  {
    var acceleration := raw.accelerationMilliG.GetOr(AccelerationVector(0, 0, 0));
    SensorValues(
      raw.temperatureMillicelsius.GetOr(0),
      raw.humidityPpm.GetOr(0),
      raw.pressurePascals.GetOr(0),
      acceleration.x, acceleration.y, acceleration.z,
      raw.batteryMillivolts.GetOr(0),
      raw.movementCounter.GetOr(0),
      raw.measurementSequenceNumber.GetOr(0))
  }

  /** A reading the library leaves out cannot be told apart from a reading of 0. */
  lemma AbsentReadsAsZero(raw: LibraryReadings)
    requires raw.temperatureMillicelsius == Some(0)
    ensures SensorValuesFrom(raw) == SensorValuesFrom(raw.(temperatureMillicelsius := None))
  {
  }

  /** `From<&SensorValues> for SensorValuesNormalized`. */
  function NormalizedFrom(v: SensorValues): (n: SensorValuesNormalized)
    ensures n.temperature * 1000.0 == v.temperature as real
    ensures n.humidity * 10000.0 == v.humidity as real
    ensures n.batteryVoltage * 1000.0 == v.batteryVoltage as real
    ensures n.pressure * 100 <= v.pressure < n.pressure * 100 + 100
    ensures n.accelerationX == v.accelerationX && n.accelerationY == v.accelerationY
    ensures n.accelerationZ == v.accelerationZ
    ensures n.movementCounter == v.movementCounter
    ensures n.measurementSequenceNumber == v.measurementSequenceNumber
  {
    SensorValuesNormalized(
      v.temperature as real / 1000.0,
      v.humidity as real / 10000.0,
      // `(p as f64 / 100.0) as u32` truncates: the integer quotient
      v.pressure / 100,
      v.accelerationX, v.accelerationY, v.accelerationZ,
      v.batteryVoltage as real / 1000.0,
      v.movementCounter,
      v.measurementSequenceNumber)
  }

  /**
   * Normalizing forgets only the last two digits of the pressure: readings
   * with the same normalized form agree on everything else.
   */
  lemma NormalizedLosesOnlyPressureDigits(a: SensorValues, b: SensorValues)
    requires NormalizedFrom(a) == NormalizedFrom(b)
    ensures a.(pressure := 0) == b.(pressure := 0)
    ensures a.pressure / 100 == b.pressure / 100
  {
    var na, nb := NormalizedFrom(a), NormalizedFrom(b);
    assert a.temperature as real == na.temperature * 1000.0 == b.temperature as real;
    assert a.humidity as real == na.humidity * 10000.0 == b.humidity as real;
    assert a.batteryVoltage as real == na.batteryVoltage * 1000.0 == b.batteryVoltage as real;
  }

  // ---------------------------------------------------------------------------
  // RuuviTag
  // ---------------------------------------------------------------------------

  datatype SensorValuesType = Raw(values: SensorValues) | Normalized(normalized: SensorValuesNormalized)

  datatype RuuviTag = RuuviTag(mac: BDAddr, time: Timestamp, sensorValues: SensorValuesType)

  /**
   * `RuuviTag::new`: the parser's error is passed on unchanged; on success the
   * tag keeps the given address, is stamped with `now` and holds Raw readings.
   */
  function NewTag(mac: BDAddr, manufacturerData: seq<Byte>, now: Timestamp, parse: Parser): (r: Result<RuuviTag, ParseError>)
    ensures r.Err? <==> FromManufacturerData(manufacturerData, parse).Err?
    ensures r.Err? ==> r.error == FromManufacturerData(manufacturerData, parse).error
    ensures r.Ok? ==> r.value.mac == mac && r.value.time == now && r.value.sensorValues.Raw?
    ensures r.Ok? ==> r.value.sensorValues.values == SensorValuesFrom(FromManufacturerData(manufacturerData, parse).value)
  {
    match FromManufacturerData(manufacturerData, parse)
    case Err(e) => Err(e)
    case Ok(readings) => Ok(RuuviTag(mac, now, Raw(SensorValuesFrom(readings))))
  }

  /** Data of at most two bytes never makes a tag, whatever the parser. */
  lemma NewTagRejectsShortData(mac: BDAddr, data: seq<Byte>, now: Timestamp, parse: Parser)
    requires |data| <= 2
    ensures NewTag(mac, data, now, parse) == Err(EmptyValue)
  {
  }

  /**
   * `normalize_sensor_values`: Raw readings become Normalized ones; a tag
   * already normalized is returned as it is. Address and time never change.
   */
  function NormalizeSensorValues(tag: RuuviTag): (r: RuuviTag)
    ensures r.mac == tag.mac && r.time == tag.time
    ensures r.sensorValues.Normalized?
    ensures tag.sensorValues.Raw? ==> r.sensorValues.normalized == NormalizedFrom(tag.sensorValues.values)
    ensures tag.sensorValues.Normalized? ==> r == tag
  {
    match tag.sensorValues
    case Raw(values) => RuuviTag(tag.mac, tag.time, Normalized(NormalizedFrom(values)))
    case Normalized(_) => tag
  }

  /** Normalizing twice is normalizing once. */
  lemma NormalizeIdempotent(tag: RuuviTag)
    ensures NormalizeSensorValues(NormalizeSensorValues(tag)) == NormalizeSensorValues(tag)
  {
  }
}
