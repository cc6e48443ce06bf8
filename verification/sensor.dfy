/** The ICM-42688 driver core (`icm-42688.c`): the identity-gated start-up
    sequence and the four read operations that turn register bursts into
    signed 16-bit readings. Each operation is a pure function of the bus
    oracle and returns its status or readings together with the trace of
    bus requests it issued. */
module Sensor {
  import opened Types
  import opened RegisterMap
  import opened BusInterface
  import opened BigEndian

  /** The driver context (`icm42688_t`): the bus it talks through. */
  datatype Device = Device(bus: Bus)

  // Status codes of the driver's operations.
  const OK: int := 0
  const ERR_BUS_READ: int := -2
  const ERR_IDENTITY: int := -3
  const ERR_POWER: int := -4

  /** Three axes of one sensor, in X, Y, Z order. */
  datatype Axes = Axes(x: Int16, y: Int16, z: Int16)

  /** One complete sample (`icm42688_data_t`): seven signed 16-bit fields. */
  datatype SensorData = SensorData(
    accelX: Int16, accelY: Int16, accelZ: Int16,
    gyroX: Int16, gyroY: Int16, gyroZ: Int16,
    temp: Int16)

  // ---------------------------------------------------------------------
  // How the device lays a sample out in its registers. These are the
  // inverses the read operations are specified against.

  /** The two register bytes holding `v`, high byte first. */
  function WordBytes(v: Int16): (bytes: seq<Byte>)
    ensures |bytes| == 2
    ensures Decode(bytes[0], bytes[1]) == v
  {
    DecodeEncode(v);
    [Encode(v).0, Encode(v).1]
  }

  /** The six register bytes holding three axes. */
  function AxesBytes(a: Axes): (bytes: seq<Byte>)
    ensures |bytes| == 6
  {
    WordBytes(a.x) + WordBytes(a.y) + WordBytes(a.z)
  }

  /** The 14-byte data block holding a sample: temperature, then the
      accelerometer axes, then the gyroscope axes. */
  function BlockBytes(d: SensorData): (bytes: seq<Byte>)
    ensures |bytes| == DATA_BLOCK_LEN
  {
    WordBytes(d.temp)
    + AxesBytes(Axes(d.accelX, d.accelY, d.accelZ))
    + AxesBytes(Axes(d.gyroX, d.gyroY, d.gyroZ))
  }

  /** No two values occupy the same two bytes. */
  lemma WordBytesInjective(v: Int16, w: Int16)
    requires WordBytes(v) == WordBytes(w)
    ensures v == w
  {
  }

  /** Any two bytes are the encoding of the value they decode to. */
  lemma WordBytesOfDecode(buf: seq<Byte>, off: nat)
    requires off + 1 < |buf|
    ensures WordBytes(DecodeAt(buf, off)) == buf[off..off + 2]
  {
    EncodeDecode(buf[off], buf[off + 1]);
  }

  // ---------------------------------------------------------------------
  // Decoding a read buffer.

  /** The three axes whose big-endian words start at `off` in `buf`. */
  function DecodeAxes(buf: seq<Byte>, off: nat): (a: Axes)
    requires off + 6 <= |buf|
    ensures AxesBytes(a) == buf[off..off + 6]
  {
    var a := Axes(DecodeAt(buf, off), DecodeAt(buf, off + 2), DecodeAt(buf, off + 4));
    WordBytesOfDecode(buf, off);
    WordBytesOfDecode(buf, off + 2);
    WordBytesOfDecode(buf, off + 4);
    assert buf[off..off + 6] == buf[off..off + 2] + buf[off + 2..off + 4] + buf[off + 4..off + 6];
    a
  }

  // ---------------------------------------------------------------------
  // Single-register helpers.

  /** `read_register`: a one-byte read whose status is passed through. */
  function ReadRegister(dev: Device, reg: Byte): (r: Traced<Result<Byte>>)
    requires Delivers(dev.bus, reg, 1)
    ensures r.trace == [Read(reg, 1)]
    ensures r.result.Ok? <==> dev.bus.read(reg, 1).status == 0
    ensures r.result.Ok? ==> [r.result.value] == dev.bus.read(reg, 1).data
    ensures r.result.Err? ==> r.result.code == dev.bus.read(reg, 1).status
  {
    var reply := dev.bus.read(reg, 1);
    Traced(if reply.status != 0 then Err(reply.status) else Ok(reply.data[0]), [Read(reg, 1)])
  }

  /** `write_register`: a one-byte write whose status is passed through. */
  function WriteRegister(dev: Device, reg: Byte, value: Byte): (r: Traced<int>)
    ensures r.trace == [Write(reg, [value])]
    ensures r.result == dev.bus.write(reg, r.trace[0].data)
    ensures WrittenRegisters(r.trace) == {reg}
  {
    Traced(dev.bus.write(reg, [value]), [Write(reg, [value])])
  }

  // ---------------------------------------------------------------------
  // Start-up.

  /** The full start-up sequence: identify, reset, power on. */
  const InitSequence: seq<BusEvent> := [
    Read(WHO_AM_I, 1),
    Write(DEVICE_CONFIG, [RESET_COMMAND]),
    Write(PWR_MGMT0, [POWER_ON_COMMAND])
  ]

  /** The identity register reads back as an ICM-42688. */
  predicate IdentityConfirmed(dev: Device)
    requires Delivers(dev.bus, WHO_AM_I, 1)
  {
    dev.bus.read(WHO_AM_I, 1).status == 0 && dev.bus.read(WHO_AM_I, 1).data[0] == WHO_AM_I_VALUE
  }

  /** `icm42688_init`. Reads WHO_AM_I and stops with -2 if the read fails
      and with -3 if the byte is not 0x47. Otherwise requests a soft reset
      (whose status is discarded, as the driver does) and turns the
      accelerometer and gyroscope on, failing with -4 if that write fails. */
  function Init(dev: Device): (r: Traced<int>)
    requires Delivers(dev.bus, WHO_AM_I, 1)
    ensures r.result in {OK, ERR_BUS_READ, ERR_IDENTITY, ERR_POWER}
    ensures [Read(WHO_AM_I, 1)] <= r.trace <= InitSequence
    ensures r.result == ERR_BUS_READ <==> dev.bus.read(WHO_AM_I, 1).status != 0
    ensures r.result == ERR_IDENTITY <==>
      dev.bus.read(WHO_AM_I, 1).status == 0 && dev.bus.read(WHO_AM_I, 1).data[0] != WHO_AM_I_VALUE
    ensures ReadOnly(r.trace) <==> !IdentityConfirmed(dev)
    ensures !IdentityConfirmed(dev) ==> r.trace == [Read(WHO_AM_I, 1)]
    ensures IdentityConfirmed(dev) ==> r.trace == InitSequence
    ensures r.result == ERR_POWER <==>
      IdentityConfirmed(dev) && dev.bus.write(PWR_MGMT0, [POWER_ON_COMMAND]) != 0
    ensures r.result == OK <==>
      IdentityConfirmed(dev) && dev.bus.write(PWR_MGMT0, [POWER_ON_COMMAND]) == 0
    ensures WrittenRegisters(r.trace) <= {DEVICE_CONFIG, PWR_MGMT0}
  {
    var id := ReadRegister(dev, WHO_AM_I);
    if id.result.Err? then
      Traced(ERR_BUS_READ, id.trace)
    else if id.result.value != WHO_AM_I_VALUE then
      Traced(ERR_IDENTITY, id.trace)
    else
      // The reset write's status is not looked at.
      var reset := WriteRegister(dev, DEVICE_CONFIG, RESET_COMMAND);
      var power := WriteRegister(dev, PWR_MGMT0, POWER_ON_COMMAND);
      var trace := id.trace + reset.trace + power.trace;
      assert WrittenRegisters(trace) <= {DEVICE_CONFIG, PWR_MGMT0};
      Traced(if power.result != 0 then ERR_POWER else OK, trace)
  }

  /** The outcome of Init depends on the bus only through the identity read
      and the power-on write: whatever the reset write returns, and whatever
      any other write would return, Init behaves the same. */
  lemma InitIgnoresResetStatus(dev: Device, dev': Device)
    requires Delivers(dev.bus, WHO_AM_I, 1)
    requires dev'.bus.read(WHO_AM_I, 1) == dev.bus.read(WHO_AM_I, 1)
    requires dev'.bus.write(PWR_MGMT0, [POWER_ON_COMMAND]) == dev.bus.write(PWR_MGMT0, [POWER_ON_COMMAND])
    ensures Init(dev') == Init(dev)
  {
  }

  /** Init never touches the accelerometer or gyroscope configuration. */
  lemma InitLeavesConfigAlone(dev: Device)
    requires Delivers(dev.bus, WHO_AM_I, 1)
    ensures ACCEL_CONFIG0 !in WrittenRegisters(Init(dev).trace)
    ensures GYRO_CONFIG0 !in WrittenRegisters(Init(dev).trace)
  {
  }

  /** A device that answers 0x47 and accepts every write starts up; one that
      answers 0x46 is rejected before anything is written; a failing
      identity read is reported as such, again with nothing written. */
  lemma InitScenarios()
    ensures Init(Device(Bus((reg, len) => ReadReply(0, [0x47]), (reg, data) => 0))).result == OK
    ensures var r := Init(Device(Bus((reg, len) => ReadReply(0, [0x46]), (reg, data) => 0)));
      r.result == ERR_IDENTITY && r.trace == [Read(WHO_AM_I, 1)]
    ensures var r := Init(Device(Bus((reg, len) => ReadReply(1, []), (reg, data) => 0)));
      r.result == ERR_BUS_READ && r.trace == [Read(WHO_AM_I, 1)]
    ensures var r := Init(Device(Bus((reg, len) => ReadReply(0, [0x47]), (reg, data) => if reg == DEVICE_CONFIG then 1 else 0)));
      r.result == OK && r.trace == InitSequence
  {
  }

  // ---------------------------------------------------------------------
  // Reads.

  /** `icm42688_read_temp`: one 2-byte read at TEMP_DATA1. */
  function ReadTemp(dev: Device): (r: Traced<Result<Int16>>)
    requires Delivers(dev.bus, TEMP_DATA1, 2)
    ensures r.trace == [Read(TEMP_DATA1, 2)]
    ensures r.result.Ok? <==> dev.bus.read(TEMP_DATA1, 2).status == 0
    ensures r.result.Err? ==> r.result.code == ERR_BUS_READ
    ensures r.result.Ok? ==> WordBytes(r.result.value) == dev.bus.read(TEMP_DATA1, 2).data
  {
    var reply := dev.bus.read(TEMP_DATA1, 2);
    var trace := [Read(TEMP_DATA1, 2)];
    if reply.status != 0 then Traced(Err(ERR_BUS_READ), trace)
    else
      WordBytesOfDecode(reply.data, 0);
      Traced(Ok(DecodeAt(reply.data, 0)), trace)
  }

  /** Reads and decodes one 6-byte axis triple at `base`. */
  function ReadAxes(dev: Device, base: Byte): (r: Traced<Result<Axes>>)
    requires Delivers(dev.bus, base, 6)
    ensures r.trace == [Read(base, 6)]
    ensures r.result.Ok? <==> dev.bus.read(base, 6).status == 0
    ensures r.result.Err? ==> r.result.code == ERR_BUS_READ
    ensures r.result.Ok? ==> AxesBytes(r.result.value) == dev.bus.read(base, 6).data
  {
    var reply := dev.bus.read(base, 6);
    var trace := [Read(base, 6)];
    if reply.status != 0 then Traced(Err(ERR_BUS_READ), trace)
    else
      assert reply.data[0..6] == reply.data;
      Traced(Ok(DecodeAxes(reply.data, 0)), trace)
  }

  /** `icm42688_read_accel`: one 6-byte read at ACCEL_DATA_X1. */
  function ReadAccel(dev: Device): (r: Traced<Result<Axes>>)
    requires Delivers(dev.bus, ACCEL_DATA_X1, 6)
    ensures r.trace == [Read(ACCEL_DATA_X1, 6)]
    ensures r.result.Ok? <==> dev.bus.read(ACCEL_DATA_X1, 6).status == 0
    ensures r.result.Err? ==> r.result.code == ERR_BUS_READ
    ensures r.result.Ok? ==> AxesBytes(r.result.value) == dev.bus.read(ACCEL_DATA_X1, 6).data
  {
    ReadAxes(dev, ACCEL_DATA_X1)
  }

  /** `icm42688_read_gyro`: one 6-byte read at GYRO_DATA_X1. */
  function ReadGyro(dev: Device): (r: Traced<Result<Axes>>)
    requires Delivers(dev.bus, GYRO_DATA_X1, 6)
    ensures r.trace == [Read(GYRO_DATA_X1, 6)]
    ensures r.result.Ok? <==> dev.bus.read(GYRO_DATA_X1, 6).status == 0
    ensures r.result.Err? ==> r.result.code == ERR_BUS_READ
    ensures r.result.Ok? ==> AxesBytes(r.result.value) == dev.bus.read(GYRO_DATA_X1, 6).data
  {
    ReadAxes(dev, GYRO_DATA_X1)
  }

  /** `icm42688_read_all`: one 14-byte burst from TEMP_DATA1, decoded at
      offsets 0 (temperature), 2, 4, 6 (accelerometer) and 8, 10, 12
      (gyroscope). */
  function ReadAll(dev: Device): (r: Traced<Result<SensorData>>)
    requires Delivers(dev.bus, TEMP_DATA1, DATA_BLOCK_LEN)
    ensures r.trace == [Read(TEMP_DATA1, DATA_BLOCK_LEN)]
    ensures r.result.Ok? <==> dev.bus.read(TEMP_DATA1, DATA_BLOCK_LEN).status == 0
    ensures r.result.Err? ==> r.result.code == ERR_BUS_READ
    ensures r.result.Ok? ==> BlockBytes(r.result.value) == dev.bus.read(TEMP_DATA1, DATA_BLOCK_LEN).data
  {
    var reply := dev.bus.read(TEMP_DATA1, DATA_BLOCK_LEN);
    var trace := [Read(TEMP_DATA1, DATA_BLOCK_LEN)];
    if reply.status != 0 then Traced(Err(ERR_BUS_READ), trace)
    else
      var buf := reply.data;
      var d := SensorData(
        accelX := DecodeAt(buf, 2), accelY := DecodeAt(buf, 4), accelZ := DecodeAt(buf, 6),
        gyroX := DecodeAt(buf, 8), gyroY := DecodeAt(buf, 10), gyroZ := DecodeAt(buf, 12),
        temp := DecodeAt(buf, 0));
      WordBytesOfDecode(buf, 0);
      assert AxesBytes(Axes(d.accelX, d.accelY, d.accelZ)) == buf[2..8] by {
        assert Axes(d.accelX, d.accelY, d.accelZ) == DecodeAxes(buf, 2);
      }
      assert AxesBytes(Axes(d.gyroX, d.gyroY, d.gyroZ)) == buf[8..14] by {
        assert Axes(d.gyroX, d.gyroY, d.gyroZ) == DecodeAxes(buf, 8);
      }
      assert buf == buf[0..2] + buf[2..8] + buf[8..14];
      Traced(Ok(d), trace)
  }

  // ---------------------------------------------------------------------
  // Layout lemmas: the byte encodings determine their values.

  /** No two axis triples occupy the same six bytes. */
  lemma AxesBytesInjective(a: Axes, b: Axes)
    requires AxesBytes(a) == AxesBytes(b)
    ensures a == b
  {
    assert AxesBytes(a)[0..2] == WordBytes(a.x) && AxesBytes(b)[0..2] == WordBytes(b.x);
    assert AxesBytes(a)[2..4] == WordBytes(a.y) && AxesBytes(b)[2..4] == WordBytes(b.y);
    assert AxesBytes(a)[4..6] == WordBytes(a.z) && AxesBytes(b)[4..6] == WordBytes(b.z);
    WordBytesInjective(a.x, b.x);
    WordBytesInjective(a.y, b.y);
    WordBytesInjective(a.z, b.z);
  }

  /** The data block splits into the temperature word and the two axis
      triples at offsets 0, 2 and 8. */
  lemma BlockBytesParts(d: SensorData)
    ensures BlockBytes(d)[0..2] == WordBytes(d.temp)
    ensures BlockBytes(d)[2..8] == AxesBytes(Axes(d.accelX, d.accelY, d.accelZ))
    ensures BlockBytes(d)[8..14] == AxesBytes(Axes(d.gyroX, d.gyroY, d.gyroZ))
  {
  }

  /** No two samples occupy the same fourteen bytes. */
  lemma BlockBytesInjective(d: SensorData, e: SensorData)
    requires BlockBytes(d) == BlockBytes(e)
    ensures d == e
  {
    BlockBytesParts(d);
    BlockBytesParts(e);
    WordBytesInjective(d.temp, e.temp);
    AxesBytesInjective(Axes(d.accelX, d.accelY, d.accelZ), Axes(e.accelX, e.accelY, e.accelZ));
    AxesBytesInjective(Axes(d.gyroX, d.gyroY, d.gyroZ), Axes(e.gyroX, e.gyroY, e.gyroZ));
  }

  // ---------------------------------------------------------------------
  // Read lemmas.

  /** A temperature the device holds is the temperature read back. */
  lemma ReadTempRoundTrip(dev: Device, t: Int16)
    requires dev.bus.read(TEMP_DATA1, 2) == ReadReply(0, WordBytes(t))
    ensures ReadTemp(dev).result == Ok(t)
  {
    WordBytesInjective(ReadTemp(dev).result.value, t);
  }

  /** Accelerometer axes the device holds are the axes read back. */
  lemma ReadAccelRoundTrip(dev: Device, a: Axes)
    requires dev.bus.read(ACCEL_DATA_X1, 6) == ReadReply(0, AxesBytes(a))
    ensures ReadAccel(dev).result == Ok(a)
  {
    AxesBytesInjective(ReadAccel(dev).result.value, a);
  }

  /** Gyroscope axes the device holds are the axes read back. */
  lemma ReadGyroRoundTrip(dev: Device, g: Axes)
    requires dev.bus.read(GYRO_DATA_X1, 6) == ReadReply(0, AxesBytes(g))
    ensures ReadGyro(dev).result == Ok(g)
  {
    AxesBytesInjective(ReadGyro(dev).result.value, g);
  }

  /** A sample the device holds in its data block is the sample read back. */
  lemma ReadAllRoundTrip(dev: Device, d: SensorData)
    requires dev.bus.read(TEMP_DATA1, DATA_BLOCK_LEN) == ReadReply(0, BlockBytes(d))
    ensures ReadAll(dev).result == Ok(d)
  {
    BlockBytesInjective(ReadAll(dev).result.value, d);
  }

  /** On a device whose registers do not change between the calls, the one
      burst read of the whole block gives the same seven values as reading
      temperature, accelerometer and gyroscope separately. */
  lemma ReadAllMatchesSeparateReads(dev: Device, image: RegisterFile)
    requires Serves(dev.bus, image, TEMP_DATA1, DATA_BLOCK_LEN)
    requires Serves(dev.bus, image, TEMP_DATA1, 2)
    requires Serves(dev.bus, image, ACCEL_DATA_X1, 6)
    requires Serves(dev.bus, image, GYRO_DATA_X1, 6)
    ensures ReadAll(dev).result.Ok? && ReadTemp(dev).result.Ok?
    ensures ReadAccel(dev).result.Ok? && ReadGyro(dev).result.Ok?
    ensures var all, accel, gyro := ReadAll(dev).result.value, ReadAccel(dev).result.value, ReadGyro(dev).result.value;
      all == SensorData(accel.x, accel.y, accel.z, gyro.x, gyro.y, gyro.z, ReadTemp(dev).result.value)
  {
  }

  /** The worked example: bytes 01 02 03 04 FA CE read as (258, 772, -1330). */
  lemma ReadAccelExample(dev: Device)
    requires dev.bus.read(ACCEL_DATA_X1, 6) == ReadReply(0, [0x01, 0x02, 0x03, 0x04, 0xFA, 0xCE])
    ensures ReadAccel(dev).result == Ok(Axes(258, 772, -1330))
  {
  }
}
