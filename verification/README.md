# ICM-42688 register driver — Dafny model

This project models the core of a small C driver for the ICM-42688 6-axis
inertial sensor (3-axis accelerometer, 3-axis gyroscope, temperature). It
also models the SPI transport wrappers that can serve as the driver's bus.

- `types.dfy` (`Types`): the machine types. Bytes are `bv8`, transfer
  lengths are `U16` and readings are `Int16`. `Result` carries a reading or
  the status code the C function returns instead.
- `registers.dfy` (`RegisterMap`): the register addresses and protocol
  constants of `icm-42688.h`. It proves that the 14 data registers form one
  contiguous block, that each high byte is followed by its low byte, and
  that the control registers are distinct and outside that block.
- `bigendian.dfy` (`BigEndian`): the driver's decoding
  `(int16_t)((hi << 8) | lo)`. The C shifts after promotion to `int`; the
  model uses the equivalent shift and OR on 16-bit vectors, which gives the
  same word because `hi << 8` stays below 2^16. Its inverse `Encode` is used
  to prove both round trips.
- `bus.dfy` (`BusInterface`): the bus capability `icm42688_bus_t`. It is a
  datatype of two total functions that act as an oracle. A read of
  `(reg, len)` yields an `int` status and the buffer contents. A write of
  `(reg, bytes)` yields an `int` status. Every request the driver makes is
  logged as a `Read(reg, len)` or `Write(reg, bytes)` event. `Delivers`
  states the transport's half of the contract: a successful read fills
  exactly `len` bytes.
- `sensor.dfy` (`Sensor`): `write_register`, `read_register`, the start-up
  sequence and the four read operations. Each returns its result together
  with its trace of bus events. The read operations are specified against
  the device-side layout (`WordBytes`, `AxesBytes`, `BlockBytes`): the value
  returned is the one whose big-endian bytes the bus delivered.
- `spi.dfy` (`Spi`): `spi_read_wrapper` and `spi_write_wrapper`. The HAL
  transmit and receive results are parameters. The chip-select writes and
  transfers are a trace of `SpiEvent`s.

Notes on the source:

- `icm-42688.c:42` calls `write_register(ICM42688_PWR_MGMT0, 0x0F)` without
  the device argument, so that line does not compile as written. The model
  uses the evident intent: it writes 0x0F to PWR_MGMT0 through the same
  device's bus.
- `icm-42688.c:38` discards the status of the soft-reset write. The model
  keeps that behaviour: `Init` issues the write and never looks at its
  status. `Sensor.InitIgnoresResetStatus` proves that the outcome of `Init`
  does not depend on that status.
- The identity check (`icm-42688.c:33`) comes before the reset write
  (`icm-42688.c:38`), so a mismatch issues no write at all. The model
  follows the code.

## Model

| member | source | states |
|---|---|---|
| `BigEndian.ToSigned` | icm-42688-p-driver/src/icm-42688.c:56 | The `int16_t` reinterpretation of a 16-bit word agrees with the word modulo 2^16 and is negative exactly when the word is 0x8000 or more. |
| `BigEndian.Decode` | icm-42688-p-driver/src/icm-42688.c:56 | The value built by shift and OR is `hi*256+lo` below 32768 and `hi*256+lo-65536` otherwise. It is congruent to the word modulo 2^16 and negative exactly when bit 7 of the high byte is set. |
| `BigEndian.DecodeAt` | icm-42688-p-driver/src/icm-42688.c:56 | Decoding at offset `off` uses the bytes at `off` (high) and `off+1` (low) of the buffer. |
| `BigEndian.Encode` | icm-42688-p-driver/src/icm-42688.c:56 | The two big-endian bytes written for a value form the value's word modulo 2^16. This is the inverse the decode is checked against. |
| `BigEndian.DecodeEncode` | icm-42688-p-driver/src/icm-42688.c:56 | Decoding the bytes of any `int16_t` value gives the value back. |
| `BigEndian.EncodeDecode` | icm-42688-p-driver/src/icm-42688.c:56 | Re-encoding a decoded value gives back the original `(hi, lo)`. |
| `BigEndian.DecodeInjective` | icm-42688-p-driver/src/icm-42688.c:56 | Two byte pairs that decode to the same value are the same pair. |
| `BigEndian.DecodeExamples` | icm-42688-p-driver/src/icm-42688.c:56 | (7F,FF) gives 32767, (80,00) gives -32768, (FF,FF) gives -1, (00,00) gives 0 and (FA,CE) gives -1330. |
| `RegisterMap.DataWordsTileBlock` | icm-42688-p-driver/inc/icm-42688.h:25-42 | The seven high/low pairs cover 14 consecutive addresses from 0x1D to 0x2A. Pair `i` sits at offsets `2i` and `2i+1`, so each low byte is at its high byte's address + 1. |
| `RegisterMap.BulkReadOffsets` | icm-42688-p-driver/inc/icm-42688.h:25-37 | ACCEL_DATA_X1 is at offset 2 and GYRO_DATA_X1 at offset 8 of the block. These are the offsets the bulk read decodes them from. |
| `RegisterMap.ControlRegistersApart` | icm-42688-p-driver/inc/icm-42688.h:18-46 | WHO_AM_I, DEVICE_CONFIG, PWR_MGMT0, GYRO_CONFIG0 and ACCEL_CONFIG0 are pairwise distinct. None of them lies in the 0x1D–0x2A data block. |
| `RegisterMap.RegistersFitSevenBits` | icm-42688-p-driver/inc/icm-42688.h:18-46 | Every named register is below 0x80, so the SPI direction flag never overlaps an address bit. |
| `Sensor.WordBytes` | icm-42688-p-driver/src/icm-42688.c:56 | The device-side layout of one reading: two bytes that decode back to it. |
| `Sensor.WordBytesInjective` | icm-42688-p-driver/src/icm-42688.c:56 | Different readings occupy different register bytes. |
| `Sensor.WordBytesOfDecode` | icm-42688-p-driver/src/icm-42688.c:56 | Any two buffer bytes are exactly the layout of the value they decode to. |
| `Sensor.AxesBytesInjective` | icm-42688-p-driver/src/icm-42688.c:67-69 | Different axis triples occupy different 6-byte register images. |
| `Sensor.BlockBytesParts` | icm-42688-p-driver/src/icm-42688.c:94-102 | The 14-byte block holds temperature at bytes 0–1, the accelerometer at bytes 2–7 and the gyroscope at bytes 8–13. |
| `Sensor.BlockBytesInjective` | icm-42688-p-driver/src/icm-42688.c:94-102 | Different samples occupy different 14-byte blocks. |
| `Sensor.DecodeAxes` | icm-42688-p-driver/src/icm-42688.c:67-69 | The X, Y, Z values decoded from byte pairs (0,1), (2,3), (4,5) are the triple whose layout is exactly those six bytes. |
| `Sensor.ReadRegister` | icm-42688-p-driver/src/icm-42688.c:18-20 | Issues one 1-byte read of `reg`. On success it yields the byte the bus delivered; otherwise it passes the bus status through. |
| `Sensor.WriteRegister` | icm-42688-p-driver/src/icm-42688.c:13-15 | Issues one 1-byte write of `value` to `reg` and returns the bus's status for it. It writes no other register. |
| `Sensor.Init` | icm-42688-p-driver/src/icm-42688.c:23-47 | The trace starts with the 1-byte WHO_AM_I read and is a prefix of read-identity, write 0x01 to 0x11, write 0x0F to 0x4E. A failed identity read gives -2 and a byte other than 0x47 gives -3, both with no write at all. Otherwise both writes happen in order, and the result is -4 if and only if the power write fails, else 0. Only 0x11 and 0x4E are ever written. |
| `Sensor.InitIgnoresResetStatus` | icm-42688-p-driver/src/icm-42688.c:37-46 | Two buses that agree on the identity read and the power-on write give the same Init outcome and trace, whatever the reset write returns. |
| `Sensor.InitLeavesConfigAlone` | icm-42688-p-driver/src/icm-42688.c:37-44 | Init never writes ACCEL_CONFIG0 or GYRO_CONFIG0. |
| `Sensor.InitScenarios` | icm-42688-p-driver/src/icm-42688.c:29-46 | Identity 0x47 with good writes gives 0. Identity 0x46 gives -3 after the read alone. A failing identity read gives -2 after the read alone. A failing reset write still gives 0 with the full trace. |
| `Sensor.ReadTemp` | icm-42688-p-driver/src/icm-42688.c:50-58 | Issues exactly one 2-byte read at 0x1D. On bus failure it returns -2 and no value. On success the value is the reading whose big-endian bytes were delivered. |
| `Sensor.ReadAxes` | icm-42688-p-driver/src/icm-42688.c:61-84 | Issues exactly one 6-byte read at `base`. On failure it returns -2 and no values. On success it returns the triple whose layout is the delivered bytes. |
| `Sensor.ReadAccel` | icm-42688-p-driver/src/icm-42688.c:61-71 | Issues exactly one 6-byte read at 0x1F. On failure it returns -2 and no values. On success X, Y, Z are the readings whose bytes are pairs (0,1), (2,3), (4,5) of the delivered buffer. |
| `Sensor.ReadGyro` | icm-42688-p-driver/src/icm-42688.c:74-84 | Issues exactly one 6-byte read at 0x25. On failure it returns -2 and no values. On success X, Y, Z are the readings whose bytes are pairs (0,1), (2,3), (4,5) of the delivered buffer. |
| `Sensor.ReadAll` | icm-42688-p-driver/src/icm-42688.c:87-105 | Issues exactly one 14-byte read at 0x1D. On failure it returns -2 and no values. On success the seven fields are the sample whose block layout (temp, ax, ay, az, gx, gy, gz at offsets 0, 2, …, 12) is the delivered buffer. |
| `Sensor.ReadTempRoundTrip` | icm-42688-p-driver/src/icm-42688.c:54-56 | A temperature the device holds is the temperature read back. |
| `Sensor.ReadAccelRoundTrip` | icm-42688-p-driver/src/icm-42688.c:65-69 | Accelerometer axes the device holds are the axes read back. |
| `Sensor.ReadGyroRoundTrip` | icm-42688-p-driver/src/icm-42688.c:78-82 | Gyroscope axes the device holds are the axes read back. |
| `Sensor.ReadAllRoundTrip` | icm-42688-p-driver/src/icm-42688.c:92-102 | A sample held in the data block is the sample read back. |
| `Sensor.ReadAllMatchesSeparateReads` | icm-42688-p-driver/src/icm-42688.c:50-105 | When one register file answers all four reads, the bulk read's seven fields equal the separate temperature, accelerometer and gyroscope reads. |
| `Sensor.ReadAccelExample` | icm-42688-p-driver/src/icm-42688.c:65-69 | Bytes 01 02 03 04 FA CE read as (258, 772, -1330). |
| `Spi.ReadAddressByte` | icm-42688-p-driver/src/spi_driver.c:24 | The read address byte has bit 7 set, and its low 7 bits equal those of `reg`. |
| `Spi.WriteAddressByte` | icm-42688-p-driver/src/spi_driver.c:42 | The write address byte has bit 7 clear, and its low 7 bits equal those of `reg`. |
| `Spi.ParseAddressByte` | icm-42688-p-driver/src/spi_driver.c:13 | The device reads an address byte as a read exactly when it is 0x80 or more. The register is below 0x80, and OR-ing the direction bit back onto it gives the original byte, so the register is the byte's low 7 bits. |
| `Spi.AddressBytesRoundTrip` | icm-42688-p-driver/src/spi_driver.c:24-42 | For a 7-bit register, the device decodes the read byte as (read, reg) and the write byte as (write, reg). |
| `Spi.AddressBytesDifferInFlagOnly` | icm-42688-p-driver/src/spi_driver.c:24-42 | The read and write bytes of one register differ only in bit 7. |
| `Spi.ReadWrapper` | icm-42688-p-driver/src/spi_driver.c:23-39 | Every path is CS-low, transfers, CS-high, with exactly one assert and one release: 3 events when the address transmit fails, 4 (one receive) otherwise. The first transfer is the read address byte. A failed address transmit gives -1 and no receive is attempted. A failed receive gives -2. Success gives 0 and the received bytes. |
| `Spi.WriteWrapper` | icm-42688-p-driver/src/spi_driver.c:41-57 | Every path is CS-low, transfers, CS-high, with exactly one assert and one release: 3 events when the address transmit fails, 4 (one payload transmit) otherwise. The first transfer is the write address byte. A failed address transmit gives -1 and the payload is never sent. A failed payload transmit gives -2. Success gives 0. |
| `Spi.ReplayAppend` | icm-42688-p-driver/src/spi_driver.c:15-21 | Replaying the CS pin over two event runs is replaying them in turn. |
| `Spi.TransfersKeepLevel` | icm-42688-p-driver/src/spi_driver.c:25-37 | Transfers do not move CS; with CS low, all of them happen while the device is selected. |
| `Spi.FramedIsSelected` | icm-42688-p-driver/src/spi_driver.c:23-57 | A framed transaction started with CS idle high transfers only while CS is asserted and leaves CS high. |
| `Spi.SessionIsSelected` | icm-42688-p-driver/src/spi_driver.c:23-57 | Any sequence of framed transactions, started idle, never transfers while CS is released and ends with CS released. |
| `Spi.WrappersAreSelected` | icm-42688-p-driver/src/spi_driver.c:23-57 | Neither wrapper, on any combination of HAL outcomes, transfers while CS is released. |

Other parts of the header appear as types, not members:

- `Sensor.SensorData` is `icm42688_data_t`: seven `Int16` fields in the
  header's order.
- `BusInterface.Bus` is `icm42688_bus_t`: exactly two operations. `read`
  takes an 8-bit register and a 16-bit length and returns an `int` status
  with the bytes read; `write` takes an 8-bit register and the bytes and
  returns an `int` status.
- `Sensor.Device` is `icm42688_t`.

## Left out

- Null-pointer checks that return -1 (`icm-42688.c` lines 25, 51, 62, 75 and 88): Dafny values cannot be null, so these paths do not exist in the model.
- `HAL_Delay(10)` after the reset write: timing is not modelled, and the delay leaves no event in the trace.
- The HAL itself (`HAL_SPI_Transmit`, `HAL_SPI_Receive`, `HAL_GPIO_WritePin`, the 1000 ms timeouts, the `hspi1` handle, GPIOA pin 4): HAL results are parameters, and pin writes and transfers are trace events.
- The receive buffer after a failed `HAL_SPI_Receive`: C leaves it partly filled or untouched. The model returns no bytes on that path.
- `i2c_driver.c` and the two transport headers: the I2C wrapper only forwards to `HAL_I2C_Mem_Read`/`HAL_I2C_Mem_Write` at a fixed address, and the headers only declare prototypes.
- Which transport is plugged into the driver: the application does this outside these files. The sensor model takes any bus oracle, and the SPI wrappers are modelled on their own.
- The out-of-range `int` to `int16_t` conversion, which is implementation-defined in C: the model uses the intended two's-complement reinterpretation.
- The device's changing state: the bus oracle answers each request as a function of the request alone. Within one driver call no request repeats, so this only limits `ReadAllMatchesSeparateReads`, which assumes one register file serves all four reads.
- The buffer argument of a bus read: C passes a buffer for the transport to fill; the model's `read` returns those bytes as `ReadReply.data` instead.
- The length argument of a bus write: it is the length of the byte sequence written, which is always 1 in the driver.
- The I2C device address (0x68/0x69), output data rate and full-scale configuration, and unit conversion: the driver logic uses none of them.
