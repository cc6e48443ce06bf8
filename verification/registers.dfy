/** The ICM-42688 register map (`icm-42688.h`) and the fixed protocol
    constants the driver writes and compares against (`icm-42688.c`). */
module RegisterMap {
  import opened Types

  // Identity, configuration and power registers.
  const WHO_AM_I: Byte := 0x75
  const DEVICE_CONFIG: Byte := 0x11
  const PWR_MGMT0: Byte := 0x4E
  const ACCEL_CONFIG0: Byte := 0x50
  const GYRO_CONFIG0: Byte := 0x4F

  // Temperature data (high byte first).
  const TEMP_DATA1: Byte := 0x1D
  const TEMP_DATA2: Byte := 0x1E

  // Accelerometer data; `…1` is the high byte, `…0` the low byte.
  const ACCEL_DATA_X1: Byte := 0x1F
  const ACCEL_DATA_X0: Byte := 0x20
  const ACCEL_DATA_Y1: Byte := 0x21
  const ACCEL_DATA_Y0: Byte := 0x22
  const ACCEL_DATA_Z1: Byte := 0x23
  const ACCEL_DATA_Z0: Byte := 0x24

  // Gyroscope data; `…1` is the high byte, `…0` the low byte.
  const GYRO_DATA_X1: Byte := 0x25
  const GYRO_DATA_X0: Byte := 0x26
  const GYRO_DATA_Y1: Byte := 0x27
  const GYRO_DATA_Y0: Byte := 0x28
  const GYRO_DATA_Z1: Byte := 0x29
  const GYRO_DATA_Z0: Byte := 0x2A

  /** The value the identity register of a genuine ICM-42688 holds. */
  const WHO_AM_I_VALUE: Byte := 0x47
  /** Soft-reset request written to DEVICE_CONFIG. */
  const RESET_COMMAND: Byte := 0x01
  /** Accelerometer and gyroscope on, written to PWR_MGMT0. */
  const POWER_ON_COMMAND: Byte := 0x0F

  /** Length of the bulk read that fetches every data register at once. */
  const DATA_BLOCK_LEN: nat := 14

  /** The data registers as (high byte, low byte) address pairs, in the
      order the device lays them out: temperature, accel X/Y/Z, gyro X/Y/Z. */
  const DataWords: seq<(Byte, Byte)> := [
    (TEMP_DATA1, TEMP_DATA2),
    (ACCEL_DATA_X1, ACCEL_DATA_X0),
    (ACCEL_DATA_Y1, ACCEL_DATA_Y0),
    (ACCEL_DATA_Z1, ACCEL_DATA_Z0),
    (GYRO_DATA_X1, GYRO_DATA_X0),
    (GYRO_DATA_Y1, GYRO_DATA_Y0),
    (GYRO_DATA_Z1, GYRO_DATA_Z0)
  ]

  /** The control registers the driver knows by name. */
  const ControlRegisters: seq<Byte> :=
    [WHO_AM_I, DEVICE_CONFIG, PWR_MGMT0, GYRO_CONFIG0, ACCEL_CONFIG0]

  /** True when `reg` lies in the 14-byte data block starting at TEMP_DATA1. */
  predicate InDataBlock(reg: Byte)
  {
    TEMP_DATA1 as int <= reg as int < TEMP_DATA1 as int + DATA_BLOCK_LEN
  }

  /** Where a data register sits inside the bulk-read buffer. */
  function BlockOffset(reg: Byte): (off: nat)
    requires InDataBlock(reg)
    ensures off < DATA_BLOCK_LEN
    ensures TEMP_DATA1 as int + off == reg as int
  {
    reg as int - TEMP_DATA1 as int
  }

  /** The seven high/low pairs tile the data block: pair `i` occupies
      offsets `2*i` and `2*i + 1`, so the block is exactly 14 consecutive
      addresses from TEMP_DATA1 to GYRO_DATA_Z0 and each low byte follows
      its high byte. */
  lemma DataWordsTileBlock()
    ensures |DataWords| * 2 == DATA_BLOCK_LEN
    ensures forall i :: 0 <= i < |DataWords| ==>
      && InDataBlock(DataWords[i].0) && BlockOffset(DataWords[i].0) == 2 * i
      && InDataBlock(DataWords[i].1) && BlockOffset(DataWords[i].1) == 2 * i + 1
    ensures DataWords[|DataWords| - 1].1 as int == TEMP_DATA1 as int + DATA_BLOCK_LEN - 1
  {
  }

  /** The offsets the bulk read decodes the accelerometer and gyroscope
      from are where those registers really are. */
  lemma BulkReadOffsets()
    ensures BlockOffset(ACCEL_DATA_X1) == 2
    ensures BlockOffset(GYRO_DATA_X1) == 8
    ensures ACCEL_DATA_X1 as int + 6 == GYRO_DATA_X1 as int
  {
  }

  /** The control registers are pairwise distinct and none of them is a
      data register, so no command write can alter a reading's registers. */
  lemma ControlRegistersApart()
    ensures forall i, j :: 0 <= i < j < |ControlRegisters| ==> ControlRegisters[i] != ControlRegisters[j]
    ensures forall i :: 0 <= i < |ControlRegisters| ==> !InDataBlock(ControlRegisters[i])
  {
  }

  /** Every named register fits in seven bits, so an SPI address byte can
      carry it next to the direction flag without losing anything. */
  lemma RegistersFitSevenBits()
    ensures forall i :: 0 <= i < |ControlRegisters| ==> ControlRegisters[i] & 0x7F == ControlRegisters[i]
    ensures forall reg: Byte :: InDataBlock(reg) ==> reg & 0x7F == reg
  {
  }
}
