/** SPI transport for the sensor bus (`spi_driver.c`): the address byte with
    its direction flag, and the chip-select framing around each transfer.
    The HAL's transmit and receive results are parameters; the GPIO writes
    and transfers the wrappers perform are recorded as a trace. */
module Spi {
  import opened Types

  /** Bit 7 of the address byte: set for a read, clear for a write. */
  const READ_FLAG: Byte := 0x80

  // ---------------------------------------------------------------------
  // Address bytes.

  /** The address byte of a read of `reg`. */
  function ReadAddressByte(reg: Byte): (a: Byte)
    ensures a & READ_FLAG == READ_FLAG
    ensures a & 0x7F == reg & 0x7F
  {
    reg | READ_FLAG
  }

  /** The address byte of a write to `reg`. */
  function WriteAddressByte(reg: Byte): (a: Byte)
    ensures a & READ_FLAG == 0
    ensures a & 0x7F == reg & 0x7F
  {
    reg & 0x7F
  }

  /** What the device takes an address byte to mean. */
  datatype Access = Access(isRead: bool, reg: Byte)

  /** Splits an address byte into its direction bit and 7-bit register. */
  function ParseAddressByte(a: Byte): (acc: Access)
    ensures acc.reg < 0x80
    ensures acc.isRead <==> a >= 0x80
    ensures acc.reg | (a & READ_FLAG) == a
  {
    Access(a & READ_FLAG != 0, a & 0x7F)
  }

  /** The device reads back the direction and register the driver meant,
      for every register that fits in seven bits. */
  lemma AddressBytesRoundTrip(reg: Byte)
    requires reg < 0x80
    ensures ParseAddressByte(ReadAddressByte(reg)) == Access(true, reg)
    ensures ParseAddressByte(WriteAddressByte(reg)) == Access(false, reg)
  {
  }

  /** The read and write address bytes of one register differ in the
      direction bit and nowhere else. */
  lemma AddressBytesDifferInFlagOnly(reg: Byte)
    ensures ReadAddressByte(reg) ^ WriteAddressByte(reg) == READ_FLAG
    ensures ReadAddressByte(reg) == WriteAddressByte(reg) | READ_FLAG
  {
  }

  // ---------------------------------------------------------------------
  // Chip-select framing.

  /** The chip-select pin level; CS is active low. */
  datatype PinLevel = Low | High

  /** HAL_StatusTypeDef. */
  datatype HalStatus = HalOk | HalError | HalBusy | HalTimeout

  /** One action of the SPI wrappers on the hardware. */
  datatype SpiEvent =
    | ChipSelect(level: PinLevel)
    | Transmit(bytes: seq<Byte>)
    | Receive(len: U16)

  /** `spi_cs_enable` and `spi_cs_disable`. */
  const CsEnable: SpiEvent := ChipSelect(Low)
  const CsDisable: SpiEvent := ChipSelect(High)

  /** A wrapper call: its status, the bytes it received (empty unless a
      read succeeded) and what it did on the pins and the wire. */
  datatype Transaction = Transaction(status: int, received: seq<Byte>, trace: seq<SpiEvent>)

  // Status codes of the wrappers.
  const SPI_OK: int := 0
  const ERR_ADDRESS: int := -1
  const ERR_TRANSFER: int := -2

  /** A single framed transaction: select, one or more transfers, deselect. */
  predicate Framed(trace: seq<SpiEvent>)
  {
    && |trace| >= 3
    && trace[0] == CsEnable
    && trace[|trace| - 1] == CsDisable
    && forall i :: 0 < i < |trace| - 1 ==> !trace[i].ChipSelect?
  }

  /** The CS level after replaying `trace` from `level`. */
  function LevelAfter(level: PinLevel, trace: seq<SpiEvent>): PinLevel
    decreases |trace|
  {
    if trace == [] then level
    else if trace[0].ChipSelect? then LevelAfter(trace[0].level, trace[1..])
    else LevelAfter(level, trace[1..])
  }

  /** Replaying `trace` from `level`, every transfer happens while the
      device is selected. */
  predicate TransfersSelected(level: PinLevel, trace: seq<SpiEvent>)
    decreases |trace|
  {
    if trace == [] then true
    else if trace[0].ChipSelect? then TransfersSelected(trace[0].level, trace[1..])
    else level == Low && TransfersSelected(level, trace[1..])
  }

  /** `spi_read_wrapper`: select, send the read address byte, receive `len`
      bytes, deselect. A failed address transmit returns -1 before any
      receive; a failed receive returns -2; CS is released on every path. */
  function ReadWrapper(reg: Byte, len: U16, addressStatus: HalStatus, receiveStatus: HalStatus, rx: seq<Byte>): (t: Transaction)
    requires |rx| == len
    ensures Framed(t.trace)
    ensures multiset(t.trace)[CsEnable] == 1 && multiset(t.trace)[CsDisable] == 1
    ensures t.trace[1] == Transmit([ReadAddressByte(reg)])
    ensures forall i :: 1 < i < |t.trace| - 1 ==> t.trace[i] == Receive(len)
    ensures t.status == ERR_ADDRESS <==> addressStatus != HalOk
    ensures |t.trace| == if addressStatus == HalOk then 4 else 3
    ensures Receive(len) in t.trace <==> addressStatus == HalOk
    ensures t.status == ERR_TRANSFER <==> addressStatus == HalOk && receiveStatus != HalOk
    ensures t.status == SPI_OK <==> addressStatus == HalOk && receiveStatus == HalOk
    ensures t.received == if t.status == SPI_OK then rx else []
  {
    var address := Transmit([ReadAddressByte(reg)]);
    if addressStatus != HalOk then
      Transaction(ERR_ADDRESS, [], [CsEnable, address, CsDisable])
    else if receiveStatus != HalOk then
      Transaction(ERR_TRANSFER, [], [CsEnable, address, Receive(len), CsDisable])
    else
      Transaction(SPI_OK, rx, [CsEnable, address, Receive(len), CsDisable])
  }

  /** `spi_write_wrapper`: select, send the write address byte, send the
      payload, deselect. A failed address transmit returns -1 and the
      payload is never sent; a failed payload transmit returns -2; CS is
      released on every path. */
  function WriteWrapper(reg: Byte, data: seq<Byte>, addressStatus: HalStatus, dataStatus: HalStatus): (t: Transaction)
    requires |data| < 0x1_0000
    ensures Framed(t.trace)
    ensures multiset(t.trace)[CsEnable] == 1 && multiset(t.trace)[CsDisable] == 1
    ensures t.trace[1] == Transmit([WriteAddressByte(reg)])
    ensures forall i :: 1 < i < |t.trace| - 1 ==> t.trace[i] == Transmit(data)
    ensures t.status == ERR_ADDRESS <==> addressStatus != HalOk
    ensures |t.trace| == if addressStatus == HalOk then 4 else 3
    ensures Transmit(data) in t.trace[2..] <==> addressStatus == HalOk
    ensures t.status == ERR_TRANSFER <==> addressStatus == HalOk && dataStatus != HalOk
    ensures t.status == SPI_OK <==> addressStatus == HalOk && dataStatus == HalOk
    ensures t.received == []
  {
    var address := Transmit([WriteAddressByte(reg)]);
    if addressStatus != HalOk then
      Transaction(ERR_ADDRESS, [], [CsEnable, address, CsDisable])
    else if dataStatus != HalOk then
      Transaction(ERR_TRANSFER, [], [CsEnable, address, Transmit(data), CsDisable])
    else
      Transaction(SPI_OK, [], [CsEnable, address, Transmit(data), CsDisable])
  }

  // ---------------------------------------------------------------------
  // Framing lemmas.

  /** Replaying a concatenation is replaying its halves in turn. */
  lemma {:induction false} ReplayAppend(level: PinLevel, a: seq<SpiEvent>, b: seq<SpiEvent>)
    ensures LevelAfter(level, a + b) == LevelAfter(LevelAfter(level, a), b)
    ensures TransfersSelected(level, a + b) == (TransfersSelected(level, a) && TransfersSelected(LevelAfter(level, a), b))
    decreases |a|
  {
    if a == [] {
      assert a + b == b;
    } else {
      assert (a + b)[1..] == a[1..] + b;
      var next := if a[0].ChipSelect? then a[0].level else level;
      ReplayAppend(next, a[1..], b);
    }
  }

  /** A run of transfers leaves CS where it was, and is selected
      throughout when CS starts low. */
  lemma {:induction false} TransfersKeepLevel(level: PinLevel, run: seq<SpiEvent>)
    requires forall i :: 0 <= i < |run| ==> !run[i].ChipSelect?
    ensures LevelAfter(level, run) == level
    ensures level == Low ==> TransfersSelected(level, run)
    decreases |run|
  {
    if run != [] {
      TransfersKeepLevel(level, run[1..]);
    }
  }

  /** A framed transaction started with CS idle high transfers only while
      selected and leaves CS high again. */
  lemma FramedIsSelected(trace: seq<SpiEvent>)
    requires Framed(trace)
    ensures TransfersSelected(High, trace)
    ensures LevelAfter(High, trace) == High
  {
    var n := |trace|;
    var middle := trace[1..n - 1];
    assert trace == [trace[0]] + middle + [trace[n - 1]];
    TransfersKeepLevel(Low, middle);
    ReplayAppend(High, [trace[0]], middle);
    ReplayAppend(High, [trace[0]] + middle, [trace[n - 1]]);
  }

  /** The events of consecutive transactions, in order. */
  function Flatten(traces: seq<seq<SpiEvent>>): seq<SpiEvent>
  {
    if traces == [] then [] else traces[0] + Flatten(traces[1..])
  }

  /** Any sequence of wrapper calls, starting from an idle bus, never
      transfers while CS is released and leaves CS released. */
  lemma {:induction false} SessionIsSelected(traces: seq<seq<SpiEvent>>)
    requires forall i :: 0 <= i < |traces| ==> Framed(traces[i])
    ensures TransfersSelected(High, Flatten(traces))
    ensures LevelAfter(High, Flatten(traces)) == High
    decreases |traces|
  {
    if traces != [] {
      FramedIsSelected(traces[0]);
      SessionIsSelected(traces[1..]);
      ReplayAppend(High, traces[0], Flatten(traces[1..]));
    }
  }

  /** Every outcome of either wrapper is a framed transaction, so a session
      made of wrapper calls keeps CS discipline. */
  lemma WrappersAreSelected(reg: Byte, len: U16, rx: seq<Byte>, data: seq<Byte>, s1: HalStatus, s2: HalStatus)
    requires |rx| == len && |data| < 0x1_0000
    ensures TransfersSelected(High, ReadWrapper(reg, len, s1, s2, rx).trace)
    ensures TransfersSelected(High, WriteWrapper(reg, data, s1, s2).trace)
  {
    FramedIsSelected(ReadWrapper(reg, len, s1, s2, rx).trace);
    FramedIsSelected(WriteWrapper(reg, data, s1, s2).trace);
  }
}
