/** The bus capability the sensor driver is given (`icm42688_bus_t`) and
    the record of what the driver asked of it.

    The C capability is a pair of function pointers that take a register,
    a buffer and a 16-bit length and return an `int` status, 0 meaning
    success. Here the two operations are total functions that act as an
    oracle: a read request yields a status and the bytes that landed in the
    buffer, a write request yields a status. Every request the driver makes
    is logged as a `BusEvent`, so a driver call's effect on the bus is its
    trace. */
module BusInterface {
  import opened Types

  /** What a read leaves behind: the status it returned and the buffer. */
  datatype ReadReply = ReadReply(status: int, data: seq<Byte>)

  /** The two operations of the capability. */
  datatype Bus = Bus(
    read: (Byte, U16) -> ReadReply,
    write: (Byte, seq<Byte>) -> int)

  /** One request issued to the bus. */
  datatype BusEvent =
    | Read(reg: Byte, len: U16)
    | Write(reg: Byte, data: seq<Byte>)

  /** A driver call's result together with the requests it issued. */
  datatype Traced<+T> = Traced(result: T, trace: seq<BusEvent>)

  /** The transport's side of the contract for one request: a read that
      reports success has filled exactly the `len` bytes asked for. */
  predicate Delivers(bus: Bus, reg: Byte, len: U16)
  {
    bus.read(reg, len).status == 0 ==> |bus.read(reg, len).data| == len
  }

  /** The registers a trace writes to. */
  function WrittenRegisters(trace: seq<BusEvent>): (regs: set<Byte>)
    ensures forall i :: 0 <= i < |trace| && trace[i].Write? ==> trace[i].reg in regs
    ensures forall reg :: reg in regs ==> exists i :: 0 <= i < |trace| && trace[i].Write? && trace[i].reg == reg
  {
    if trace == [] then {}
    else
      var rest := WrittenRegisters(trace[1..]);
      assert forall i :: 1 <= i < |trace| ==> trace[i] == trace[1..][i - 1];
      if trace[0].Write? then {trace[0].reg} + rest else rest
  }

  /** True when a trace contains no write at all. */
  predicate ReadOnly(trace: seq<BusEvent>)
  {
    forall i :: 0 <= i < |trace| ==> trace[i].Read?
  }

  /** The contents of a device's register file, by numeric address. */
  type RegisterFile = int -> Byte

  /** The `len` registers of `image` from `reg` onward, as a device with
      that register file returns them to a burst read. */
  function Registers(image: RegisterFile, reg: Byte, len: nat): (bytes: seq<Byte>)
    ensures |bytes| == len
    ensures forall i :: 0 <= i < len ==> bytes[i] == image(reg as int + i)
  {
    seq(len, i requires 0 <= i < len => image(reg as int + i))
  }

  /** The bus answers the read of `len` bytes at `reg` successfully, with the
      contents of the register file `image`. */
  predicate Serves(bus: Bus, image: RegisterFile, reg: Byte, len: U16)
  {
    bus.read(reg, len) == ReadReply(0, Registers(image, reg, len))
  }
}
