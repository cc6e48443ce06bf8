/** Machine-level value types shared by the driver model.
    The C driver works on `uint8_t` bytes, `uint16_t` lengths and `int16_t`
    readings; here they are a bit-vector and two ranges of mathematical
    integers, so that every width is explicit. */
module Types {

  /** One register-bus byte (`uint8_t`). */
  type Byte = bv8

  /** A transfer length (`uint16_t`). */
  type U16 = n: int | 0 <= n < 0x1_0000

  /** A signed 16-bit reading (`int16_t`). */
  type Int16 = n: int | -0x8000 <= n < 0x8000

  /** The outcome of a driver call: a value, or the C status code that the
      call returns instead. */
  datatype Result<+T> = Ok(value: T) | Err(code: int)
}
