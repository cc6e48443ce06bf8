/** The big-endian signed 16-bit decoding every read operation applies to a
    (high byte, low byte) pair, and the encoding it inverts. */
module BigEndian {
  import opened Types

  /** The unsigned value of a (high, low) byte pair. */
  function Word(hi: Byte, lo: Byte): (w: nat)
    ensures w < 0x1_0000
  {
    hi as int * 256 + lo as int
  }

  /** Reinterprets an unsigned 16-bit word as two's complement, the intended
      meaning of the driver's cast to `int16_t`. */
  function ToSigned(w: nat): (v: Int16)
    requires w < 0x1_0000
    ensures v % 0x1_0000 == w
    ensures v < 0 <==> w >= 0x8000
  {
    if w < 0x8000 then w else w - 0x1_0000
  }

  /** Decodes two bytes as the driver does: shift the first left by eight,
      OR in the second, and read the 16 bits as a signed value. */
  function Decode(hi: Byte, lo: Byte): (v: Int16)
    ensures v % 0x1_0000 == Word(hi, lo)
    ensures v == if Word(hi, lo) < 0x8000 then Word(hi, lo) else Word(hi, lo) - 0x1_0000
    ensures v < 0 <==> hi & 0x80 != 0
  {
    var bits := ((hi as bv16) << 8) | (lo as bv16);
    ShiftOrIsWord(hi, lo);
    SignBitIsHighHalf(hi);
    ToSigned(bits as int)
  }

  /** Bit 7 of the high byte is set exactly when the word is 0x8000 or more. */
  lemma SignBitIsHighHalf(hi: Byte)
    ensures hi & 0x80 != 0 <==> hi as int >= 128
  {
  }

  /** The bit-level assembly of the C expression equals the arithmetic one. */
  lemma ShiftOrIsWord(hi: Byte, lo: Byte)
    ensures (((hi as bv16) << 8) | (lo as bv16)) as int == Word(hi, lo)
  {
  }

  /** Decodes the pair at offsets `off` and `off + 1` of a read buffer. */
  function DecodeAt(buf: seq<Byte>, off: nat): (v: Int16)
    requires off + 1 < |buf|
    ensures v % 0x1_0000 == buf[off] as int * 256 + buf[off + 1] as int
  {
    Decode(buf[off], buf[off + 1])
  }

  /** Writes a signed 16-bit value as two big-endian bytes. */
  function Encode(v: Int16): (bytes: (Byte, Byte))
    ensures Word(bytes.0, bytes.1) == v % 0x1_0000
  {
    var w := if v < 0 then v as int + 0x1_0000 else v as int;
    DivModWord(w);
    (ByteOf(w / 256), ByteOf(w % 256))
  }

  /** A word splits into a quotient and a remainder by 256 that are both bytes. */
  lemma DivModWord(w: int)
    requires 0 <= w < 0x1_0000
    ensures 0 <= w / 256 < 256 && 0 <= w % 256 < 256
    ensures (w / 256) * 256 + w % 256 == w
  {
  }

  /** The byte holding a number below 256, counted up one step at a time so
      that no proof depends on the solver's integer-to-bit-vector conversion. */
  function ByteOf(x: int): (b: Byte)
    requires 0 <= x < 256
    ensures b as int == x
  {
    if x == 0 then 0 else ByteOf(x - 1) + 1
  }

  /** Encoding then decoding gives back the value. */
  lemma DecodeEncode(v: Int16)
    ensures Decode(Encode(v).0, Encode(v).1) == v
  {
  }

  /** Decoding then encoding gives back the bytes: no two byte pairs decode
      to the same value. */
  lemma EncodeDecode(hi: Byte, lo: Byte)
    ensures Encode(Decode(hi, lo)) == (hi, lo)
  {
    EncodeOfWord(Decode(hi, lo), hi, lo);
  }

  /** Encode produces the one byte pair whose word is `v` modulo 2^16. */
  lemma EncodeOfWord(v: Int16, hi: Byte, lo: Byte)
    requires Word(hi, lo) == v % 0x1_0000
    ensures Encode(v) == (hi, lo)
  {
    var w: int := if v < 0 then v as int + 0x1_0000 else v as int;
    assert w == Word(hi, lo);
    HalvesOfWord(hi, lo);
  }

  /** The bytes a word splits into are the bytes it was built from. */
  lemma HalvesOfWord(hi: Byte, lo: Byte)
    ensures ByteOf(Word(hi, lo) / 256) == hi
    ensures ByteOf(Word(hi, lo) % 256) == lo
  {
    HighHalf(hi, lo);
    LowHalf(hi, lo);
  }

  /** The high byte of a word is the byte it was built from. */
  lemma HighHalf(hi: Byte, lo: Byte)
    ensures ByteOf(Word(hi, lo) / 256) == hi
  {
    var q, r := hi as int, lo as int;
    SplitWord(q, r);
    SameByte(q, hi);
  }

  /** The low byte of a word is the byte it was built from. */
  lemma LowHalf(hi: Byte, lo: Byte)
    ensures ByteOf(Word(hi, lo) % 256) == lo
  {
    var q, r := hi as int, lo as int;
    SplitWord(q, r);
    SameByte(r, lo);
  }

  /** ByteOf of a byte's own value is that byte. */
  lemma SameByte(x: int, b: Byte)
    requires x == b as int
    ensures ByteOf(x) == b
  {
  }

  /** Division by 256 recovers the two halves of a word. */
  lemma SplitWord(q: int, r: int)
    requires 0 <= r < 256
    ensures (q * 256 + r) / 256 == q
    ensures (q * 256 + r) % 256 == r
  {
  }

  /** Decode is injective. */
  lemma DecodeInjective(hi: Byte, lo: Byte, hi': Byte, lo': Byte)
    requires Decode(hi, lo) == Decode(hi', lo')
    ensures hi == hi' && lo == lo'
  {
    EncodeDecode(hi, lo);
    EncodeDecode(hi', lo');
  }

  /** The boundary values of the encoding. */
  lemma DecodeExamples()
    ensures Decode(0x7F, 0xFF) == 32767
    ensures Decode(0x80, 0x00) == -32768
    ensures Decode(0xFF, 0xFF) == -1
    ensures Decode(0x00, 0x00) == 0
    ensures Decode(0xFA, 0xCE) == -1330
  {
  }
}
