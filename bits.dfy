/**
 * Bit-level arithmetic of the MAX30003 driver: the command byte, the MSB-first
 * split and join of 24-bit register payloads, the 24-to-32-bit sign extension of
 * FIFO samples, the extraction of the 18-bit ECG field and its scaling.
 *
 * C's unsigned shifts and masks are written on non-negative integers:
 * `x >> k` is `x / 2^k`, `x & (2^w - 1)` is `x % 2^w`, and an `|` of values with
 * disjoint bits is `+`.  Integer widths are explicit subset types.
 */
module Bits {

  /** `uint8_t` */
  type Byte = x: int | 0 <= x < 0x100
  /** `uint32_t` */
  type UInt32 = x: int | 0 <= x < 0x1_0000_0000
  /** `int32_t` */
  type Int32 = x: int | -0x8000_0000 <= x < 0x8000_0000
  /** A value that fits in the 24 bits a register transfers. */
  type UInt24 = x: int | 0 <= x < 0x100_0000

  /** `(uint32_t)x`: the bit pattern of an `int32_t` read as unsigned. */
  function ToUInt32(x: Int32): (u: UInt32)
    ensures x >= 0 ==> u == x
    ensures x < 0 ==> u == x + 0x1_0000_0000
  {
    x % 0x1_0000_0000
  }

  /** `(int32_t)u` on a two's-complement target: the inverse of `ToUInt32`. */
  function ToInt32(u: UInt32): (x: Int32)
    ensures ToUInt32(x) == u
  {
    if u < 0x8000_0000 then u else u - 0x1_0000_0000
  }

  /** Whether bit 23 is set (`x & 0x800000` for a non-negative `x`). */
  predicate Bit23(x: nat)
  {
    (x / 0x80_0000) % 2 == 1
  }

  /**
   * The command byte that opens a transaction with register `addr`:
   * `(addr << 1) | rw`, computed in `int` and truncated to the `uint8_t`
   * the byte exchange takes.  The address occupies bits 7..1, the
   * read/write flag bit 0.
   */
  function CommandByte(addr: Byte, read: bool): (c: Byte)
    ensures c / 2 == addr % 0x80
    ensures c % 2 == (if read then 1 else 0)
  {
    (addr * 2 + (if read then 1 else 0)) % 0x100
  }

  /** Joins three bytes received MSB first: `b0 << 16 | b1 << 8 | b2`. */
  function Join24(b0: Byte, b1: Byte, b2: Byte): (v: nat)
    ensures v < 0x100_0000
    ensures v / 0x1_0000 == b0 && (v / 0x100) % 0x100 == b1 && v % 0x100 == b2
  {
    var v := b0 * 0x1_0000 + b1 * 0x100 + b2;
    DivModUnique(v, 0x1_0000, b0, b1 * 0x100 + b2);
    DivModUnique(v, 0x100, b0 * 0x100 + b1, b2);
    DivModUnique(b0 * 0x100 + b1, 0x100, b0, b1);
    v
  }

  /**
   * The three payload bytes of a register write, MSB first:
   * `(data >> 16) & 0xFF`, `(data >> 8) & 0xFF`, `data & 0xFF`.
   * Joining them gives back the low 24 bits of `data`.
   */
  function PayloadBytes(data: UInt32): (bs: seq<Byte>)
    ensures |bs| == 3
    ensures Join24(bs[0], bs[1], bs[2]) == data % 0x100_0000
  {
    JoinOfSplit(data);
    [(data / 0x1_0000) % 0x100, (data / 0x100) % 0x100, data % 0x100]
  }

  /** The three bytes of `data`, joined again, are its low 24 bits. */
  lemma JoinOfSplit(data: nat)
    ensures Join24((data / 0x1_0000) % 0x100, (data / 0x100) % 0x100, data % 0x100) == data % 0x100_0000
  {
    var r := data % 0x100_0000;
    SplitBelow24(data);
    var hi, m := r / 0x1_0000, r % 0x1_0000;
    var mid, lo := m / 0x100, m % 0x100;
    assert r == hi * 0x1_0000 + mid * 0x100 + lo;
    DivModUnique(r, 0x100, hi * 0x100 + mid, lo);
    DivModUnique(hi * 0x100 + mid, 0x100, hi, mid);
  }

  /** The payload bytes only see bits 7..0, 15..8 and 23..16 of `data`. */
  lemma SplitBelow24(data: nat)
    ensures (data / 0x1_0000) % 0x100 == (data % 0x100_0000) / 0x1_0000
    ensures (data / 0x100) % 0x100 == ((data % 0x100_0000) / 0x100) % 0x100
    ensures data % 0x100 == (data % 0x100_0000) % 0x100
  {
    var q, r := data / 0x100_0000, data % 0x100_0000;
    DivModUnique(r, 0x1_0000, r / 0x1_0000, r % 0x1_0000);
    DivModUnique(data, 0x1_0000, q * 0x100 + r / 0x1_0000, r % 0x1_0000);
    DivModUnique(q * 0x100 + r / 0x1_0000, 0x100, q, r / 0x1_0000);
    DivModUnique(r, 0x100, r / 0x100, r % 0x100);
    DivModUnique(data, 0x100, q * 0x1_0000 + r / 0x100, r % 0x100);
    var m := (r / 0x100) % 0x100;
    DivModUnique(r / 0x100, 0x100, (r / 0x100) / 0x100, m);
    DivModUnique(q * 0x1_0000 + r / 0x100, 0x100, q * 0x100 + (r / 0x100) / 0x100, m);
  }

  /** Euclidean division is unique: `q` and `r` are the quotient and remainder of `x` by `k`. */
  lemma DivModUnique(x: int, k: int, q: int, r: int)
    requires k > 0 && 0 <= r < k && x == q * k + r
    ensures x / k == q && x % k == r
  {
    var q', r' := x / k, x % k;
    assert x == q' * k + r';
    var d := q - q';
    assert d * k == r' - r by {
      assert q * k - q' * k == (q - q') * k;
    }
    if d >= 1 {
      assert d * k == (d - 1) * k + k;
      MulNonNeg(d - 1, k);
    } else if d <= -1 {
      assert -d * k == (-d - 1) * k + k;
      MulNonNeg(-d - 1, k);
    }
  }

  lemma MulNonNeg(a: int, b: int)
    requires a >= 0 && b >= 0
    ensures a * b >= 0
  {
  }

  /** Splitting a joined word gives back the three bytes. */
  lemma PayloadOfJoin(b0: Byte, b1: Byte, b2: Byte)
    ensures PayloadBytes(Join24(b0, b1, b2)) == [b0, b1, b2]
  {
  }

  /** Bits above 23 of a written value never reach the wire. */
  lemma PayloadIgnoresHighBits(data: UInt32)
    ensures PayloadBytes(data) == PayloadBytes(data % 0x100_0000)
  {
    var lo24 := data % 0x100_0000;
    SplitBelow24(data);
    assert lo24 % 0x100_0000 == lo24;
    assert PayloadBytes(lo24) == [lo24 / 0x1_0000 % 0x100, (lo24 / 0x100) % 0x100, lo24 % 0x100];
  }

  /**
   * `max30003_read_ecg_sample`'s widening of the 24-bit FIFO word `v`: when
   * bit 23 is set the upper byte is filled with ones (`value |= 0xFF000000`)
   * and the 32-bit pattern is read as `int32_t`.  The result is the 24-bit
   * two's-complement value of `v`, and its low 24 bits are `v` again.
   */
  function SignExtend24(v: UInt24): (s: Int32)
    ensures s == if v < 0x80_0000 then v else v - 0x100_0000
    ensures -0x80_0000 <= s < 0x80_0000
    ensures s % 0x100_0000 == v
  {
    ToInt32(if Bit23(v) then v + 0xFF00_0000 else v)
  }

  /** Sign extension is inverted by keeping the low 24 bits. */
  lemma {:induction false} SignExtendOfLow24(s: int)
    requires -0x80_0000 <= s < 0x80_0000
    ensures SignExtend24(s % 0x100_0000) == s
  {
  }

  /**
   * `max30003_convert_to_mv`'s integer part: bits 6..23 of the sample's bit
   * pattern (`(raw >> 6) & 0x3FFFF`) read as an 18-bit two's-complement
   * number (less `0x40000` when bit 17, `0x20000`, is set).  The result is
   * the one value in [-2^17, 2^17) congruent to that field modulo 2^18.
   */
  function EcgField(raw: Int32): (f: int)
    ensures -0x2_0000 <= f < 0x2_0000
    ensures (f - ToUInt32(raw) / 0x40) % 0x4_0000 == 0
  {
    var u := (ToUInt32(raw) / 0x40) % 0x4_0000;
    if (u / 0x2_0000) % 2 == 1 then u - 0x4_0000 else u
  }

  /** Bits 6..23 of `x` only depend on the low 24 bits of `x`. */
  lemma FieldBitsBelow24(x: nat)
    ensures (x / 0x40) % 0x4_0000 == ((x % 0x100_0000) / 0x40) % 0x4_0000
  {
    var q, r := x / 0x100_0000, x % 0x100_0000;
    DivModUnique(r, 0x40, r / 0x40, r % 0x40);
    DivModUnique(x, 0x40, q * 0x4_0000 + r / 0x40, r % 0x40);
    DivModUnique(r / 0x40, 0x4_0000, 0, r / 0x40);
    DivModUnique(q * 0x4_0000 + r / 0x40, 0x4_0000, q, r / 0x40);
  }

  /** The ECG field depends on bits 6..23 of the sample only. */
  lemma EcgFieldLow24(r1: Int32, r2: Int32)
    requires r1 % 0x100_0000 == r2 % 0x100_0000
    ensures EcgField(r1) == EcgField(r2)
  {
    Low24OfUInt32(r1);
    Low24OfUInt32(r2);
    FieldBitsBelow24(ToUInt32(r1));
    FieldBitsBelow24(ToUInt32(r2));
  }

  /** Reading an `int32_t` as unsigned keeps its low 24 bits. */
  lemma Low24OfUInt32(x: Int32)
    ensures ToUInt32(x) % 0x100_0000 == x % 0x100_0000
  {
    var q, m := x / 0x100_0000, x % 0x100_0000;
    if x < 0 {
      DivModUnique(ToUInt32(x), 0x100_0000, q + 0x100, m);
    }
  }

  /** A sign-extended sample and its unsigned 24-bit pattern give the same field. */
  lemma EcgFieldOfSignExtended(v: UInt24)
    ensures EcgField(SignExtend24(v)) == EcgField(v)
  {
    EcgFieldLow24(SignExtend24(v), v);
  }

  /** The 24-bit sample carrying ECG field `f` in bits 6..23 and `low` in bits 0..5. */
  function PlaceField(f: int, low: nat): (v: UInt24)
    requires -0x2_0000 <= f < 0x2_0000 && low < 0x40
    ensures v % 0x40 == low
  {
    (f % 0x4_0000) * 0x40 + low
  }

  /** Extraction recovers a placed field whatever the low six bits, from the sign-extended sample too. */
  lemma EcgFieldOfPlaced(f: int, low: nat)
    requires -0x2_0000 <= f < 0x2_0000 && low < 0x40
    ensures EcgField(PlaceField(f, low)) == f
    ensures EcgField(SignExtend24(PlaceField(f, low))) == f
  {
    var v := PlaceField(f, low);
    assert v / 0x40 == f % 0x4_0000;
    EcgFieldOfSignExtended(v);
  }

  /** Every 24-bit sample is its ECG field placed over its low six bits. */
  lemma PlaceFieldOfEcgField(v: UInt24)
    ensures PlaceField(EcgField(v), v % 0x40) == v
  {
    var u := v / 0x40;
    assert (EcgField(v) - u) % 0x4_0000 == 0;
    assert EcgField(v) % 0x4_0000 == u;
  }

  /**
   * The conversion's exact value over the reals: field * 1000 / (2^17 * 20)
   * with the 1.0 V reference, the 18-bit ADC and the gain of 20 V/V.
   */
  function Millivolts(raw: Int32): (mv: real)
    ensures -50.0 <= mv < 50.0
    ensures mv * 2621440.0 == EcgField(raw) as real * 1000.0
  {
    EcgField(raw) as real * 1000.0 / (131072.0 * 20.0)
  }

  /** The most negative field is exactly -50 mV. */
  lemma MillivoltsFullScale()
    ensures Millivolts(PlaceField(-0x2_0000, 0)) == -50.0
  {
    EcgFieldOfPlaced(-0x2_0000, 0);
  }
}
