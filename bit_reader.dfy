/**
 * The console decoder's bit reader: single bits, fixed-width fields and
 * unsigned Exp-Golomb codes ue(v) (section 9.1 of ITU-T H.264), read most
 * significant bit first over a byte buffer with a bit cursor. The methods
 * work on the bytes as the source does; what they compute is specified
 * over the buffer's bit string Bits(buf).
 */
module BitReader {
  import opened Common

  /** The buffer as a bit string, each byte most significant bit first. */
  function Bits(buf: seq<byte>): (bs: seq<bit>)
    ensures |bs| == 8 * |buf|
  {
    if |buf| == 0 then [] else ByteBits(buf[0]) + Bits(buf[1..])
  }

  function ByteBits(x: byte): (bs: seq<bit>)
    ensures |bs| == 8
  {
    LowBits(x, 8)
  }

  /** The low n bits of x, most significant first. */
  function LowBits(x: nat, n: nat): (bs: seq<bit>)
    ensures |bs| == n
  {
    if n == 0 then [] else LowBits(x / 2, n - 1) + [x % 2]
  }

  /** Bit `j` of `x`, counting from the most significant: (x >> (7 - j)) & 1. */
  function BitOfByte(x: byte, j: nat): bit
    requires j < 8
  {
    var shifted :=
      if j == 0 then x / 128 else if j == 1 then x / 64 else if j == 2 then x / 32
      else if j == 3 then x / 16 else if j == 4 then x / 8 else if j == 5 then x / 4
      else if j == 6 then x / 2 else x;
    shifted % 2
  }

  /** The bits of a byte are the bits readBit takes out of it with shifts. */
  lemma ByteBitsShifts(x: byte)
    ensures ByteBits(x) == [BitOfByte(x, 0), BitOfByte(x, 1), BitOfByte(x, 2), BitOfByte(x, 3),
                            BitOfByte(x, 4), BitOfByte(x, 5), BitOfByte(x, 6), BitOfByte(x, 7)]
  {
    var x1 := x / 2;
    var x2 := x1 / 2;
    var x3 := x2 / 2;
    var x4 := x3 / 2;
    var x5 := x4 / 2;
    var x6 := x5 / 2;
    var x7 := x6 / 2;
    assert x2 == x / 4 && x3 == x / 8 && x4 == x / 16 && x5 == x / 32 && x6 == x / 64 && x7 == x / 128;
    assert LowBits(x7, 1) == [x7 % 2];
    assert LowBits(x6, 2) == LowBits(x7, 1) + [x6 % 2];
    assert LowBits(x5, 3) == LowBits(x6, 2) + [x5 % 2];
    assert LowBits(x4, 4) == LowBits(x5, 3) + [x4 % 2];
    assert LowBits(x3, 5) == LowBits(x4, 4) + [x3 % 2];
    assert LowBits(x2, 6) == LowBits(x3, 5) + [x2 % 2];
    assert LowBits(x1, 7) == LowBits(x2, 6) + [x1 % 2];
    assert LowBits(x, 8) == LowBits(x1, 7) + [x % 2];
  }

  /** Bit `pos` of the buffer is bit `pos % 8` of byte `pos / 8`: the addressing readBit uses. */
  lemma {:induction false} BitsAddressing(buf: seq<byte>, pos: nat)
    requires pos < 8 * |buf|
    ensures Bits(buf)[pos] == BitOfByte(buf[pos / 8], pos % 8)
  {
    if pos < 8 {
      ByteBitsShifts(buf[0]);
    } else {
      BitsAddressing(buf[1..], pos - 8);
      assert (pos - 8) / 8 == pos / 8 - 1 && (pos - 8) % 8 == pos % 8;
    }
  }

  /** The first bit of a buffer is the most significant bit of its first byte. */
  lemma FirstBitOfByte(buf: seq<byte>)
    ensures |buf| > 0 ==> (Bits(buf)[0] == 1 <==> buf[0] >= 128)
  {
    if |buf| > 0 {
      BitsAddressing(buf, 0);
      TopBit(buf[0]);
    }
  }

  lemma TopBit(x: byte)
    ensures BitOfByte(x, 0) == 1 <==> x >= 128
  {
    assert x / 128 < 2;
  }

  /** The `n` bits from `pos` read as an unsigned number, the first bit most significant. */
  function BitsValue(bs: seq<bit>, pos: nat, n: nat): (v: nat)
    requires pos + n <= |bs|
    ensures v < Pow2(n)
  {
    if n == 0 then 0 else 2 * BitsValue(bs, pos, n - 1) + bs[pos + n - 1]
  }

  /** readBit: the bit under the cursor; the cursor moves on by one. */
  method ReadBit(buf: seq<byte>, curBit: nat) returns (b: bit, next: nat)
    requires curBit < 8 * |buf|
    ensures b == Bits(buf)[curBit]
    ensures next == curBit + 1
  {
    var index := curBit / 8;
    var offset := curBit % 8 + 1;
    next := curBit + 1;
    b := BitOfByte(buf[index], offset - 1);
    BitsAddressing(buf, curBit);
  }

  /**
   * readBits: n bits packed most significant first. The source ORs bit i in
   * at position n - i - 1; no two bits share a position, so OR is addition.
   */
  method ReadBits(buf: seq<byte>, n: nat, curBit: nat) returns (r: nat, next: nat)
    requires curBit + n <= 8 * |buf|
    ensures r == BitsValue(Bits(buf), curBit, n) && r < Pow2(n)
    ensures next == curBit + n
  {
    r, next := 0, curBit;
    for i := 0 to n
      invariant next == curBit + i
      invariant r == BitsValue(Bits(buf), curBit, i) * Pow2(n - i)
    {
      var b;
      b, next := ReadBit(buf, next);
      ShiftIn(BitsValue(Bits(buf), curBit, i), b, Pow2(n - i - 1));
      r := r + b * Pow2(n - i - 1);
    }
  }

  lemma ShiftIn(v: nat, b: nat, m: nat)
    ensures v * (2 * m) + b * m == (2 * v + b) * m
  {
  }

  /**
   * The number of consecutive 0 bits from `pos`, stopping at a 1 bit, at the
   * end of the bits, or after `cap` bits.
   */
  function ZeroRun(bs: seq<bit>, pos: nat, cap: nat): (k: nat)
    requires pos <= |bs|
    ensures k <= cap && pos + k <= |bs|
  {
    CountZeros(bs, pos, 0, cap)
  }

  /** ZeroRun with `i` zeros already counted: the loop of bsGetUe as a function. */
  function CountZeros(bs: seq<bit>, pos: nat, i: nat, cap: nat): (k: nat)
    requires i <= cap && pos + i <= |bs|
    ensures i <= k <= cap && pos + k <= |bs|
    decreases cap - i
  {
    if i == cap || pos + i == |bs| || bs[pos + i] == 1 then i
    else CountZeros(bs, pos, i + 1, cap)
  }

  /** ZeroRun's result is a run of zeros ended by a 1, the cap or the end of the bits. */
  lemma ZeroRunSpec(bs: seq<bit>, pos: nat, cap: nat)
    requires pos <= |bs|
    ensures var k := ZeroRun(bs, pos, cap);
      (forall j :: pos <= j < pos + k ==> bs[j] == 0) &&
      (k == cap || pos + k == |bs| || bs[pos + k] == 1)
  {
    CountZerosSpec(bs, pos, 0, cap);
  }

  lemma {:induction false} CountZerosSpec(bs: seq<bit>, pos: nat, i: nat, cap: nat)
    requires i <= cap && pos + i <= |bs|
    requires forall j :: pos <= j < pos + i ==> bs[j] == 0
    ensures var k := CountZeros(bs, pos, i, cap);
      (forall j :: pos <= j < pos + k ==> bs[j] == 0) &&
      (k == cap || pos + k == |bs| || bs[pos + k] == 1)
    decreases cap - i
  {
    if i == cap || pos + i == |bs| || bs[pos + i] == 1 {
    } else {
      CountZerosSpec(bs, pos, i + 1, cap);
    }
  }

  /** Conversely, a run of `k` zeros ended by a 1, the cap or the end of the bits is what ZeroRun counts. */
  lemma ZeroRunUnique(bs: seq<bit>, pos: nat, cap: nat, k: nat)
    requires pos + k <= |bs| && k <= cap
    requires forall j :: pos <= j < pos + k ==> bs[j] == 0
    requires k == cap || pos + k == |bs| || bs[pos + k] == 1
    ensures ZeroRun(bs, pos, cap) == k
  {
    CountZerosUnique(bs, pos, 0, cap, k);
  }

  lemma {:induction false} CountZerosUnique(bs: seq<bit>, pos: nat, i: nat, cap: nat, k: nat)
    requires i <= k <= cap && pos + k <= |bs|
    requires forall j :: pos <= j < pos + k ==> bs[j] == 0
    requires k == cap || pos + k == |bs| || bs[pos + k] == 1
    ensures CountZeros(bs, pos, i, cap) == k
    decreases k - i
  {
    if i < k {
      assert bs[pos + i] == 0;
      CountZerosUnique(bs, pos, i + 1, cap, k);
    }
  }

  /** The source's bound on the zero prefix of a ue(v) code. */
  const MaxPrefix: nat := 32

  datatype UeError =
    | OutOfRange     // a bit past the end of the buffer would be read
    | PrefixTooLong  // 32 leading zeros: the source then computes 1 << 32

  /** A decoded ue(v) value and the cursor just past its code. */
  datatype Ue = Ue(value: nat, next: nat)

  /**
   * What bsGetUe computes: k leading zeros, the terminating 1, k suffix bits;
   * the value is 2^k - 1 + suffix.
   */
  function UeDecode(bs: seq<bit>, pos: nat): Result<Ue, UeError>
    requires pos <= |bs|
  {
    var k := ZeroRun(bs, pos, MaxPrefix);
    if pos + k == |bs| then Err(OutOfRange)
    else if k == MaxPrefix then Err(PrefixTooLong)
    else if pos + 2 * k + 1 > |bs| then Err(OutOfRange)
    else Ok(UeWithPrefix(bs, pos, k))
  }

  /** The code at `pos` whose zero prefix has length k: 2^k - 1 plus the k bits after the 1. */
  function UeWithPrefix(bs: seq<bit>, pos: nat, k: nat): Ue
    requires pos + 2 * k + 1 <= |bs|
  {
    Ue(Pow2(k) - 1 + BitsValue(bs, pos + k + 1, k), pos + 2 * k + 1)
  }

  /**
   * bsGetUe, with the bounds checks the source leaves to its 4-byte pad. The
   * source's loop `while (readBit() == 0 && i < 32) i++;` reads one bit more
   * than it counts; the first read is written out before the loop here.
   */
  method BsGetUe(buf: seq<byte>, curBit: nat) returns (r: Result<Ue, UeError>)
    requires curBit <= 8 * |buf|
    ensures r == UeDecode(Bits(buf), curBit)
  {
    var cur := curBit;
    var i: nat := 0;
    if cur == 8 * |buf| {
      return Err(OutOfRange);
    }
    var b;
    b, cur := ReadBit(buf, cur);
    while b == 0 && i < MaxPrefix
      invariant cur == curBit + i + 1 && cur <= 8 * |buf| && i <= MaxPrefix
      invariant CountZeros(Bits(buf), curBit, i, MaxPrefix) == ZeroRun(Bits(buf), curBit, MaxPrefix)
      invariant b == Bits(buf)[curBit + i]
      decreases 8 * |buf| - cur
    {
      i := i + 1;
      if cur == 8 * |buf| {
        return Err(OutOfRange);
      }
      b, cur := ReadBit(buf, cur);
    }
    if i == MaxPrefix {
      return Err(PrefixTooLong);
    }
    if cur + i > 8 * |buf| {
      return Err(OutOfRange);
    }
    r := ReadUeSuffix(buf, curBit, i, cur);
  }

  /** The tail of bsGetUe: with the zero prefix counted, the k suffix bits. */
  method ReadUeSuffix(buf: seq<byte>, curBit: nat, i: nat, cur: nat) returns (r: Result<Ue, UeError>)
    requires curBit <= 8 * |buf| && ZeroRun(Bits(buf), curBit, MaxPrefix) == i && i < MaxPrefix
    requires cur == curBit + i + 1 && cur + i <= 8 * |buf|
    ensures r == UeDecode(Bits(buf), curBit)
  {
    var suffix, next := ReadBits(buf, i, cur);
    r := Ok(Ue(suffix + Pow2(i) - 1, next));
    UeDecodeOk(Bits(buf), curBit, i);
    UeWithPrefixParts(Bits(buf), curBit, i, suffix);
  }

  /** A zero run shorter than the cap, with room for its suffix, decodes. */
  lemma UeDecodeOk(bs: seq<bit>, pos: nat, k: nat)
    requires pos + 2 * k + 1 <= |bs| && k < MaxPrefix
    requires ZeroRun(bs, pos, MaxPrefix) == k
    ensures UeDecode(bs, pos) == Ok(UeWithPrefix(bs, pos, k))
  {
  }

  lemma UeWithPrefixParts(bs: seq<bit>, pos: nat, k: nat, suffix: nat)
    requires pos + 2 * k + 1 <= |bs|
    requires suffix == BitsValue(bs, pos + k + 1, k)
    ensures UeWithPrefix(bs, pos, k) == Ue(suffix + Pow2(k) - 1, pos + 2 * k + 1)
  {
  }

  /**
   * first_mb_in_slice, the ue(v) that opens a slice header, read from the
   * byte after the NAL header byte at `nal`. It is 0 exactly when the first
   * bit after the header byte is 1.
   */
  function FirstMbInSlice(buf: seq<byte>, nal: nat): (r: Result<nat, UeError>)
    requires nal < |buf|
    ensures r == Ok(0) <==> nal + 1 < |buf| && buf[nal + 1] >= 128
  {
    var u := UeDecode(Bits(buf[nal + 1..]), 0);
    FirstBitOfByte(buf[nal + 1..]);
    match u
    case Ok(d) => Ok(d.value)
    case Err(e) => Err(e)
  }

  /** readFirstMbInSlice: bsGetUe from bit 0 of the byte after the header. */
  method ReadFirstMbInSlice(buf: seq<byte>, nal: nat) returns (r: Result<nat, UeError>)
    requires nal < |buf|
    ensures r == FirstMbInSlice(buf, nal)
  {
    var curBit := 0;
    var u := BsGetUe(buf[nal + 1..], curBit);
    match u
    case Ok(d) => r := Ok(d.value);
    case Err(e) => r := Err(e);
  }
}
