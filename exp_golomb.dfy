/**
 * The encoder side of the unsigned Exp-Golomb code ue(v) of section 9.1 of
 * ITU-T H.264, used as an independent reference for the decoder in
 * BitReader: every value whose code fits the decoder's 32-zero prefix bound
 * decodes back to itself, and every successful decode read a canonical code.
 */
module ExpGolomb {
  import opened Common
  import opened BitReader

  /** `code` lies in `bs` from bit `pos` on. */
  predicate Matches(bs: seq<bit>, pos: nat, code: seq<bit>)
  {
    pos + |code| <= |bs| && bs[pos..pos + |code|] == code
  }

  lemma MatchesAt(bs: seq<bit>, pos: nat, code: seq<bit>, i: nat)
    requires Matches(bs, pos, code) && i < |code|
    ensures bs[pos + i] == code[i]
  {
    assert bs[pos..pos + |code|][i] == bs[pos + i];
  }

  /** Codes placed one after the other match their concatenation, and conversely. */
  lemma MatchesConcat(bs: seq<bit>, pos: nat, a: seq<bit>, b: seq<bit>)
    requires Matches(bs, pos, a) && Matches(bs, pos + |a|, b)
    ensures Matches(bs, pos, a + b)
  {
    assert bs[pos..pos + |a| + |b|] == bs[pos..pos + |a|] + bs[pos + |a|..pos + |a| + |b|];
  }

  lemma MatchesSplit(bs: seq<bit>, pos: nat, a: seq<bit>, b: seq<bit>)
    requires Matches(bs, pos, a + b)
    ensures Matches(bs, pos, a) && Matches(bs, pos + |a|, b)
  {
    var w := bs[pos..pos + |a| + |b|];
    assert bs[pos..pos + |a|] == w[..|a|] && w[..|a|] == a;
    assert bs[pos + |a|..pos + |a| + |b|] == w[|a|..] && w[|a|..] == b;
  }

  /** k zeros in `bs` from `pos` on, said bit by bit. */
  lemma MatchesZeros(bs: seq<bit>, pos: nat, k: nat)
    requires pos + k <= |bs|
    ensures Matches(bs, pos, Zeros(k)) <==> forall j :: pos <= j < pos + k ==> bs[j] == 0
  {
    if forall j :: pos <= j < pos + k ==> bs[j] == 0 {
      assert bs[pos..pos + k] == Zeros(k) by {
        forall i | 0 <= i < k
          ensures bs[pos..pos + k][i] == Zeros(k)[i]
        {
          assert bs[pos..pos + k][i] == bs[pos + i];
        }
      }
    }
    if Matches(bs, pos, Zeros(k)) {
      forall j | pos <= j < pos + k
        ensures bs[j] == 0
      {
        MatchesAt(bs, pos, Zeros(k), j - pos);
      }
    }
  }

  /** The w-bit binary form of v, most significant bit first. */
  function ToBits(v: nat, w: nat): (code: seq<bit>)
    requires v < Pow2(w)
    ensures |code| == w
  {
    if w == 0 then [] else ToBits(v / 2, w - 1) + [v % 2]
  }

  function Zeros(k: nat): (code: seq<bit>)
    ensures |code| == k && forall i :: 0 <= i < k ==> code[i] == 0
  {
    if k == 0 then [] else Zeros(k - 1) + [0]
  }

  /** floor(log2(m)). */
  function Log2(m: nat): (k: nat)
    requires m >= 1
    ensures Pow2(k) <= m < Pow2(k + 1)
  {
    if m == 1 then 0 else 1 + Log2(m / 2)
  }

  lemma {:induction false} Log2Unique(m: nat, k: nat)
    requires Pow2(k) <= m < Pow2(k + 1)
    ensures Log2(m) == k
  {
    var j := Log2(m);
    if j < k {
      Pow2Monotonic(j + 1, k);
    } else if k < j {
      Pow2Monotonic(k + 1, j);
    }
  }

  /** The ue(v) code of n: k zeros, a 1, then n + 1 - 2^k in k bits, where 2^k <= n + 1 < 2^(k+1). */
  function UeEncode(n: nat): (code: seq<bit>)
    ensures |code| == 2 * Log2(n + 1) + 1
  {
    var k := Log2(n + 1);
    Zeros(k) + [1] + ToBits(n + 1 - Pow2(k), k)
  }

  /** Reading back the w bits of ToBits(v, w) gives v. */
  lemma {:induction false} BitsValueOfToBits(bs: seq<bit>, pos: nat, v: nat, w: nat)
    requires v < Pow2(w) && Matches(bs, pos, ToBits(v, w))
    ensures BitsValue(bs, pos, w) == v
  {
    if w > 0 {
      var front := ToBits(v / 2, w - 1);
      MatchesSplit(bs, pos, front, [v % 2]);
      BitsValueOfToBits(bs, pos, v / 2, w - 1);
      MatchesAt(bs, pos + (w - 1), [v % 2], 0);
    }
  }

  /** Conversely, the w bits from pos are the binary form of their value. */
  lemma {:induction false} ToBitsOfBitsValue(bs: seq<bit>, pos: nat, w: nat)
    requires pos + w <= |bs|
    ensures Matches(bs, pos, ToBits(BitsValue(bs, pos, w), w))
  {
    if w > 0 {
      var v := BitsValue(bs, pos, w);
      var front := BitsValue(bs, pos, w - 1);
      assert v / 2 == front && v % 2 == bs[pos + w - 1];
      ToBitsOfBitsValue(bs, pos, w - 1);
      assert Matches(bs, pos + (w - 1), [bs[pos + w - 1]]);
      MatchesConcat(bs, pos, ToBits(front, w - 1), [bs[pos + w - 1]]);
    }
  }

  /** 2^32: the values whose code has fewer than 32 leading zeros are those n with n + 1 below it. */
  const ValueCap: nat := 0x1_0000_0000

  lemma ValueCapIsPow2()
    ensures Pow2(MaxPrefix) == ValueCap
  {
    Pow2Sum(8, 8);
    Pow2Sum(16, 16);
  }

  lemma {:induction false} Pow2Sum(a: nat, b: nat)
    ensures Pow2(a + b) == Pow2(a) * Pow2(b)
  {
    if b > 0 {
      Pow2Sum(a, b - 1);
    }
  }

  /** A value whose code has fewer than 32 leading zeros: n + 1 < 2^32. */
  lemma PrefixBelowCap(n: nat)
    requires n + 1 < ValueCap
    ensures Log2(n + 1) < MaxPrefix
  {
    ValueCapIsPow2();
    if Log2(n + 1) >= MaxPrefix {
      Pow2Monotonic(MaxPrefix, Log2(n + 1));
    }
  }

  /** Round trip: the decoder reads back any value it can represent from its code. */
  lemma UeRoundTrip(bs: seq<bit>, pos: nat, n: nat)
    requires n + 1 < ValueCap
    requires Matches(bs, pos, UeEncode(n))
    ensures UeDecode(bs, pos) == Ok(Ue(n, pos + |UeEncode(n)|))
  {
    var k := Log2(n + 1);
    var s := n + 1 - Pow2(k);
    PrefixBelowCap(n);
    EncodingParts(bs, pos, n, k, s);
    BitsValueOfToBits(bs, pos + k + 1, s, k);
    DecodeParts(bs, pos, k, s, n, pos + |UeEncode(n)|);
  }

  /** k < 32 zeros, a 1 and k bits of value s decode to n = 2^k - 1 + s, after 2k + 1 bits. */
  lemma DecodeParts(bs: seq<bit>, pos: nat, k: nat, s: nat, n: nat, next: nat)
    requires pos + 2 * k + 1 <= |bs| && k < MaxPrefix
    requires forall j :: pos <= j < pos + k ==> bs[j] == 0
    requires bs[pos + k] == 1 && s == BitsValue(bs, pos + k + 1, k)
    requires n == s + Pow2(k) - 1 && next == pos + 2 * k + 1
    ensures UeDecode(bs, pos) == Ok(Ue(n, next))
  {
    ZeroRunUnique(bs, pos, MaxPrefix, k);
    UeDecodeOk(bs, pos, k);
    UeWithPrefixParts(bs, pos, k, s);
  }

  /** What a matched code says bit by bit: k zeros, a 1, and the suffix. */
  lemma EncodingParts(bs: seq<bit>, pos: nat, n: nat, k: nat, s: nat)
    requires Matches(bs, pos, UeEncode(n))
    requires k == Log2(n + 1) && s == n + 1 - Pow2(k)
    ensures pos + 2 * k + 1 <= |bs| && |UeEncode(n)| == 2 * k + 1
    ensures (forall j :: pos <= j < pos + k ==> bs[j] == 0) && bs[pos + k] == 1
    ensures s < Pow2(k) && Matches(bs, pos + k + 1, ToBits(s, k))
  {
    assert UeEncode(n) == Zeros(k) + [1] + ToBits(s, k);
    MatchesSplit(bs, pos, Zeros(k) + [1], ToBits(s, k));
    MatchesSplit(bs, pos, Zeros(k), [1]);
    MatchesZeros(bs, pos, k);
    MatchesAt(bs, pos + k, [1], 0);
  }

  /** Canonicity: a successful decode consumed exactly the code of the value it returns. */
  lemma UeDecodeIsEncoding(bs: seq<bit>, pos: nat)
    requires pos <= |bs| && UeDecode(bs, pos).Ok?
    ensures var u := UeDecode(bs, pos).value;
      Matches(bs, pos, UeEncode(u.value)) && u.next == pos + |UeEncode(u.value)| &&
      u.value + 1 < ValueCap
  {
    var k := ZeroRun(bs, pos, MaxPrefix);
    ZeroRunSpec(bs, pos, MaxPrefix);
    UeDecodeOk(bs, pos, k);
    PrefixEncoding(bs, pos, k);
  }

  /** A run of k < 32 zeros, a 1 and k more bits is the code of the value it decodes to. */
  lemma PrefixEncoding(bs: seq<bit>, pos: nat, k: nat)
    requires pos + 2 * k + 1 <= |bs| && k < MaxPrefix
    requires forall j :: pos <= j < pos + k ==> bs[j] == 0
    requires bs[pos + k] == 1
    ensures var u := UeWithPrefix(bs, pos, k);
      Matches(bs, pos, UeEncode(u.value)) && u.next == pos + |UeEncode(u.value)| &&
      u.value + 1 < ValueCap
  {
    var s := BitsValue(bs, pos + k + 1, k);
    var u := UeWithPrefix(bs, pos, k);
    UeWithPrefixParts(bs, pos, k, s);
    ToBitsOfBitsValue(bs, pos + k + 1, k);
    MatchesZeros(bs, pos, k);
    MatchesEncoding(bs, pos, k, s, u.value);
  }

  /** k < 32 zeros, a 1 and the k-bit form of s are the code of n = 2^k - 1 + s, which is below the cap. */
  lemma MatchesEncoding(bs: seq<bit>, pos: nat, k: nat, s: nat, n: nat)
    requires s < Pow2(k) && k < MaxPrefix && n + 1 == s + Pow2(k)
    requires Matches(bs, pos, Zeros(k)) && Matches(bs, pos + k, [1])
    requires Matches(bs, pos + k + 1, ToBits(s, k))
    ensures Matches(bs, pos, UeEncode(n)) && |UeEncode(n)| == 2 * k + 1
    ensures n + 1 < ValueCap
  {
    Pow2Monotonic(k + 1, MaxPrefix);
    ValueCapIsPow2();
    EncodeByPrefix(n, k);
    MatchesConcat(bs, pos, Zeros(k), [1]);
    MatchesConcat(bs, pos, Zeros(k) + [1], ToBits(s, k));
  }

  /** The code of n spelled out with its prefix length k. */
  lemma EncodeByPrefix(n: nat, k: nat)
    requires Pow2(k) <= n + 1 < Pow2(k + 1)
    ensures UeEncode(n) == Zeros(k) + [1] + ToBits(n + 1 - Pow2(k), k)
  {
    Log2Unique(n + 1, k);
  }

  /** Eight bits, most significant first, as a byte. */
  function PackByte(b: seq<bit>): (x: byte)
    requires |b| == 8
  {
    128 * (b[0] as int) + 64 * (b[1] as int) + 32 * (b[2] as int) + 16 * (b[3] as int) +
    8 * (b[4] as int) + 4 * (b[5] as int) + 2 * (b[6] as int) + (b[7] as int)
  }

  /** A bit string of whole bytes as the byte buffer the bit reader reads. */
  function Pack(bs: seq<bit>): (buf: seq<byte>)
    requires |bs| % 8 == 0
    ensures |buf| == |bs| / 8
  {
    if |bs| == 0 then [] else [PackByte(bs[..8])] + Pack(bs[8..])
  }

  lemma ByteBitsOfPackByte(b: seq<bit>)
    requires |b| == 8
    ensures ByteBits(PackByte(b)) == b
  {
    var x := PackByte(b);
    var b0, b1, b2, b3 := b[0] as int, b[1] as int, b[2] as int, b[3] as int;
    var b4, b5, b6, b7 := b[4] as int, b[5] as int, b[6] as int, b[7] as int;
    LastBit(0, b0);
    LastBit(b0, b1);
    LastBit(2 * b0 + b1, b2);
    LastBit(4 * b0 + 2 * b1 + b2, b3);
    LastBit(8 * b0 + 4 * b1 + 2 * b2 + b3, b4);
    LastBit(16 * b0 + 8 * b1 + 4 * b2 + 2 * b3 + b4, b5);
    LastBit(32 * b0 + 16 * b1 + 8 * b2 + 4 * b3 + 2 * b4 + b5, b6);
    LastBit(64 * b0 + 32 * b1 + 16 * b2 + 8 * b3 + 4 * b4 + 2 * b5 + b6, b7);
    assert x / 128 == b0;
    assert x / 64 == 2 * b0 + b1;
    assert x / 32 == 4 * b0 + 2 * b1 + b2;
    assert x / 16 == 8 * b0 + 4 * b1 + 2 * b2 + b3;
    assert x / 8 == 16 * b0 + 8 * b1 + 4 * b2 + 2 * b3 + b4;
    assert x / 4 == 32 * b0 + 16 * b1 + 8 * b2 + 4 * b3 + 2 * b4 + b5;
    assert x / 2 == 64 * b0 + 32 * b1 + 16 * b2 + 8 * b3 + 4 * b4 + 2 * b5 + b6;
    ByteBitsShifts(x);
  }

  lemma LastBit(q: int, b: int)
    requires 0 <= b < 2
    ensures (2 * q + b) % 2 == b
  {
  }

  /** The bit reader sees exactly the packed bits. */
  lemma {:induction false} BitsOfPack(bs: seq<bit>)
    requires |bs| % 8 == 0
    ensures Bits(Pack(bs)) == bs
  {
    if |bs| > 0 {
      BitsOfPack(bs[8..]);
      ByteBitsOfPackByte(bs[..8]);
      assert Pack(bs)[1..] == Pack(bs[8..]);
      assert bs == bs[..8] + bs[8..];
    }
  }

  /** Byte-level round trip: a packed code, padded to a byte boundary, decodes from bit 0. */
  lemma UeBytesRoundTrip(n: nat, pad: nat)
    requires n + 1 < ValueCap
    requires (|UeEncode(n)| + pad) % 8 == 0
    ensures UeDecode(Bits(Pack(UeEncode(n) + Zeros(pad))), 0) == Ok(Ue(n, |UeEncode(n)|))
  {
    var code := UeEncode(n);
    var bs := code + Zeros(pad);
    BitsOfPack(bs);
    PrefixMatches(code, Zeros(pad));
    UeRoundTrip(Bits(Pack(bs)), 0, n);
  }

  lemma PrefixMatches(a: seq<bit>, b: seq<bit>)
    ensures Matches(a + b, 0, a)
  {
    assert (a + b)[0..|a|] == a;
  }

  /** A slice header that starts with the code of n has first_mb_in_slice n. */
  lemma FirstMbRoundTrip(buf: seq<byte>, nal: nat, n: nat)
    requires nal < |buf| && n + 1 < ValueCap
    requires Matches(Bits(buf[nal + 1..]), 0, UeEncode(n))
    ensures FirstMbInSlice(buf, nal) == Ok(n)
  {
    UeRoundTrip(Bits(buf[nal + 1..]), 0, n);
  }
}
