/** The 32-bit words of the Z-bin buffer: the packed (min, max) item-index
    header and the one-bit-per-item bitmask words.

    A C# `uint` is an integer in [0, 2^32) here. The header codec's masks and
    shifts by 16 are the matching remainders and quotients by 2^16, and the
    bitmask's `|` and `<<` are written out bit by bit (`Bit`, `Or`, `Pow2`);
    `MaskIsLowBits`, `ShrIsDiv` and `EncodeIsOr` show that the
    arithmetic forms select exactly the bits the source's operators do. */
module ZBinHeader {

  /** One word of the `bins` buffer (a C# `uint`). */
  type Word = w: int | 0 <= w < 0x1_0000_0000

  /** Number of header words at the start of every bin: slot 0 for lights,
      slot 1 for reflection probes. */
  const HeaderLength: int := 2

  /** Largest value a 16-bit header field can hold (`ushort.MaxValue`). */
  const FieldMax: int := 0xFFFF

  /** `1 << 16`: one past `FieldMax`. */
  const FieldRange: int := 0x1_0000

  function MinWord(a: Word, b: Word): (r: Word)
    ensures r <= a && r <= b && (r == a || r == b)
  {
    if a <= b then a else b
  }

  function MaxWord(a: Word, b: Word): (r: Word)
    ensures a <= r && b <= r && (r == a || r == b)
  {
    if a <= b then b else a
  }

  // ---------------------------------------------------------------------
  // Bits

  function Pow2(k: nat): (r: nat)
    ensures 0 < r
  {
    if k == 0 then 1 else 2 * Pow2(k - 1)
  }

  /** Bit `k` of `w`, bit 0 the least significant (`(w >> k) & 1 == 1`). */
  predicate Bit(w: nat, k: nat)
  {
    if k == 0 then w % 2 == 1 else Bit(w / 2, k - 1)
  }

  /** `a | b` restricted to the low `n` bits. */
  function OrBits(a: nat, b: nat, n: nat): nat
  {
    if n == 0 then 0
    else 2 * OrBits(a / 2, b / 2, n - 1) + (if a % 2 == 1 || b % 2 == 1 then 1 else 0)
  }

  /** `OrBits` has no bit at or above `n`. */
  lemma {:induction false} OrBitsBound(a: nat, b: nat, n: nat)
    ensures OrBits(a, b, n) < Pow2(n)
  {
    if n > 0 {
      OrBitsBound(a / 2, b / 2, n - 1);
    }
  }

  lemma {:induction false} Pow2Add(a: nat, b: nat)
    ensures Pow2(a + b) == Pow2(a) * Pow2(b)
    decreases b
  {
    if b > 0 {
      Pow2Add(a, b - 1);
    }
  }

  lemma {:induction false} Pow2Word()
    ensures Pow2(32) == 0x1_0000_0000 && Pow2(16) == FieldRange
  {
    assert Pow2(8) == 0x100;
    Pow2Add(8, 8);
    Pow2Add(16, 16);
  }

  /** `a | b` on two words. */
  function Or(a: Word, b: Word): Word
  {
    OrBitsBound(a, b, 32);
    Pow2Word();
    OrBits(a, b, 32)
  }

  /** `1u << (index % 32)`: the bit of item `index` within its bitmask word. */
  function BitMask(index: nat): Word
  {
    Pow2Le(index % 32, 31);
    Pow2Word();
    Pow2(index % 32)
  }

  lemma {:induction false} Pow2Le(j: nat, k: nat)
    requires j <= k
    ensures Pow2(j) <= Pow2(k)
    decreases k
  {
    if j < k {
      Pow2Le(j, k - 1);
    }
  }

  /** Bit `k` of `a | b` is set exactly when it is set in `a` or in `b`. */
  lemma {:induction false} OrBitsBit(a: nat, b: nat, n: nat, k: nat)
    requires k < n
    ensures Bit(OrBits(a, b, n), k) <==> Bit(a, k) || Bit(b, k)
    decreases n
  {
    var y, d := OrBits(a / 2, b / 2, n - 1), if a % 2 == 1 || b % 2 == 1 then 1 else 0;
    assert OrBits(a, b, n) == 2 * y + d;
    assert (2 * y + d) / 2 == y && (2 * y + d) % 2 == d;
    if k > 0 {
      OrBitsBit(a / 2, b / 2, n - 1, k - 1);
    }
  }

  lemma {:induction false} OrBit(a: Word, b: Word, k: nat)
    requires k < 32
    ensures Bit(Or(a, b), k) <==> Bit(a, k) || Bit(b, k)
  {
    OrBitsBit(a, b, 32, k);
  }

  /** The only bit of `2^j` is bit `j`. */
  lemma {:induction false} Pow2Bit(j: nat, k: nat)
    ensures Bit(Pow2(j), k) <==> j == k
    decreases j
  {
    if j > 0 && k > 0 {
      Pow2Bit(j - 1, k - 1);
    } else if j > 0 {
      assert Pow2(j) % 2 == 0;
    } else if k > 0 {
      ZeroBit(k - 1);
    }
  }

  lemma {:induction false} ZeroBit(k: nat)
    ensures !Bit(0, k)
  {
    if k > 0 {
      ZeroBit(k - 1);
    }
  }

  /** The mask of an item has exactly the item's bit set. */
  lemma {:induction false} BitMaskBit(index: nat, k: nat)
    ensures Bit(BitMask(index), k) <==> k == index % 32
  {
    Pow2Bit(index % 32, k);
  }

  /** A word has no bit at or above bit 32. */
  lemma {:induction false} BitBelow(w: nat, n: nat, k: nat)
    requires w < Pow2(n) && n <= k
    ensures !Bit(w, k)
    decreases n
  {
    if n == 0 {
      ZeroBit(k);
    } else {
      BitBelow(w / 2, n - 1, k - 1);
    }
  }

  /** Two numbers below `2^n` with the same low `n` bits are equal. */
  lemma {:induction false} BitsDetermine(v: nat, w: nat, n: nat)
    requires v < Pow2(n) && w < Pow2(n)
    requires forall k :: 0 <= k < n ==> (Bit(v, k) <==> Bit(w, k))
    ensures v == w
    decreases n
  {
    if n > 0 {
      assert Bit(v, 0) <==> Bit(w, 0);
      forall k | 0 <= k < n - 1
        ensures Bit(v / 2, k) <==> Bit(w / 2, k)
      {
        assert Bit(v, k + 1) <==> Bit(w, k + 1);
      }
      BitsDetermine(v / 2, w / 2, n - 1);
    }
  }

  /** `w % 2^n` keeps the low `n` bits of `w` (`w & (2^n - 1)`). */
  lemma {:induction false} MaskIsLowBits(w: nat, n: nat, k: nat)
    ensures Bit(w % Pow2(n), k) <==> k < n && Bit(w, k)
    decreases n
  {
    if n == 0 {
      ZeroBit(k);
    } else {
      DivModHalf(w, Pow2(n - 1));
      if k > 0 {
        MaskIsLowBits(w / 2, n - 1, k - 1);
      }
    }
  }

  /** `w >> n`, one bit at a time. */
  function Shr(w: nat, n: nat): nat
  {
    if n == 0 then w else Shr(w / 2, n - 1)
  }

  lemma {:induction false} ShrBit(w: nat, n: nat, k: nat)
    ensures Bit(Shr(w, n), k) <==> Bit(w, k + n)
    decreases n
  {
    if n > 0 {
      ShrBit(w / 2, n - 1, k);
    }
  }

  /** `w >> n` is `w / 2^n`. */
  lemma {:induction false} ShrIsDiv(w: nat, n: nat)
    ensures Shr(w, n) == w / Pow2(n)
    decreases n
  {
    if n > 0 {
      ShrIsDiv(w / 2, n - 1);
      DivModHalf(w, Pow2(n - 1));
    }
  }

  /** Removing the lowest bit commutes with taking a remainder or quotient
      by a power of two. */
  lemma {:induction false} DivModHalf(w: nat, p: nat)
    requires 0 < p
    ensures (w % (2 * p)) % 2 == w % 2 && (w % (2 * p)) / 2 == (w / 2) % p
    ensures w / (2 * p) == (w / 2) / p
  {
    var q, r := w / 2, w % 2;
    var q2, r2 := q / p, q % p;
    assert q == p * q2 + r2;
    assert w == (2 * p) * q2 + (2 * r2 + r);
    DivModUnique(w, 2 * p, q2, 2 * r2 + r);
  }

  /** Quotient and remainder are the only pair with `w == d * q + r` and
      `0 <= r < d`. */
  lemma {:induction false} DivModUnique(w: int, d: int, q: int, r: int)
    requires 0 < d && 0 <= r < d && w == d * q + r
    ensures w / d == q && w % d == r
  {
    var q0, r0 := w / d, w % d;
    assert d * (q - q0) == r0 - r;
    if q > q0 {
      MulAtLeast(d, q - q0);
    } else if q < q0 {
      MulAtLeast(d, q0 - q);
    }
  }

  lemma {:induction false} MulAtLeast(d: int, x: int)
    requires 0 < d && 1 <= x
    ensures d <= d * x
  {
  }

  // ---------------------------------------------------------------------
  // The header codec (ZBinningJob.cs, lines 41-49)

  /** Packs `min` into the low 16 bits and `max` into the high 16 bits;
      anything above 16 bits in either argument is dropped:
      `(min & 0xFFFF) | ((max & 0xFFFF) << 16)`. */
  function EncodeHeader(min: Word, max: Word): Word
  {
    min % FieldRange + (max % FieldRange) * FieldRange
  }

  /** Unpacks the (min, max) pair of a header word:
      `(zBin & 0xFFFF, (zBin >> 16) & 0xFFFF)`. */
  function DecodeHeader(zBin: Word): (Word, Word)
  {
    (zBin % FieldRange, (zBin / FieldRange) % FieldRange)
  }

  /** The "no items" header: min = 0xFFFF, max = 0. */
  const EmptyHeader: Word := EncodeHeader(FieldMax, 0)

  /** Decoding an encoded pair gives back the low 16 bits of each value; in
      particular a pair of 16-bit values comes back unchanged. */
  lemma {:induction false} DecodeEncode(min: Word, max: Word)
    ensures DecodeHeader(EncodeHeader(min, max)) == (min % FieldRange, max % FieldRange)
    ensures min <= FieldMax && max <= FieldMax ==> DecodeHeader(EncodeHeader(min, max)) == (min, max)
  {
  }

  /** Decoding is the source's mask-and-shift: the low field is the word
      modulo `2^16` (its bits below 16, by `MaskIsLowBits`, which is
      `& 0xFFFF`), and the high field is the same of the word shifted right
      by 16 bits. */
  lemma {:induction false} DecodeIsShift(w: Word)
    ensures DecodeHeader(w) == (w % Pow2(16), Shr(w, 16) % Pow2(16))
  {
    Pow2Word();
    ShrIsDiv(w, 16);
  }

  /** Both decoded fields fit in 16 bits, whatever the word. */
  lemma {:induction false} DecodeBounds(w: Word)
    ensures DecodeHeader(w).0 <= FieldMax && DecodeHeader(w).1 <= FieldMax
  {
  }

  /** Every word is the encoding of its decoded pair: the codec is a
      bijection between words and pairs of 16-bit fields. */
  lemma {:induction false} EncodeDecode(w: Word)
    ensures EncodeHeader(DecodeHeader(w).0, DecodeHeader(w).1) == w
  {
  }

  lemma {:induction false} EmptyHeaderDecodes()
    ensures DecodeHeader(EmptyHeader) == (FieldMax, 0)
  {
  }

  /** The arithmetic encoding is the source's OR of the masked `min` and the
      masked, shifted `max`: the two parts occupy disjoint bits. */
  lemma {:induction false} EncodeIsOr(min: Word, max: Word)
    ensures EncodeHeader(min, max) == Or(min % FieldRange, (max % FieldRange) * FieldRange)
  {
    Pow2Word();
    var lo, hi := min % FieldRange, (max % FieldRange) * FieldRange;
    forall k | 0 <= k < 32
      ensures Bit(EncodeHeader(min, max), k) <==> Bit(Or(lo, hi), k)
    {
      EncodeBitOr(min, max, k);
    }
    BitsDetermine(EncodeHeader(min, max), Or(lo, hi), 32);
  }

  lemma {:induction false} EncodeBitOr(min: Word, max: Word, k: nat)
    requires k < 32
    ensures Bit(EncodeHeader(min, max), k) <==>
      Bit(Or(min % FieldRange, (max % FieldRange) * FieldRange), k)
  {
    var lo, hi := min % FieldRange, (max % FieldRange) * FieldRange;
    OrBit(lo, hi, k);
    EncodeBit(lo, max % FieldRange, k);
    EncodeBit(0, max % FieldRange, k);
    assert hi == 0 + (max % FieldRange) * FieldRange;
    ZeroBit(k);
    if k >= 16 {
      Pow2Word();
      BitBelow(lo, 16, k);
    }
  }

  /** Bit `k` of `lo + hi * 2^16`, for `lo` below `2^16`, is bit `k` of `lo`
      below bit 16 and bit `k - 16` of `hi` from there on. */
  lemma {:induction false} EncodeBit(lo: nat, hi: nat, k: nat)
    requires lo < FieldRange
    ensures Bit(lo + hi * FieldRange, k) <==> if k < 16 then Bit(lo, k) else Bit(hi, k - 16)
  {
    Pow2Word();
    var e := lo + hi * FieldRange;
    DivModUnique(e, FieldRange, hi, lo);
    if k < 16 {
      MaskIsLowBits(e, 16, k);
    } else {
      ShrIsDiv(e, 16);
      ShrBit(e, 16, k - 16);
      BitBelow(lo, 16, k);
    }
  }

  /** The header update of one item (lines 110-113): decode, widen the
      (min, max) pair to include `index`, encode. */
  function MergeHeader(header: Word, index: Word): Word
  {
    var (minIndex, maxIndex) := DecodeHeader(header);
    EncodeHeader(MinWord(minIndex, index), MaxWord(maxIndex, index))
  }

  /** For a 16-bit index, the merged header decodes to the old pair widened
      to include the index. */
  lemma {:induction false} MergeHeaderDecodes(header: Word, index: Word)
    requires index <= FieldMax
    ensures DecodeHeader(MergeHeader(header, index)) ==
      (MinWord(DecodeHeader(header).0, index), MaxWord(DecodeHeader(header).1, index))
  {
    DecodeBounds(header);
    DecodeEncode(MinWord(DecodeHeader(header).0, index), MaxWord(DecodeHeader(header).1, index));
  }
}
