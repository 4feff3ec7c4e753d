/** Bit strings packed into bytes, most significant bit first, as sha.c reads them. */
module Bits {

  /** Bit i of a byte; bit 0 is the most significant one. */
  function Bit(b: bv8, i: nat): bool
    requires i < 8
  {
    if i == 0 then b & 0x80 != 0
    else if i == 1 then b & 0x40 != 0
    else if i == 2 then b & 0x20 != 0
    else if i == 3 then b & 0x10 != 0
    else if i == 4 then b & 0x08 != 0
    else if i == 5 then b & 0x04 != 0
    else if i == 6 then b & 0x02 != 0
    else b & 0x01 != 0
  }

  /** The byte with only bit i set: 0x01 << (7 - i). */
  function Mask(i: nat): bv8
    requires i < 8
  {
    if i == 0 then 0x80 else if i == 1 then 0x40 else if i == 2 then 0x20 else if i == 3 then 0x10
    else if i == 4 then 0x08 else if i == 5 then 0x04 else if i == 6 then 0x02 else 0x01
  }

  /** b << n for 0 <= n <= 8, as an unsigned char. */
  function Shl(b: bv8, n: nat): bv8
    requires n <= 8
  {
    if n == 0 then b else if n == 1 then b << 1 else if n == 2 then b << 2 else if n == 3 then b << 3
    else if n == 4 then b << 4 else if n == 5 then b << 5 else if n == 6 then b << 6
    else if n == 7 then b << 7 else 0
  }

  /** b >> n for 0 <= n <= 8, as an unsigned char. */
  function Shr(b: bv8, n: nat): bv8
    requires n <= 8
  {
    if n == 0 then b else if n == 1 then b >> 1 else if n == 2 then b >> 2 else if n == 3 then b >> 3
    else if n == 4 then b >> 4 else if n == 5 then b >> 5 else if n == 6 then b >> 6
    else if n == 7 then b >> 7 else 0
  }

  lemma ShlBit(b: bv8, n: nat, i: nat)
    requires n <= 8 && i < 8
    ensures Bit(Shl(b, n), i) == (i + n < 8 && Bit(b, i + n))
  {
  }

  lemma ShrBit(b: bv8, n: nat, i: nat)
    requires n <= 8 && i < 8
    ensures Bit(Shr(b, n), i) == (n <= i && Bit(b, i - n))
  {
  }

  lemma OrMask(a: bv8, b: bv8, m: bv8)
    ensures ((a | b) & m != 0) == (a & m != 0 || b & m != 0)
  {
  }

  ghost predicate OneBit(m: bv8) {
    m == 0x80 || m == 0x40 || m == 0x20 || m == 0x10 || m == 0x08 || m == 0x04 || m == 0x02 || m == 0x01
  }

  lemma AndMask(a: bv8, b: bv8, m: bv8)
    requires OneBit(m)
    ensures ((a & b) & m != 0) == (a & m != 0 && b & m != 0)
  {
  }

  lemma NotMask(b: bv8, m: bv8)
    requires OneBit(m)
    ensures (!b & m != 0) == (b & m == 0)
  {
  }

  /** A bit is what a mask with one bit leaves. */
  lemma BitByMask(b: bv8, i: nat)
    requires i < 8
    ensures Bit(b, i) == (b & Mask(i) != 0) && OneBit(Mask(i))
  {
  }

  /** The C operators on octets, by name. */
  function Or(a: bv8, b: bv8): bv8 { a | b }

  function And(a: bv8, b: bv8): bv8 { a & b }

  function Not(a: bv8): bv8 { !a }

  lemma OrBit(a: bv8, b: bv8, i: nat)
    requires i < 8
    ensures Bit(Or(a, b), i) == (Bit(a, i) || Bit(b, i))
  {
    hide Bit, Mask, OneBit;
    BitByMask(a, i);
    BitByMask(b, i);
    BitByMask(Or(a, b), i);
    OrMask(a, b, Mask(i));
  }

  lemma AndBit(a: bv8, b: bv8, i: nat)
    requires i < 8
    ensures Bit(And(a, b), i) == (Bit(a, i) && Bit(b, i))
  {
    hide Bit, Mask, OneBit;
    BitByMask(a, i);
    BitByMask(b, i);
    BitByMask(And(a, b), i);
    AndMask(a, b, Mask(i));
  }

  lemma NotBit(b: bv8, i: nat)
    requires i < 8
    ensures Bit(Not(b), i) == !Bit(b, i)
  {
    hide Bit, Mask, OneBit;
    BitByMask(b, i);
    BitByMask(Not(b), i);
    NotMask(b, Mask(i));
  }

  lemma MaskBits(p: nat, i: nat)
    requires p < 8 && i < 8
    ensures Bit(Mask(p), i) == (i == p)
  {
  }

  lemma KeepMask(p: nat, i: nat)
    requires p <= 8 && i < 8
    ensures Bit(Shl(0xff, 8 - p), i) == (i < p)
  {
  }

  /** Setting and clearing one bit touches no other bit of the byte. */
  lemma MaskBit(b: bv8, p: nat, i: nat)
    requires p < 8 && i < 8
    ensures Bit(Or(b, Mask(p)), i) == (i == p || Bit(b, i))
    ensures Bit(And(b, Not(Mask(p))), i) == (i != p && Bit(b, i))
  {
    hide Bit, Mask, Or, And, Not;
    MaskBits(p, i);
    OrBit(b, Mask(p), i);
    NotBit(Mask(p), i);
    AndBit(b, Not(Mask(p)), i);
  }

  /** Keeping the top p bits of a byte. */
  lemma KeepBit(b: bv8, p: nat, i: nat)
    requires p <= 8 && i < 8
    ensures Bit(And(b, Shl(0xff, 8 - p)), i) == (i < p && Bit(b, i))
  {
    hide Bit, Shl, And;
    KeepMask(p, i);
    AndBit(b, Shl(0xff, 8 - p), i);
  }

  function M(c: bool, b: bv8): bv8 { if c then b else 0 }

  /** The byte whose bits are s[0..8]. */
  function PackByte(s: seq<bool>): bv8
    requires |s| == 8
  {
    M(s[0], 0x80) | M(s[1], 0x40) | M(s[2], 0x20) | M(s[3], 0x10)
    | M(s[4], 0x08) | M(s[5], 0x04) | M(s[6], 0x02) | M(s[7], 0x01)
  }

  lemma PackByteBit(s: seq<bool>, i: nat)
    requires |s| == 8 && i < 8
    ensures Bit(PackByte(s), i) == s[i]
  {
  }

  /** All bits of a byte string, in order. */
  function ToBits(s: seq<bv8>): (r: seq<bool>)
    ensures |r| == 8 * |s|
  {
    seq(8 * |s|, k requires 0 <= k < 8 * |s| => Bit(s[k / 8], k % 8))
  }

  /** The whole bytes of a bit string. */
  function Pack(s: seq<bool>): (r: seq<bv8>)
    ensures |r| == |s| / 8
  {
    seq(|s| / 8, k requires 0 <= k < |s| / 8 => PackByte(s[8 * k .. 8 * k + 8]))
  }

  lemma PackMasks(b: bv8)
    ensures (b & 0x80) | (b & 0x40) | (b & 0x20) | (b & 0x10) | (b & 0x08) | (b & 0x04) | (b & 0x02) | (b & 0x01) == b
  {
  }

  /** One bit of a byte, in its place. */
  lemma BitInPlace(b: bv8)
    ensures M(Bit(b, 0), 0x80) == b & 0x80 && M(Bit(b, 1), 0x40) == b & 0x40 && M(Bit(b, 2), 0x20) == b & 0x20
    ensures M(Bit(b, 3), 0x10) == b & 0x10 && M(Bit(b, 4), 0x08) == b & 0x08 && M(Bit(b, 5), 0x04) == b & 0x04
    ensures M(Bit(b, 6), 0x02) == b & 0x02 && M(Bit(b, 7), 0x01) == b & 0x01
  {
  }

  /** A byte packed from the bits of b is b. */
  lemma PackByteOf(e: seq<bool>, b: bv8)
    requires |e| == 8
    requires forall i | 0 <= i < 8 :: e[i] == Bit(b, i)
    ensures PackByte(e) == b
  {
    PackMasks(b);
    BitInPlace(b);
    hide Bit, M;
  }

  lemma ByteBits(s: seq<bv8>, k: nat, i: nat)
    requires k < |s| && i < 8
    ensures ToBits(s)[8 * k + i] == Bit(s[k], i)
  {
    assert (8 * k + i) / 8 == k && (8 * k + i) % 8 == i;
  }

  /** Packing undoes unpacking. */
  lemma PackToBits(s: seq<bv8>)
    ensures Pack(ToBits(s)) == s
  {
    hide ToBits, PackByte, Bit;
    var bits := ToBits(s);
    forall k | 0 <= k < |s|
      ensures Pack(bits)[k] == s[k]
    {
      OctetBits(s, k);
      PackByteOf(bits[8 * k .. 8 * k + 8], s[k]);
    }
  }

  lemma OctetBits(s: seq<bv8>, k: nat)
    requires k < |s|
    ensures var e := ToBits(s)[8 * k .. 8 * k + 8]; forall i | 0 <= i < 8 :: e[i] == Bit(s[k], i)
  {
    hide ToBits, Bit;
    forall i | 0 <= i < 8 ensures ToBits(s)[8 * k .. 8 * k + 8][i] == Bit(s[k], i) { ByteBits(s, k, i); }
  }

  lemma ToBitsConcat(a: seq<bv8>, b: seq<bv8>)
    ensures ToBits(a + b) == ToBits(a) + ToBits(b)
  {
    forall k | 0 <= k < 8 * |a + b|
      ensures ToBits(a + b)[k] == (ToBits(a) + ToBits(b))[k]
    {
      if k >= 8 * |a| {
        assert (k - 8 * |a|) / 8 == k / 8 - |a| && (k - 8 * |a|) % 8 == k % 8;
      }
    }
  }

  lemma ToBitsSlice(s: seq<bv8>, i: nat, j: nat)
    requires i <= j <= |s|
    ensures ToBits(s[i..j]) == ToBits(s)[8 * i .. 8 * j]
  {
    assert s == s[..i] + s[i..j] + s[j..];
    ToBitsConcat(s[..i] + s[i..j], s[j..]);
    ToBitsConcat(s[..i], s[i..j]);
  }

  /** Byte number `i` from the right of n: (n >> 8i) & 0xff, as an unsigned char. */
  function ByteOf(n: nat): bv8
  {
    PackByte(NatBits(n, 8))
  }

  function Pow2(k: nat): (r: nat)
    ensures r > 0
  {
    if k == 0 then 1 else 2 * Pow2(k - 1)
  }

  lemma {:induction false} Pow2Add(a: nat, b: nat)
    ensures Pow2(a + b) == Pow2(a) * Pow2(b)
  {
    if a > 0 {
      Pow2Add(a - 1, b);
    }
  }

  /** The w-bit binary form of n modulo 2^w, most significant bit first. */
  function NatBits(n: nat, w: nat): (r: seq<bool>)
    ensures |r| == w
  {
    if w == 0 then [] else NatBits(n / 2, w - 1) + [n % 2 == 1]
  }

  /** The binary form of q * 2^lo + r is that of q followed by that of r. */
  lemma {:induction false} NatBitsSplit(q: nat, r: nat, hi: nat, lo: nat)
    requires r < Pow2(lo)
    ensures NatBits(q * Pow2(lo) + r, hi + lo) == NatBits(q, hi) + NatBits(r, lo)
    decreases lo
  {
    if lo == 0 {
      assert NatBits(r, 0) == [];
      assert q * Pow2(0) + r == q;
    } else {
      var d := Pow2(lo - 1);
      var n := q * (2 * d) + r;
      assert n == 2 * (q * d) + r;
      assert n / 2 == q * d + r / 2 && n % 2 == r % 2;
      NatBitsSplit(q, r / 2, hi, lo - 1);
      SnocBit(n, hi + lo);
      SnocBit(r, lo);
    }
  }

  /** The number a bit string says, most significant bit first. */
  ghost function Value(s: seq<bool>): nat {
    if s == [] then 0 else 2 * Value(s[..|s| - 1]) + if s[|s| - 1] then 1 else 0
  }

  /** The w bits say n modulo 2^w. */
  lemma {:induction false} NatBitsValue(n: nat, w: nat)
    ensures Value(NatBits(n, w)) == n % Pow2(w)
  {
    if w > 0 {
      var d, s := Pow2(w - 1), NatBits(n / 2, w - 1);
      NatBitsValue(n / 2, w - 1);
      SnocBit(n, w);
      ValueMore(s + [n % 2 == 1]);
      assert (s + [n % 2 == 1])[..w - 1] == s;
      hide NatBits, Value;
      HalfRest(n, d);
    }
  }

  lemma HalfRest(n: nat, d: nat)
    requires d > 0
    ensures n % (2 * d) == 2 * ((n / 2) % d) + n % 2
  {
    var m := n / 2;
    DivRest(m, d);
    var q, r := m / d, 2 * (m % d) + n % 2;
    assert n == 2 * m + n % 2;
    assert 2 * (q * d) == q * (2 * d);
    RestOf(n, 2 * d, q, r);
  }

  lemma RestOf(n: nat, d: nat, q: nat, r: nat)
    requires n == q * d + r && r < d
    ensures n % d == r
  {
    DivRest(n, d);
    NoMultiple(n / d - q, d, r - n % d);
  }

  lemma NoMultiple(k: int, d: nat, x: int)
    requires k * d == x && x < d && x + d > 0
    ensures x == 0
  {
    if k > 0 {
      TimesMore(k, d);
    } else if k < 0 {
      TimesMore(-k, d);
    }
  }

  lemma TimesMore(k: nat, d: nat)
    requires k > 0
    ensures k * d >= d
  {
  }

  /** The octet of eight bits has the value they say. */
  lemma ByteOfValue(n: nat)
    ensures ByteOf(n) as int == n % 256
  {
    hide NatBits, PackByte;
    var s := NatBits(n, 8);
    NatBitsValue(n, 8);
    assert Pow2(8) == 256;
    OctetValue(s);
  }

  lemma OctetValue(s: seq<bool>)
    requires |s| == 8
    ensures PackByte(s) as int == Value(s)
  {
    OctetSum(s[0], s[1], s[2], s[3], s[4], s[5], s[6], s[7]);
    hide M, Value;
    EightValue(s);
  }

  lemma EightValue(s: seq<bool>)
    requires |s| == 8
    ensures Value(s) == (if s[0] then 128 else 0) + (if s[1] then 64 else 0) + (if s[2] then 32 else 0)
                        + (if s[3] then 16 else 0) + (if s[4] then 8 else 0) + (if s[5] then 4 else 0)
                        + (if s[6] then 2 else 0) + (if s[7] then 1 else 0)
  {
    NoValue(s[..0]);
    hide Value;
    ValueMore(s); ValueMore(s[..7]); ValueMore(s[..6]); ValueMore(s[..5]);
    ValueMore(s[..4]); ValueMore(s[..3]); ValueMore(s[..2]); ValueMore(s[..1]);
    assert s[..7][..6] == s[..6] && s[..6][..5] == s[..5] && s[..5][..4] == s[..4] && s[..4][..3] == s[..3];
    assert s[..3][..2] == s[..2] && s[..2][..1] == s[..1] && s[..1][..0] == s[..0];
  }

  lemma NoValue(s: seq<bool>)
    requires s == []
    ensures Value(s) == 0
  {
  }

  lemma ValueMore(s: seq<bool>)
    requires s != []
    ensures Value(s) == 2 * Value(s[..|s| - 1]) + if s[|s| - 1] then 1 else 0
  {
  }

  lemma OctetSum(a: bool, b: bool, c: bool, d: bool, e: bool, f: bool, g: bool, h: bool)
    ensures (M(a, 0x80) | M(b, 0x40) | M(c, 0x20) | M(d, 0x10) | M(e, 0x08) | M(f, 0x04) | M(g, 0x02)
             | M(h, 0x01)) as int
            == (if a then 128 else 0) + (if b then 64 else 0) + (if c then 32 else 0) + (if d then 16 else 0)
               + (if e then 8 else 0) + (if f then 4 else 0) + (if g then 2 else 0) + (if h then 1 else 0)
  {
  }

  lemma SnocBit(n: nat, w: nat)
    requires w > 0
    ensures NatBits(n, w) == NatBits(n / 2, w - 1) + [n % 2 == 1]
  {
  }

  lemma DivRest(n: nat, d: nat)
    requires d > 0
    ensures n == n / d * d + n % d && n % d < d
  {
  }

  /** Multiples of 2^w do not show in w bits. */
  lemma NatBitsFrom(n: nat, q: nat, r: nat, w: nat)
    requires n == q * Pow2(w) + r && r < Pow2(w)
    ensures NatBits(n, w) == NatBits(r, w)
  {
    NoBits(q, NatBits(r, w));
    hide NatBits, Pow2;
    NatBitsSplit(q, r, 0, w);
  }

  lemma NoBits(q: nat, rest: seq<bool>)
    ensures NatBits(q, 0) + rest == rest
  {
  }

  lemma NatBitsLow(n: nat, p: nat, w: nat)
    requires p == Pow2(w)
    ensures NatBits(n, w) == NatBits(n % p, w)
  {
    hide NatBits, Pow2;
    DivRest(n, p);
    NatBitsFrom(n, n / p, n % p, w);
  }

  /** The binary form depends only on the value modulo 2^w. */
  lemma NatBitsMod(n: nat, m: nat, w: nat)
    requires n % Pow2(w) == m % Pow2(w)
    ensures NatBits(n, w) == NatBits(m, w)
  {
    hide NatBits, Pow2;
    NatBitsLow(n, Pow2(w), w);
    NatBitsLow(m, Pow2(w), w);
  }
}
