/** One-shot hashing of a bit string as FIPS PUB 180-2 defines it, for any compression function. */
module ShaSpec {
  import opened Bits

  const WORD: nat := 0x1_0000_0000

  /** What sha.c keeps per algorithm: block size in bits, initial state, transform, the state as 32-bit words (a 64-bit
      word is its high and its low half), and the digest length in octets. */
  datatype Algo<!H> =
    Algo(blockSize: nat, init: H, compress: (H, seq<bv8>) -> H, words: H -> seq<bv32>, digestLen: nat)
  {
    ghost predicate Ok() {
      (blockSize == 512 || blockSize == 1024) && digestLen <= 64
    }
  }

  /** A word in big-endian order. */
  function WordOctets(x: bv32): (r: seq<bv8>)
    ensures |r| == 4
  {
    [OctetAt(x, 0), OctetAt(x, 1), OctetAt(x, 2), OctetAt(x, 3)]
  }

  /** The word shifted down by 24, 16, 8 or 0 bits, cut to its low octet. */
  function OctetAt(x: bv32, i: nat): bv8
    requires i < 4
  {
    if i == 0 then ((x >> 24) & 0xff) as bv8
    else if i == 1 then ((x >> 16) & 0xff) as bv8
    else if i == 2 then ((x >> 8) & 0xff) as bv8
    else (x & 0xff) as bv8
  }

  function BigEndian(a: bv8, b: bv8, c: bv8, d: bv8): bv32 {
    ((a as bv32) << 24) | ((b as bv32) << 16) | ((c as bv32) << 8) | (d as bv32)
  }

  /** The octets of a word make the word. */
  lemma WordReadBack(x: bv32)
    ensures var o := WordOctets(x); BigEndian(o[0], o[1], o[2], o[3]) == x
  {
  }

  function Octets(ws: seq<bv32>): (r: seq<bv8>)
    ensures |r| == 4 * |ws|
  {
    if ws == [] then [] else Octets(ws[..|ws| - 1]) + WordOctets(ws[|ws| - 1])
  }

  lemma {:induction false} OctetsAt(ws: seq<bv32>, i: nat)
    requires i < |ws|
    ensures Octets(ws)[4 * i..4 * i + 4] == WordOctets(ws[i])
    decreases |ws|
  {
    hide WordOctets;
    var t := ws[..|ws| - 1];
    if i < |t| {
      OctetsAt(t, i);
      assert Octets(ws)[4 * i..4 * i + 4] == Octets(t)[4 * i..4 * i + 4];
    }
  }

  /** The first digestLen octets of the state. */
  function DigestOf<H>(alg: Algo<H>, h: H): (d: seq<bv8>)
    ensures |d| <= alg.digestLen
  {
    var o := Octets(alg.words(h));
    if |o| <= alg.digestLen then o else o[..alg.digestLen]
  }

  /** A digest read as big-endian words is the beginning of the state. */
  lemma DigestWords<H>(alg: Algo<H>, h: H, i: nat)
    requires 4 * i + 4 <= |DigestOf(alg, h)|
    ensures i < |alg.words(h)|
    ensures var d := DigestOf(alg, h); BigEndian(d[4 * i], d[4 * i + 1], d[4 * i + 2], d[4 * i + 3]) == alg.words(h)[i]
  {
    hide WordOctets, BigEndian, Octets;
    var d, o, ws := DigestOf(alg, h), Octets(alg.words(h)), alg.words(h);
    OctetsAt(ws, i);
    WordReadBack(ws[i]);
    var q := o[4 * i..4 * i + 4];
    assert q[0] == d[4 * i] && q[1] == d[4 * i + 1] && q[2] == d[4 * i + 2] && q[3] == d[4 * i + 3];
  }

  /** Compresses the whole blocks of a bit string; a trailing partial block is ignored. */
  ghost function Fold<H>(alg: Algo<H>, h: H, m: seq<bool>): H
    requires alg.Ok()
    decreases |m|
  {
    if |m| < alg.blockSize then h
    else Fold(alg, alg.compress(h, Pack(m[..alg.blockSize])), m[alg.blockSize..])
  }

  ghost function LenField(blockSize: nat): nat {
    if blockSize == 512 then 64 else 128
  }

  /** The smallest number of zero bits that leaves exactly the length field free. */
  ghost function ZeroCount(n: nat, blockSize: nat): nat
    requires blockSize == 512 || blockSize == 1024
  {
    (2 * blockSize - LenField(blockSize) - 1 - n % blockSize) % blockSize
  }

  ghost function Zeros(n: nat): (r: seq<bool>)
    ensures |r| == n && forall i | 0 <= i < n :: !r[i]
  {
    seq(n, i => false)
  }

  /** The message, a one, zeros, and a number in binary. */
  ghost function PadWith(m: seq<bool>, n: nat, blockSize: nat): seq<bool>
    requires blockSize == 512 || blockSize == 1024
  {
    m + [true] + Zeros(ZeroCount(|m|, blockSize)) + NatBits(n, LenField(blockSize))
  }

  /** Section 5.1 of FIPS PUB 180-2: the number is the length. */
  ghost function Pad(m: seq<bool>, blockSize: nat): seq<bool>
    requires blockSize == 512 || blockSize == 1024
  {
    PadWith(m, |m|, blockSize)
  }

  /** The digest of a message padded with the number n. */
  ghost function HashWith<H>(alg: Algo<H>, m: seq<bool>, n: nat): (d: seq<bv8>)
    requires alg.Ok()
    ensures |d| <= alg.digestLen
  {
    DigestOf(alg, Fold(alg, alg.init, PadWith(m, n, alg.blockSize)))
  }

  ghost function Hash<H>(alg: Algo<H>, m: seq<bool>): (d: seq<bv8>)
    requires alg.Ok()
    ensures |d| <= alg.digestLen
  {
    DigestOf(alg, Fold(alg, alg.init, Pad(m, alg.blockSize)))
  }

  /** The padded message is a whole number of blocks, and no shorter padding would be. */
  lemma PadFillsBlocks(m: seq<bool>, blockSize: nat)
    requires blockSize == 512 || blockSize == 1024
    ensures |Pad(m, blockSize)| % blockSize == 0
    ensures |Pad(m, blockSize)| < |m| + 1 + LenField(blockSize) + blockSize
  {
    if blockSize == 512 { ZeroCount512(|m|); } else { ZeroCount1024(|m|); }
  }

  /** What the padded message says: itself, a one, zeros, and its length in the last 64 or 128 bits. */
  lemma PadSays(m: seq<bool>, blockSize: nat)
    requires blockSize == 512 || blockSize == 1024
    ensures var p, f := Pad(m, blockSize), if blockSize == 512 then 64 else 128;
            |m| + 1 + f <= |p| && p[..|m|] == m && p[|m|] && (forall i | |m| < i < |p| - f :: !p[i]) &&
            Value(p[|p| - f..]) == |m| % Pow2(f)
  {
    hide NatBits, Value, Pow2, ZeroCount;
    var f := LenField(blockSize);
    NatBitsValue(|m|, f);
    assert Pad(m, blockSize)[|Pad(m, blockSize)| - f..] == NatBits(|m|, f);
  }

  lemma ZeroCount512(n: nat)
    ensures (n + 1 + ZeroCount(n, 512) + 64) % 512 == 0
  {
    var r := n % 512;
    assert ZeroCount(n, 512) == if r <= 447 then 447 - r else 959 - r;
  }

  lemma ZeroCount1024(n: nat)
    ensures (n + 1 + ZeroCount(n, 1024) + 128) % 1024 == 0
  {
    var r := n % 1024;
    assert ZeroCount(n, 1024) == if r <= 895 then 895 - r else 1919 - r;
  }

  lemma {:induction false} FoldConcat<H>(alg: Algo<H>, h: H, a: seq<bool>, b: seq<bool>)
    requires alg.Ok() && |a| % alg.blockSize == 0
    ensures Fold(alg, h, a + b) == Fold(alg, Fold(alg, h, a), b)
    decreases |a|
  {
    var n := alg.blockSize;
    if |a| == 0 {
      assert a + b == b;
    } else {
      assert |a| >= n;
      assert (a + b)[..n] == a[..n] && (a + b)[n..] == a[n..] + b;
      SubBlock(|a|, n);
      FoldConcat(alg, alg.compress(h, Pack(a[..n])), a[n..], b);
    }
  }

  lemma SubBlock(k: nat, n: nat)
    requires n == 512 || n == 1024
    requires k >= n && k % n == 0
    ensures (k - n) % n == 0
  {
  }

  /** Compressing one more block given as bytes. */
  lemma FoldBlock<H>(alg: Algo<H>, h: H, a: seq<bool>, block: seq<bv8>)
    requires alg.Ok() && |a| % alg.blockSize == 0 && 8 * |block| == alg.blockSize
    ensures Fold(alg, h, a + ToBits(block)) == alg.compress(Fold(alg, h, a), block)
  {
    var b := ToBits(block);
    FoldConcat(alg, h, a, b);
    assert b[..alg.blockSize] == b && |b[alg.blockSize..]| == 0;
    PackToBits(block);
  }
}
