/** The streaming digest object of sha.c: bit-granular writes, padding and the four length words. */
module ShaStream {
  import opened Sequences
  import opened Bits
  import opened ShaSpec

  /** The 128-bit message length kept in four 32-bit words. */
  datatype LenWords = LenWords(hh: nat, hl: nat, lh: nat, ll: nat)
  {
    predicate Ok() {
      hh < WORD && hl < WORD && lh < WORD && ll < WORD
    }

    function Value(): nat {
      ((hh * WORD + hl) * WORD + lh) * WORD + ll
    }
  }

  const LEN_RANGE: nat := WORD * WORD * WORD * WORD

  /** One carry out of the low word ripples through the upper three. */
  function Carry(w: LenWords, ll: nat): LenWords
  {
    var lh := (w.lh + 1) % WORD;
    if lh != 0 then LenWords(w.hh, w.hl, lh, ll)
    else
      var hl := (w.hl + 1) % WORD;
      LenWords(if hl == 0 then (w.hh + 1) % WORD else w.hh, hl, lh, ll)
  }

  /** The length update at the top of shawrite, for any unsigned long bit count. */
  function AddLen(w: LenWords, bitcnt: nat): LenWords
  {
    var ll := (w.ll + bitcnt) % WORD;
    if ll < bitcnt then Carry(w, ll) else w.(ll := ll)
  }

  /** A number that is v, or v and one whole range. */
  lemma RangeRest(x: nat, v: nat)
    requires v < LEN_RANGE && (x == v || x == v + LEN_RANGE)
    ensures x % LEN_RANGE == v
  {
  }

  lemma CarryOne(w: LenWords, ll: nat)
    requires w.Ok() && ll < WORD
    ensures Carry(w, ll).Ok()
    ensures Carry(w, ll).Value() == (w.Value() - w.ll + ll + WORD) % LEN_RANGE
  {
    ValueBound(w);
    CarryForms(w, ll);
    ValueBound(Carry(w, ll));
    hide Carry;
    CarryValue(w, ll, Carry(w, ll));
    hide LenWords.Value;
    RangeRest(w.Value() - w.ll + ll + WORD, Carry(w, ll).Value());
  }

  lemma CarryForms(w: LenWords, ll: nat)
    requires w.Ok() && ll < WORD
    ensures Carry(w, ll) == if w.lh + 1 < WORD then LenWords(w.hh, w.hl, w.lh + 1, ll)
                            else if w.hl + 1 < WORD then LenWords(w.hh, w.hl + 1, 0, ll)
                            else if w.hh + 1 < WORD then LenWords(w.hh + 1, 0, 0, ll)
                            else LenWords(0, 0, 0, ll)
    ensures Carry(w, ll).Ok()
  {
  }

  lemma CarryValue(w: LenWords, ll: nat, c: LenWords)
    requires w.Ok() && ll < WORD
    requires c == if w.lh + 1 < WORD then LenWords(w.hh, w.hl, w.lh + 1, ll)
                  else if w.hl + 1 < WORD then LenWords(w.hh, w.hl + 1, 0, ll)
                  else if w.hh + 1 < WORD then LenWords(w.hh + 1, 0, 0, ll)
                  else LenWords(0, 0, 0, ll)
    ensures var x := w.Value() - w.ll + ll + WORD; x == c.Value() || x == c.Value() + LEN_RANGE
  {
  }

  /** The length stays the true bit count modulo 2^128 exactly when at most one carry leaves the low word. */
  lemma AddLenExact(w: LenWords, bitcnt: nat)
    requires w.Ok() && bitcnt < WORD * WORD
    ensures AddLen(w, bitcnt).Ok()
    ensures AddLen(w, bitcnt).Value() == (w.Value() + bitcnt) % LEN_RANGE
       <==> bitcnt < WORD || w.ll + bitcnt < 2 * WORD
  {
    ValueBound(w);
    AddLenValue(w, bitcnt);
    assert LenRest(w.Value() + bitcnt) == (w.Value() + bitcnt) % LEN_RANGE;
    hide AddLen, LenWords.Value, LenRest;
    CarryCount(w.Value() - w.ll, w.ll, bitcnt);
  }

  /** 2^33 bits in one call leave a length of 2^32. */
  lemma CarryLost()
    ensures AddLen(LenWords(0, 0, 0, 0), 2 * WORD).Value() != 2 * WORD % LEN_RANGE
  {
    AddLenExact(LenWords(0, 0, 0, 0), 2 * WORD);
  }

  /** What four words of 32 bits keep of a count. */
  ghost function LenRest(x: nat): nat {
    x % LEN_RANGE
  }

  lemma AddLenValue(w: LenWords, bitcnt: nat)
    requires w.Ok()
    ensures AddLen(w, bitcnt).Ok() && w.ll <= w.Value()
    ensures
      var ll := (w.ll + bitcnt) % WORD;
      AddLen(w, bitcnt).Value() == LenRest(w.Value() - w.ll + ll + if ll < bitcnt then WORD else 0)
  {
    hide Carry;
    ValueBound(w);
    var ll := (w.ll + bitcnt) % WORD;
    if ll < bitcnt {
      CarryOne(w, ll);
    } else {
      var w' := w.(ll := ll);
      ValueBound(w');
      assert w'.Value() == w.Value() - w.ll + ll;
      hide LenWords.Value;
      RangeRest(w.Value() - w.ll + ll, w'.Value());
    }
  }

  lemma ValueBound(w: LenWords)
    requires w.Ok()
    ensures w.ll <= w.Value() < LEN_RANGE
  {
  }

  /** The single-carry rule on plain numbers: high part, low word and the amount added. */
  lemma CarryCount(high: nat, low: nat, b: nat)
    requires low < WORD && b < WORD * WORD
    ensures
      var ll := (low + b) % WORD;
      LenRest(high + ll + if ll < b then WORD else 0) == LenRest(high + low + b)
      <==> b < WORD || low + b < 2 * WORD
  {
    var ll, c := (low + b) % WORD, (low + b) / WORD;
    assert low + b == c * WORD + ll && 0 <= ll < WORD;
    CarriesOf(low, b, c, ll);
    if ll < b {
      SameResidue(high + ll + WORD, (c - 1) * WORD);
    }
  }

  /** How many carries there are, and that none is overlooked. */
  lemma CarriesOf(low: nat, b: nat, c: nat, ll: nat)
    requires low < WORD && b < WORD * WORD && low + b == c * WORD + ll && ll < WORD
    ensures ll < b <==> c > 0
    ensures c <= WORD && (c <= 1 <==> low + b < 2 * WORD) && (b < WORD ==> c <= 1)
  {
  }

  lemma SameResidue(x: nat, d: nat)
    requires d < LEN_RANGE
    ensures x % LEN_RANGE == (x + d) % LEN_RANGE <==> d == 0
  {
    var q, r := x / LEN_RANGE, x % LEN_RANGE;
    if r + d < LEN_RANGE {
      ResidueIs(x + d, q, r + d);
    } else {
      ResidueIs(x + d, q + 1, r + d - LEN_RANGE);
    }
  }

  lemma ResidueIs(x: nat, q: nat, r: nat)
    requires x == q * LEN_RANGE + r && r < LEN_RANGE
    ensures x % LEN_RANGE == r
  {
  }

  /** NBYTES: bytes needed to hold a number of bits. */
  function NBytes(nbits: nat): (r: nat)
    ensures 8 * r >= nbits && 8 * r < nbits + 8
  {
    if nbits > 0 then 1 + (nbits - 1) / 8 else 0
  }

  /** Overwriting bytes from `off` on overwrites the bits from 8 * off on. */
  lemma SplicedBits(was: seq<bv8>, off: nat, src: seq<bv8>, n: nat)
    requires off + |src| <= |was| && n <= 8 * |src|
    ensures ToBits(was[..off] + src + was[off + |src|..])[..8 * off + n] == ToBits(was)[..8 * off] + ToBits(src)[..n]
  {
    hide ToBits;
    ToBitsConcat(was[..off] + src, was[off + |src|..]);
    ToBitsConcat(was[..off], src);
    ToBitsSlice(was, 0, off);
    assert was[0..off] == was[..off] && ToBits(was)[8 * 0 .. 8 * off] == ToBits(was)[..8 * off];
    PrefixOfThree(ToBits(was[..off]), ToBits(src), ToBits(was[off + |src|..]), n);
  }

  /** The first n bits of the bytes from p on. */
  lemma PrefixBits(s: seq<bv8>, p: nat, k: nat, n: nat)
    requires p + k <= |s| && n <= 8 * k
    ensures ToBits(s[p .. p + k])[..n] == ToBits(s)[8 * p .. 8 * p + n]
  {
    hide ToBits;
    ToBitsSlice(s, p, p + k);
    SlicePrefix(ToBits(s), 8 * p, 8 * (p + k), n);
  }

  lemma JoinBits(m: seq<bool>, bits: seq<bool>, i: nat, j: nat)
    requires i <= j <= |bits|
    ensures m + bits[..i] + bits[i..j] == m + bits[..j]
  {
  }

  lemma ZerosGrow(m: seq<bool>, z: nat)
    ensures m + Zeros(z) + [false] == m + Zeros(z + 1)
  {
  }

  lemma ZerosNone(m: seq<bool>)
    ensures m + Zeros(0) == m
  {
  }

  /** Bits added behind m extend its last cnt bits and leave the rest. */
  lemma TailGrows(m: seq<bool>, cnt: nat, add: seq<bool>)
    requires cnt <= |m|
    ensures var m' := m + add; var c := cnt + |add|;
            m'[..|m'| - c] == m[..|m| - cnt] && m'[|m'| - c..] == m[|m| - cnt..] + add
  {
  }

  /** One more whole block of the caller's bytes. */
  lemma NextBlock<H>(alg: Algo<H>, m: seq<bool>, bitstr: seq<bv8>, p: nat, q: nat, blk: seq<bv8>)
    requires alg.Ok() && p <= q <= |bitstr| && 8 * q == 8 * p + alg.blockSize && (|m| + 8 * p) % alg.blockSize == 0
    requires blk == bitstr[p .. q]
    ensures (|m| + 8 * q) % alg.blockSize == 0
    ensures Fold(alg, alg.init, m + ToBits(bitstr)[..8 * q]) ==
            alg.compress(Fold(alg, alg.init, m + ToBits(bitstr)[..8 * p]), blk)
  {
    hide ToBits, Fold;
    FoldBlock(alg, alg.init, m + ToBits(bitstr)[..8 * p], blk);
    ToBitsSlice(bitstr, p, q);
    BlocksAdd(|m| + 8 * p, alg.blockSize, alg.blockSize);
    PrefixGrows(m, ToBits(bitstr), 8 * p, 8 * q);
  }

  lemma PrefixGrows<T>(m: seq<T>, s: seq<T>, a: nat, b: nat)
    requires a <= b <= |s|
    ensures (m + s[..a]) + s[a..b] == m + s[..b]
  {
    assert s[..a] + s[a..b] == s[..b];
  }

  lemma BlocksAdd(a: nat, b: nat, n: nat)
    requires n == 512 || n == 1024
    requires a % n == 0 && b % n == 0
    ensures (a + b) % n == 0
  {
  }

  lemma OctetsLeft(a: nat, b: nat, n: nat)
    requires (n == 512 || n == 1024) && b <= a && (a - b) % n == 0
    ensures b % 8 == a % 8
  {
    if n == 512 { MoreOctets(b, 64 * ((a - b) / 512)); } else { MoreOctets(b, 128 * ((a - b) / 1024)); }
  }

  lemma MoreOctets(b: nat, q: nat)
    ensures (b + 8 * q) % 8 == b % 8
  {
  }

  lemma EvenOctets(a: nat, gap: nat, p: nat)
    requires (a + gap) % 8 == 0
    ensures (a + (gap + 8 * p)) % 8 == 0
  {
  }

  lemma GapOf(a: nat, r: nat)
    requires a % 8 == r
    ensures (a + (8 - r)) % 8 == 0
  {
  }

  /** Up to the end of its octet a count stays within the block. */
  lemma GapFits(cnt: nat, bs: nat)
    requires cnt < bs && (bs == 512 || bs == 1024)
    ensures cnt + (8 - cnt % 8) <= bs && (cnt + (8 - cnt % 8)) % 8 == 0
  {
    var q := cnt / 8;
    assert cnt + (8 - cnt % 8) == 8 * (q + 1);
  }

  /** Buffer bits that end m, followed by n bits copied in after them, end m plus those bits. */
  lemma Appended(m: seq<bool>, before: seq<bv8>, cnt: nat, src: seq<bv8>, n: nat)
    requires cnt % 8 == 0 && cnt <= |m| && cnt / 8 + |src| <= |before| && n <= 8 * |src|
    requires ToBits(before)[..cnt] == m[|m| - cnt..]
    ensures
      var after := before[..cnt / 8] + src + before[cnt / 8 + |src|..];
      ToBits(after)[..cnt + n] == (m + ToBits(src)[..n])[|m| - cnt..]
  {
    hide ToBits;
    SplicedBits(before, cnt / 8, src, n);
  }

  /** The byte shabits completes: the top r bits stay, the rest come from the new data. */
  lemma FilledByte(b: bv8, x: bv8, r: nat, i: nat)
    requires 0 < r < 8 && i < 8
    ensures Bit(Filled(b, x, r), i) == if i < r then Bit(b, i) else Bit(x, i - r)
  {
    hide Bit, Shl, Shr, Or, And;
    KeepBit(b, r, i);
    ShrBit(x, r, i);
    OrBit(And(b, Shl(0xff, 8 - r)), Shr(x, r), i);
  }

  /** The first r bits of b and then the first of x. */
  function Filled(b: bv8, x: bv8, r: nat): bv8
    requires 0 < r < 8
  {
    Or(And(b, Shl(0xff, 8 - r)), Shr(x, r))
  }

  lemma FilledBits(before: seq<bv8>, cnt: nat, x: bv8, k: nat)
    requires cnt % 8 != 0 && cnt / 8 < |before| && k <= 8 - cnt % 8
    ensures
      var q, r := cnt / 8, cnt % 8;
      var after := before[q := Filled(before[q], x, r)];
      ToBits(after)[..cnt + k] == ToBits(before)[..cnt] + ToBits([x])[..k]
  {
    hide ToBits, Filled;
    var q, r := cnt / 8, cnt % 8;
    var after := before[q := Filled(before[q], x, r)];
    forall j | 0 <= j < cnt + k
      ensures ToBits(after)[j] == (ToBits(before)[..cnt] + ToBits([x])[..k])[j]
    {
      FilledBit(before, q, r, x, j / 8, j % 8);
    }
  }

  /** Bit i of octet p, when octet q had all but its first r bits replaced. */
  lemma FilledBit(before: seq<bv8>, q: nat, r: nat, x: bv8, p: nat, i: nat)
    requires 0 < r < 8 && p <= q < |before| && i < 8
    ensures ToBits(before[q := Filled(before[q], x, r)])[8 * p + i] ==
            if 8 * p + i < 8 * q + r then ToBits(before)[8 * p + i] else ToBits([x])[8 * p + i - (8 * q + r)]
  {
    hide Bit, Filled, ToBits;
    ByteBits(before[q := Filled(before[q], x, r)], p, i);
    ByteBits(before, p, i);
    if p == q {
      FilledByte(before[q], x, r, i);
      if i >= r { ByteBits([x], 0, i - r); }
    }
  }

  /** Byte i of the data shifted left by gap bits. */
  function ShiftedByte(b: seq<bv8>, gap: nat, i: nat): bv8
    requires 0 < gap < 8 && i < |b|
  {
    Or(Shl(b[i], gap), if i + 1 < |b| then Shr(b[i + 1], 8 - gap) else 0)
  }

  lemma ZeroOctet(j: nat)
    requires j < 8
    ensures !Bit(0, j)
  {
  }

  lemma ShiftedByteBit(b: seq<bv8>, gap: nat, i: nat, j: nat)
    requires 0 < gap < 8 && i < |b| && j < 8 && 8 * i + j + gap < 8 * |b|
    ensures Bit(ShiftedByte(b, gap, i), j) == ToBits(b)[8 * i + j + gap]
  {
    hide Shl, Shr, Or, ToBits;
    ZeroOctet(j);
    hide Bit;
    ShlBit(b[i], gap, j);
    if i + 1 < |b| {
      ShrBit(b[i + 1], 8 - gap, j);
      OrBit(Shl(b[i], gap), Shr(b[i + 1], 8 - gap), j);
    } else {
      OrBit(Shl(b[i], gap), 0, j);
    }
    if j + gap < 8 {
      ByteBits(b, i, j + gap);
    } else {
      ByteBits(b, i + 1, j + gap - 8);
    }
  }

  /** The scratch buffer holds the data from bit `gap` on. */
  lemma ShiftedBits(b: seq<bv8>, gap: nat, buf: seq<bv8>, n: nat)
    requires 0 < gap < 8 && |buf| <= |b| && n <= 8 * |buf| && n + gap <= 8 * |b|
    requires forall i | 0 <= i < |buf| :: buf[i] == ShiftedByte(b, gap, i)
    ensures ToBits(buf)[..n] == ToBits(b)[gap .. gap + n]
  {
    hide ToBits, ShiftedByte, Bit;
    forall k | 0 <= k < n
      ensures ToBits(buf)[k] == ToBits(b)[gap + k]
    {
      var i, j := k / 8, k % 8;
      assert k == 8 * i + j;
      ByteBits(buf, i, j);
      ShiftedByteBit(b, gap, i, j);
    }
  }

  class Sha<H> {
    const alg: Algo<H>
    const block: array<bv8>
    var blockcnt: nat
    var h: H
    var len: LenWords
    ghost var msg: seq<bool>

    /** The chaining state has absorbed all of m but its last cnt bits, and the buffer starts with those. */
    ghost predicate PartAt(m: seq<bool>, cnt: nat)
      reads this`h, block
    {
      && alg.Ok() && block.Length == 128
      && cnt <= alg.blockSize && cnt <= |m| && (|m| - cnt) % alg.blockSize == 0
      && h == Fold(alg, alg.init, m[..|m| - cnt])
      && ToBits(block[..])[..cnt] == m[|m| - cnt..]
    }

    ghost predicate Part(m: seq<bool>)
      reads this`h, this`blockcnt, block
    {
      PartAt(m, blockcnt) && blockcnt < alg.blockSize
    }

    /** The object has been given exactly the bits of msg, whatever its length words say. */
    ghost predicate Holds()
      reads this, block
    {
      Part(msg) && len.Ok()
    }

    /** The length words are right too. */
    ghost predicate Valid()
      reads this, block
    {
      Holds() && len.Value() == |msg| % LEN_RANGE
    }

    constructor (alg: Algo<H>)
      requires alg.Ok()
      ensures Valid() && msg == [] && len == LenWords(0, 0, 0, 0) && this.alg == alg && fresh(block)
    {
      this.alg := alg;
      block := new bv8[128](_ => 0);
      blockcnt := 0;
      h := alg.init;
      len := LenWords(0, 0, 0, 0);
      msg := [];
    }

    lemma Room()
      requires Holds()
      ensures blockcnt < 1024
    {
    }

    lemma Aligned(m: seq<bool>)
      requires Part(m)
      ensures blockcnt % 8 == |m| % 8
    {
      hide ToBits, Fold;
      OctetsLeft(|m|, blockcnt, alg.blockSize);
    }

    /** Run the compression function on the block and empty it. */
    method Flush(ghost m: seq<bool>)
      requires PartAt(m, alg.blockSize)
      modifies this`h, this`blockcnt
      ensures Part(m) && blockcnt == 0
    {
      hide ToBits, Fold;
      var n := alg.blockSize;
      ghost var a := m[..|m| - n];
      ToBitsSlice(block[..], 0, n / 8);
      assert block[..][0 .. n / 8] == block[..n / 8];
      assert m == a + ToBits(block[..n / 8]);
      FoldBlock(alg, alg.init, a, block[..n / 8]);
      BlocksAdd(|a|, n, n);
      h := alg.compress(h, block[..n / 8]);
      blockcnt := 0;
      assert m[..|m| - 0] == m;
    }

    /** shadirect: whole blocks go straight from the caller's bytes, the rest into the buffer. */
    method Direct(bitstr: seq<bv8>, bitcnt: nat, ghost m: seq<bool>)
      requires Part(m) && blockcnt == 0 && bitcnt <= 8 * |bitstr|
      modifies this`h, this`blockcnt, block
      ensures Part(m + ToBits(bitstr)[..bitcnt])
    {
      hide ToBits, Fold;
      var p, n := WholeBlocks(bitstr, bitcnt, m);
      DirectTail(bitstr, bitcnt, p, n, m);
    }

    /** What is left after the whole blocks goes into the buffer. */
    method DirectTail(bitstr: seq<bv8>, bitcnt: nat, p: nat, n: nat, ghost m: seq<bool>)
      requires alg.Ok() && block.Length == 128 && blockcnt == 0 && bitcnt <= 8 * |bitstr|
      requires 8 * p + n == bitcnt && n < alg.blockSize && (|m| + 8 * p) % alg.blockSize == 0
      requires h == Fold(alg, alg.init, m + ToBits(bitstr)[..8 * p])
      modifies this`blockcnt, block
      ensures Part(m + ToBits(bitstr)[..bitcnt])
    {
      hide ToBits, Fold;
      ghost var bits := ToBits(bitstr);
      ghost var m' := m + bits[..8 * p];
      assert m'[..|m'| - 0] == m';
      if n > 0 {
        var src := bitstr[p .. p + NBytes(n)];
        Splice(src, n, m');
        blockcnt := n;
        PrefixBits(bitstr, p, NBytes(n), n);
        JoinBits(m, bits, 8 * p, bitcnt);
      }
    }

    /** Whole blocks are compressed straight from the caller's bytes. */
    method WholeBlocks(bitstr: seq<bv8>, bitcnt: nat, ghost m: seq<bool>) returns (p: nat, n: nat)
      requires Part(m) && blockcnt == 0 && bitcnt <= 8 * |bitstr|
      modifies this`h
      ensures 8 * p + n == bitcnt && n < alg.blockSize && (|m| + 8 * p) % alg.blockSize == 0
      ensures h == Fold(alg, alg.init, m + ToBits(bitstr)[..8 * p])
    {
      hide ToBits, Fold;
      var bs := alg.blockSize;
      p, n := 0, bitcnt;
      assert m + ToBits(bitstr)[..8 * p] == m && m[..|m| - 0] == m;
      while n >= bs
        invariant 8 * p + n == bitcnt
        invariant (|m| + 8 * p) % bs == 0
        invariant h == Fold(alg, alg.init, m + ToBits(bitstr)[..8 * p])
      {
        var blk := bitstr[p .. p + bs / 8];
        NextBlock(alg, m, bitstr, p, p + bs / 8, blk);
        h := alg.compress(h, blk);
        p, n := p + bs / 8, n - bs;
      }
    }

    /** memcpy of n bits behind a byte-aligned buffer; blockcnt is left to the caller. */
    method Splice(src: seq<bv8>, n: nat, ghost m: seq<bool>)
      requires PartAt(m, blockcnt) && (blockcnt % 8 == 0 || n == 0)
      requires blockcnt + n <= alg.blockSize && |src| == NBytes(n)
      modifies block
      ensures PartAt(m + ToBits(src)[..n], blockcnt + n)
    {
      hide ToBits, Fold;
      var offset := blockcnt / 8;
      ghost var before, m' := block[..], m + ToBits(src)[..n];
      if n > 0 {
        Appended(m, before, blockcnt, src, n);
      } else {
        assert m' == m;
      }
      CopyInto(block, offset, src);
      assert block[..] == before[..offset] + src + before[offset + |src|..];
      assert n == 0 ==> block[..] == before;
      assert m'[..|m'| - (blockcnt + n)] == m[..|m| - blockcnt];
    }

    /** shabytes: the buffer ends on a byte boundary. */
    method Bytes(bitstr: seq<bv8>, bitcnt: nat, ghost m: seq<bool>)
      requires Part(m) && (blockcnt % 8 == 0 || bitcnt == 0) && bitcnt <= 8 * |bitstr|
      modifies this`h, this`blockcnt, block
      ensures Part(m + ToBits(bitstr)[..bitcnt])
    {
      hide ToBits, Fold, PartAt;
      ghost var bits := ToBits(bitstr);
      if blockcnt + bitcnt >= alg.blockSize {
        var q := Complete(bitstr, m);
        var k := |bitstr| - q;
        PrefixBits(bitstr, q, k, bitcnt - 8 * q);
        Direct(bitstr[q .. q + k], bitcnt - 8 * q, m + bits[..8 * q]);
        JoinBits(m, bits, 8 * q, bitcnt);
      } else {
        Extend(bitstr, bitcnt, m);
      }
    }

    /** The first half of shabytes: fill up the current block and transform it. */
    method Complete(bitstr: seq<bv8>, ghost m: seq<bool>) returns (q: nat)
      requires Part(m) && blockcnt % 8 == 0 && blockcnt + 8 * |bitstr| >= alg.blockSize
      modifies this`h, this`blockcnt, block
      ensures q <= |bitstr| && old(blockcnt) + 8 * q == alg.blockSize
      ensures blockcnt == 0 && Part(m + ToBits(bitstr)[..8 * q])
    {
      hide ToBits, Fold;
      var nbits := alg.blockSize - blockcnt;
      q := nbits / 8;
      PrefixBits(bitstr, 0, q, nbits);
      Splice(bitstr[0 .. 0 + q], nbits, m);
      Flush(m + ToBits(bitstr)[..nbits]);
    }

    /** The other half of shabytes: the new bits do not fill the block. */
    method Extend(bitstr: seq<bv8>, bitcnt: nat, ghost m: seq<bool>)
      requires Part(m) && (blockcnt % 8 == 0 || bitcnt == 0)
      requires bitcnt <= 8 * |bitstr| && blockcnt + bitcnt < alg.blockSize
      modifies this`blockcnt, block
      ensures Part(m + ToBits(bitstr)[..bitcnt])
    {
      hide ToBits, Fold;
      PrefixBits(bitstr, 0, NBytes(bitcnt), bitcnt);
      Splice(bitstr[0 .. 0 + NBytes(bitcnt)], bitcnt, m);
      blockcnt := blockcnt + bitcnt;
    }
  
    /** The head of shabits: complete the partly filled byte, and flush when that ends the block. */
    method FillByte(x: bv8, bitcnt: nat, ghost m: seq<bool>)
      requires Part(m) && blockcnt % 8 != 0 && 0 < bitcnt
      modifies this`h, this`blockcnt, block
      ensures
        var gap := 8 - old(blockcnt) % 8;
        var k := if bitcnt < gap then bitcnt else gap;
        Part(m + ToBits([x])[..k]) && (gap <= bitcnt ==> blockcnt % 8 == 0)
    {
      hide ToBits, Fold, PartAt;
      var gap := 8 - blockcnt % 8;
      var k := if bitcnt < gap then bitcnt else gap;
      PartSizes(m, blockcnt);
      GapFits(blockcnt, alg.blockSize);
      FillBits(x, k, m);
      if bitcnt >= gap && blockcnt == alg.blockSize {
        Flush(m + ToBits([x])[..k]);
      }
    }

    /** The next k bits go into the partly filled octet. */
    method FillBits(x: bv8, k: nat, ghost m: seq<bool>)
      requires Part(m) && blockcnt % 8 != 0 && k <= 8 - blockcnt % 8
      modifies this`blockcnt, block
      ensures PartAt(m + ToBits([x])[..k], blockcnt) && blockcnt == old(blockcnt) + k
    {
      hide ToBits, Fold, Filled;
      ghost var before := block[..];
      GapFits(blockcnt, alg.blockSize);
      FilledBits(before, blockcnt, x, k);
      FillTop(blockcnt / 8, 8 - blockcnt % 8, x);
      TailGrows(m, blockcnt, ToBits([x])[..k]);
      blockcnt := blockcnt + k;
    }

    /** The lower bits of one octet are cleared and filled from the top of x. */
    method FillTop(q: nat, gap: nat, x: bv8)
      requires q < block.Length && 0 < gap < 8
      modifies block
      ensures block[..] == old(block[..])[q := Filled(old(block[q]), x, 8 - gap)]
    {
      hide Shl, Shr, Or, And;
      block[q] := And(block[q], Shl(0xff, gap));
      block[q] := Or(block[q], Shr(x, 8 - gap));
    }

    /** shabits: the buffer ends inside a byte, so the data is shifted through a scratch buffer. */
    method Shifted(bitstr: seq<bv8>, bitcnt: nat, ghost m: seq<bool>)
      requires Part(m) && blockcnt % 8 != 0 && 0 < bitcnt <= 8 * |bitstr|
      modifies this`h, this`blockcnt, block
      ensures Part(m + ToBits(bitstr)[..bitcnt])
    {
      hide ToBits, Fold, Part, PartAt, Bit, Shl, Shr, ShiftedByte;
      ghost var bits := ToBits(bitstr);
      var gap := 8 - blockcnt % 8;
      Aligned(m);
      GapOf(|m|, blockcnt % 8);
      PrefixBits(bitstr, 0, 1, if bitcnt < gap then bitcnt else gap);
      assert bitstr[0 .. 0 + 1] == [bitstr[0]];
      FillByte(bitstr[0], bitcnt, m);
      if bitcnt <= gap {
        return;
      }
      var buf := new bv8[512](_ => 0);
      var p: nat, n: nat, nbytes: nat := 0, bitcnt - gap, NBytes(bitcnt);
      while nbytes > 512
        invariant p + nbytes == NBytes(bitcnt) && 1 <= nbytes
        invariant n == 0 || bitcnt - n == gap + 8 * p
        invariant n <= bitcnt && (n == 0 ==> nbytes <= 512)
        invariant Part(m + bits[..bitcnt - n])
      {
        ShiftLoop(buf, bitstr[p .. p + nbytes], gap, 512);
        var nbits := if n < 4096 then n else 4096;
        Feed(buf[..512], bitstr, bitcnt, gap, p, nbytes, n, nbits, m);
        n, p, nbytes := n - nbits, p + 512, nbytes - 512;
      }
      var b := bitstr[p .. p + nbytes];
      ShiftLoop(buf, b, gap, nbytes - 1);
      buf[nbytes - 1] := Shl(b[nbytes - 1], gap);
      LastShifted(b, gap);
      Feed(buf[..nbytes], bitstr, bitcnt, gap, p, nbytes, n, n, m);
    }

    /** Bits of the scratch buffer are taken in: they are the next ones of the caller's. */
    method Feed(buf: seq<bv8>, bitstr: seq<bv8>, bitcnt: nat, gap: nat, p: nat, nbytes: nat, n: nat, nbits: nat,
                ghost m: seq<bool>)
      requires 0 < gap < 8 && p + nbytes <= |bitstr| && |buf| <= nbytes && n <= bitcnt <= 8 * (p + nbytes)
      requires (n == 0 || bitcnt - n == gap + 8 * p) && nbits <= n && nbits <= 8 * |buf|
      requires forall i | 0 <= i < |buf| :: buf[i] == ShiftedByte(bitstr[p .. p + nbytes], gap, i)
      requires Part(m + ToBits(bitstr)[..bitcnt - n]) && (|m| + gap) % 8 == 0
      modifies this`h, this`blockcnt, block
      ensures Part(m + ToBits(bitstr)[..bitcnt - n + nbits])
    {
      hide ToBits, Fold, Part, PartAt, ShiftedByte;
      ghost var bits := ToBits(bitstr);
      Window(bitstr, bitcnt, gap, p, nbytes, buf, n, nbits);
      Aligned(m + bits[..bitcnt - n]);
      if n > 0 { EvenOctets(|m|, gap, p); }
      Bytes(buf, nbits, m + bits[..bitcnt - n]);
      JoinBits(m, bits, bitcnt - n, bitcnt - n + nbits);
    }

    /** shawrite: the bits are appended to the message. The length words stay right exactly when at most one carry
        leaves the low one. The bits in the block and the new ones are added in an unsigned long; the unaligned path
        counts octets in an unsigned int. */
    method Write(bitstr: seq<bv8>, bitcnt: nat) returns (rc: nat)
      requires Holds() && bitcnt <= 8 * |bitstr| && blockcnt + bitcnt < WORD * WORD
      requires blockcnt % 8 == 0 || bitcnt <= 8 * (WORD - 1)
      modifies this, block
      ensures Holds() && msg == old(msg) + ToBits(bitstr)[..bitcnt] && rc == bitcnt
      ensures len == if bitcnt < 1 then old(len) else AddLen(old(len), bitcnt)
      ensures old(Valid()) ==> (Valid() <==> bitcnt < WORD || old(len.ll) + bitcnt < 2 * WORD)
    {
      hide ToBits, Fold, PartAt, AddLen, LenWords.Value;
      if bitcnt < 1 {
        assert msg + ToBits(bitstr)[..bitcnt] == msg;
        return 0;
      }
      AddLenExact(len, bitcnt);
      LengthNow(len, |msg|, bitcnt);
      len := AddLen(len, bitcnt);
      if blockcnt == 0 {
        Direct(bitstr, bitcnt, msg);
      } else if blockcnt % 8 == 0 {
        Bytes(bitstr, bitcnt, msg);
      } else {
        Shifted(bitstr, bitcnt, msg);
      }
      msg := msg + ToBits(bitstr)[..bitcnt];
      return bitcnt;
    }

    /** One bit is set or cleared behind the buffer's last bit, which is then counted in. */
    method PutBit(v: bool, ghost m: seq<bool>)
      requires Part(m)
      modifies this`blockcnt, block
      ensures PartAt(m + [v], blockcnt) && blockcnt == old(blockcnt) + 1
    {
      hide ToBits, Fold;
      ghost var before, m' := block[..], m + [v];
      PutBits(before, blockcnt, v);
      Touch(blockcnt / 8, blockcnt % 8, v);
      blockcnt := blockcnt + 1;
      TailGrows(m, blockcnt - 1, [v]);
    }

    /** The two bit macros. */
    method Touch(q: nat, i: nat, v: bool)
      requires q < block.Length && i < 8
      modifies block
      ensures block[..] == old(block[..])[q := Touched(old(block[q]), i, v)]
    {
      hide Touched;
      block[q] := Touched(block[q], i, v);
    }

    /** The padding loops of shafinish: a one, then zeros up to the length field. */
    method PadBlock(lenpos: nat) returns (ghost z: nat)
      requires Part(msg) && lenpos == alg.blockSize - LenField(alg.blockSize)
      modifies this`h, this`blockcnt, block
      ensures blockcnt == lenpos && z == ZeroCount(|msg|, alg.blockSize)
      ensures PartAt(msg + [true] + Zeros(z), lenpos)
    {
      hide ToBits, Fold, PartAt, Zeros, ZeroCount;
      ghost var r, bs := blockcnt, alg.blockSize;
      PartSizes(msg, blockcnt);
      z := PadOut(lenpos);
      while blockcnt < lenpos
        invariant blockcnt <= lenpos && PartAt(msg + [true] + Zeros(z), blockcnt)
        invariant r + 1 + z == if r + 1 > lenpos then bs + blockcnt else blockcnt
      {
        PutBit(false, msg + [true] + Zeros(z));
        ZerosGrow(msg + [true], z);
        z := z + 1;
      }
      ZeroCountOf(|msg|, r, bs);
    }

    /** A one, and zeros to the end of the block when the length field no longer fits in it. */
    method PadOut(lenpos: nat) returns (ghost z: nat)
      requires Part(msg) && lenpos == alg.blockSize - LenField(alg.blockSize)
      modifies this`h, this`blockcnt, block
      ensures blockcnt <= lenpos && PartAt(msg + [true] + Zeros(z), blockcnt)
      ensures old(blockcnt) + 1 + z == if old(blockcnt) + 1 > lenpos then alg.blockSize + blockcnt else blockcnt
    {
      hide ToBits, Fold, PartAt, Zeros;
      z := 0;
      ghost var r, bs := blockcnt, alg.blockSize;
      PartSizes(msg, blockcnt);
      PutBit(true, msg);
      ZerosNone(msg + [true]);
      while blockcnt > lenpos
        invariant PartAt(msg + [true] + Zeros(z), blockcnt) && blockcnt <= bs
        invariant blockcnt == r + 1 + z || (blockcnt == 0 && r + 1 + z == bs && r + 1 > lenpos)
        invariant z > 0 ==> r + 1 > lenpos
        decreases if blockcnt > lenpos then bs + 1 - blockcnt else 0
      {
        ghost var m := msg + [true] + Zeros(z);
        if blockcnt < alg.blockSize {
          PutBit(false, m);
          ZerosGrow(msg + [true], z);
          z := z + 1;
        } else {
          Flush(m);
        }
      }
    }

    lemma PartSizes(m: seq<bool>, cnt: nat)
      requires PartAt(m, cnt)
      ensures alg.Ok() && cnt <= |m| && (|m| - cnt) % alg.blockSize == 0
    {
    }

    /** shafinish: the final state is the fold over the message padded with what the length words say; when these are
        right, over the padded message of the standard. */
    method Finish()
      requires Holds()
      modifies this`h, this`blockcnt, block
      ensures h == Fold(alg, alg.init, PadWith(msg, len.Value(), alg.blockSize))
      ensures old(Valid()) ==> h == Fold(alg, alg.init, Pad(msg, alg.blockSize))
    {
      hide ToBits, Fold, NatBits, CountOctets, LenWords.Value;
      var lenpos := if alg.blockSize == 512 then 448 else 896;
      ghost var z := PadBlock(lenpos);
      ghost var m := msg + [true] + Zeros(z);
      var src := if alg.blockSize > 512
        then CountOctets(len.hh) + CountOctets(len.hl) + CountOctets(len.lh) + CountOctets(len.ll)
        else CountOctets(len.lh) + CountOctets(len.ll);
      LenBitsAny(len, |msg|, alg.blockSize);
      Splice(src, 8 * |src|, m);
      assert ToBits(src)[..8 * |src|] == ToBits(src);
      Flush(m + ToBits(src));
      assert (m + ToBits(src))[..|m + ToBits(src)| - 0] == m + ToBits(src);
    }

    /** shadigest, which is digcpy: the state's words go out in big-endian order, as many octets as the digest has. */
    method Digest() returns (d: seq<bv8>)
      requires alg.Ok()
      ensures d == DigestOf(alg, h)
      ensures forall i: nat | 4 * i + 4 <= |d| ::
                i < |alg.words(h)| && BigEndian(d[4 * i], d[4 * i + 1], d[4 * i + 2], d[4 * i + 3]) == alg.words(h)[i]
    {
      hide WordOctets, BigEndian;
      var ws, out, i := alg.words(h), [], 0;
      while i < |ws|
        invariant 0 <= i <= |ws| && out == Octets(ws[..i])
      {
        var o := W32Mem(ws[i]);
        assert ws[..i + 1][..i] == ws[..i];
        out, i := out + o, i + 1;
      }
      assert ws[..i] == ws;
      d := if |out| <= alg.digestLen then out else out[..alg.digestLen];
      forall i: nat | 4 * i + 4 <= |d|
        ensures i < |ws| && BigEndian(d[4 * i], d[4 * i + 1], d[4 * i + 2], d[4 * i + 3]) == ws[i]
      {
        DigestWords(alg, h, i);
      }
    }
  }

  /** w32mem. */
  method W32Mem(w: bv32) returns (o: seq<bv8>)
    ensures o == WordOctets(w)
  {
    hide OctetAt;
    o := [];
    for i := 0 to 4
      invariant o == WordOctets(w)[..i]
    {
      o := o + [OctetAt(w, i)];
    }
  }

  /** The words were right for n bits: they are right for b more exactly as AddLenExact says. */
  lemma LengthNow(w: LenWords, n: nat, b: nat)
    requires w.Ok() && b < WORD * WORD
    ensures w.Value() == n % LEN_RANGE ==>
              (AddLen(w, b).Value() == (n + b) % LEN_RANGE <==> b < WORD || w.ll + b < 2 * WORD)
  {
    AddLenExact(w, b);
    hide AddLen, LenWords.Value;
    ResidueAdd(n, b);
  }

  lemma ResidueAdd(n: nat, b: nat)
    ensures (n % LEN_RANGE + b) % LEN_RANGE == (n + b) % LEN_RANGE
  {
  }

  function Touched(b: bv8, i: nat, v: bool): bv8
    requires i < 8
  {
    if v then Or(b, Mask(i)) else And(b, Not(Mask(i)))
  }

  lemma PutBits(before: seq<bv8>, cnt: nat, v: bool)
    requires cnt < 8 * |before|
    ensures ToBits(before[cnt / 8 := Touched(before[cnt / 8], cnt % 8, v)])[..cnt + 1] == ToBits(before)[..cnt] + [v]
  {
    hide ToBits, Touched;
    var q := cnt / 8;
    var after := before[q := Touched(before[q], cnt % 8, v)];
    forall j | 0 <= j < cnt + 1
      ensures ToBits(after)[j] == (ToBits(before)[..cnt] + [v])[j]
    {
      TouchedBit(before, cnt, v, j);
    }
  }

  lemma TouchedBit(before: seq<bv8>, cnt: nat, v: bool, j: nat)
    requires cnt < 8 * |before| && j <= cnt
    ensures ToBits(before[cnt / 8 := Touched(before[cnt / 8], cnt % 8, v)])[j] == if j < cnt then ToBits(before)[j]
            else v
  {
    hide Bit, Touched, ToBits;
    var q := cnt / 8;
    var after := before[q := Touched(before[q], cnt % 8, v)];
    ByteBits(after, j / 8, j % 8);
    ByteBits(before, j / 8, j % 8);
    if j / 8 == q {
      TouchedInByte(before[q], cnt % 8, v, j % 8);
    }
  }

  lemma TouchedInByte(b: bv8, p: nat, v: bool, i: nat)
    requires p < 8 && i < 8
    ensures Bit(Touched(b, p, v), i) == if i == p then v else Bit(b, i)
  {
    hide Bit, Mask, Or, And, Not;
    MaskBit(b, p, i);
  }

  lemma ZeroCountOf(n: nat, r: nat, bs: nat)
    requires (bs == 512 || bs == 1024) && r < bs && r <= n && (n - r) % bs == 0
    ensures ZeroCount(n, bs) ==
      var lenpos := bs - LenField(bs);
      if r + 1 > lenpos then bs + lenpos - r - 1 else lenpos - r - 1
  {
    if bs == 512 { ZeroCountAt512(n, (n - r) / 512, r); } else { ZeroCountAt1024(n, (n - r) / 1024, r); }
  }

  lemma ZeroCountAt512(n: nat, q: nat, r: nat)
    requires n == 512 * q + r && r < 512
    ensures ZeroCount(n, 512) == if r + 1 > 448 then 959 - r else 447 - r
  {
    assert n % 512 == r;
  }

  lemma ZeroCountAt1024(n: nat, q: nat, r: nat)
    requires n == 1024 * q + r && r < 1024
    ensures ZeroCount(n, 1024) == if r + 1 > 896 then 1919 - r else 895 - r
  {
    assert n % 1024 == r;
  }

  /** w32mem for a word of a count, which is a number here; WordOctets is the same for the words of a state, which are
      bit vectors. */
  function CountOctets(w: nat): (r: seq<bv8>)
    ensures |r| == 4
  {
    [ByteOf(w / 0x1000000), ByteOf(w / 0x10000), ByteOf(w / 0x100), ByteOf(w)]
  }

  lemma ByteOfBits(n: nat)
    ensures ToBits([ByteOf(n)]) == NatBits(n, 8)
  {
    forall i | 0 <= i < 8
      ensures ToBits([ByteOf(n)])[i] == NatBits(n, 8)[i]
    {
      PackByteBit(NatBits(n, 8), i);
    }
  }

  lemma NatBits8(q: nat, n: nat, hi: nat)
    requires q == n / 256
    ensures NatBits(n, hi + 8) == NatBits(q, hi) + NatBits(n, 8)
  {
    assert Pow2(8) == 256;
    NatBitsSplit(q, n % 256, hi, 8);
    NatBitsMod(n % 256, n, 8);
  }

  lemma WordBits(w: nat)
    ensures ToBits(CountOctets(w)) == NatBits(w, 32)
  {
    hide ToBits, NatBits;
    var a, b, c := w / 0x1000000, w / 0x10000, w / 0x100;
    NatBits8(c, w, 24);
    NatBits8(b, c, 16);
    NatBits8(a, b, 8);
    ByteOfBits(w); ByteOfBits(c); ByteOfBits(b); ByteOfBits(a);
    var x, y, z, t := [ByteOf(a)], [ByteOf(b)], [ByteOf(c)], [ByteOf(w)];
    ToBitsConcat(x, y); ToBitsConcat(x + y, z); ToBitsConcat(x + y + z, t);
    assert CountOctets(w) == x + y + z + t;
  }

  lemma Width8()
    ensures Pow2(8) == 256
  {
  }

  lemma Widths()
    ensures Pow2(32) == WORD && Pow2(64) == WORD * WORD && Pow2(128) == LEN_RANGE
  {
    hide Pow2;
    Width8();
    Pow2Add(8, 8);
    assert Pow2(16) == 0x1_0000;
    Pow2Add(16, 16);
    assert Pow2(32) == WORD;
    Pow2Add(32, 32);
    assert Pow2(64) == WORD * WORD;
    Pow2Add(64, 64);
  }

  lemma NatBits32(q: nat, r: nat, hi: nat)
    requires r < WORD
    ensures NatBits(q * WORD + r, hi + 32) == NatBits(q, hi) + NatBits(r, 32)
  {
    hide NatBits, Pow2;
    Widths();
    NatBitsSplit(q, r, hi, 32);
  }

  lemma LenBits64(w: LenWords, n: nat)
    requires w.Ok() && w.Value() == n % LEN_RANGE
    ensures NatBits(n, 64) == NatBits(w.lh, 32) + NatBits(w.ll, 32)
  {
    hide NatBits, Pow2;
    var low := w.lh * WORD + w.ll;
    var k := n / LEN_RANGE;
    var q := k * WORD * WORD + w.hh * WORD + w.hl;
    assert n == k * LEN_RANGE + w.Value();
    assert n == q * (WORD * WORD) + low;
    DropHigh(n, q, low, 64);
    NatBits32(w.lh, w.ll, 32);
  }

  /** Bits above the width do not show. */
  lemma DropHigh(n: nat, q: nat, r: nat, w: nat)
    requires (w == 64 && r < WORD * WORD && n == q * (WORD * WORD) + r)
             || (w == 128 && r < LEN_RANGE && n == q * LEN_RANGE + r)
    ensures NatBits(n, w) == NatBits(r, w)
  {
    Widths();
    NatBitsSplit(q, r, 0, w);
    assert NatBits(q, 0) == [];
  }

  lemma LenBits128(w: LenWords, n: nat)
    requires w.Ok() && w.Value() == n % LEN_RANGE
    ensures NatBits(n, 128) == NatBits(w.hh, 32) + NatBits(w.hl, 32) + NatBits(w.lh, 32) + NatBits(w.ll, 32)
  {
    hide NatBits, Pow2;
    ValueBound(w);
    DropHigh(n, n / LEN_RANGE, w.Value(), 128);
    var v2 := w.hh * WORD + w.hl;
    var v1 := v2 * WORD + w.lh;
    NatBits32(v1, w.ll, 96);
    NatBits32(v2, w.lh, 64);
    NatBits32(w.hh, w.hl, 32);
  }

  /** The length words, written big-endian, are the length field of the padding. */
  lemma LenBits(w: LenWords, n: nat, bs: nat)
    requires w.Ok() && w.Value() == n % LEN_RANGE && (bs == 512 || bs == 1024)
    ensures bs == 512 ==> ToBits(CountOctets(w.lh) + CountOctets(w.ll)) == NatBits(n, 64)
    ensures bs == 1024 ==>
      ToBits(CountOctets(w.hh) + CountOctets(w.hl) + CountOctets(w.lh) + CountOctets(w.ll)) == NatBits(n, 128)
  {
    hide ToBits, NatBits, CountOctets;
    var a, b, c, d := CountOctets(w.hh), CountOctets(w.hl), CountOctets(w.lh), CountOctets(w.ll);
    WordBits(w.hh); WordBits(w.hl); WordBits(w.lh); WordBits(w.ll);
    ToBitsConcat(c, d); ToBitsConcat(a, b); ToBitsConcat(a + b, c); ToBitsConcat(a + b + c, d);
    if bs == 512 {
      LenBits64(w, n);
    } else {
      LenBits128(w, n);
    }
  }

  /** Whatever the length words say is written, and that is the length when they are right. */
  lemma LenBitsAny(w: LenWords, n: nat, bs: nat)
    requires w.Ok() && (bs == 512 || bs == 1024)
    ensures bs == 512 ==> ToBits(CountOctets(w.lh) + CountOctets(w.ll)) == NatBits(w.Value(), 64)
    ensures bs == 1024 ==>
      ToBits(CountOctets(w.hh) + CountOctets(w.hl) + CountOctets(w.lh) + CountOctets(w.ll)) == NatBits(w.Value(), 128)
    ensures w.Value() == n % LEN_RANGE ==> NatBits(n, LenField(bs)) == NatBits(w.Value(), LenField(bs))
  {
    ValueBound(w);
    hide ToBits, NatBits, CountOctets, LenWords.Value;
    SmallRest(w.Value());
    LenBits(w, w.Value(), bs);
    if w.Value() == n % LEN_RANGE { LenBits(w, n, bs); }
  }

  lemma SmallRest(v: nat)
    requires v < LEN_RANGE
    ensures v % LEN_RANGE == v
  {
  }

  lemma LastShifted(b: seq<bv8>, gap: nat)
    requires 0 < gap < 8 && |b| > 0
    ensures ShiftedByte(b, gap, |b| - 1) == Shl(b[|b| - 1], gap)
  {
  }

  /** The scratch buffer is a window onto the unconsumed bits. */
  lemma Window(bitstr: seq<bv8>, bitcnt: nat, gap: nat, p: nat, nbytes: nat, buf: seq<bv8>, n: nat, k: nat)
    requires 0 < gap < 8 && p + nbytes <= |bitstr| && |buf| <= nbytes && n <= bitcnt <= 8 * (p + nbytes)
    requires n == 0 || bitcnt - n == gap + 8 * p
    requires forall i | 0 <= i < |buf| :: buf[i] == ShiftedByte(bitstr[p .. p + nbytes], gap, i)
    requires k <= n && k <= 8 * |buf|
    ensures ToBits(buf)[..k] == ToBits(bitstr)[bitcnt - n .. bitcnt - n + k]
  {
    hide ToBits, ShiftedByte;
    if k > 0 {
      var b := bitstr[p .. p + nbytes];
      ShiftedBits(b, gap, buf, k);
      ToBitsSlice(bitstr, p, p + nbytes);
      assert bitcnt - n == 8 * p + gap && gap + k <= 8 * nbytes;
      SliceOfSlice(ToBits(bitstr), 8 * p, 8 * (p + nbytes), gap, gap + k);
      assert ToBits(b)[gap .. gap + k] == ToBits(bitstr)[bitcnt - n .. bitcnt - n + k];
    }
  }

  /** The scratch buffer gets the octets of b, each moved up by gap bits and filled from the next one. */
  method ShiftLoop(buf: array<bv8>, b: seq<bv8>, gap: nat, n: nat)
    requires 0 < gap < 8 && n < |b| && n <= buf.Length
    modifies buf
    ensures forall i | 0 <= i < n :: buf[i] == ShiftedByte(b, gap, i)
  {
    for i := 0 to n
      invariant forall j | 0 <= j < i :: buf[j] == ShiftedByte(b, gap, j)
    {
      buf[i] := Or(Shl(b[i], gap), Shr(b[i + 1], 8 - gap));
    }
  }
}
