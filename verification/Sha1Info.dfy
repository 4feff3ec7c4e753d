/** The second SHA-1 of the repository, Digest-SHA1: six rotating registers, an 80-word schedule, byte-granular
    updates. */
module Sha1Info {
  import opened Sequences
  import opened Bits
  import opened ShaSpec
  import opened ShaStream
  import opened Fips180
  import opened ShaTransform

  // ----- sha_transform

  function InfoCh(x: bv32, y: bv32, z: bv32): bv32 { (x & y) | (!x & z) }
  function InfoMaj(x: bv32, y: bv32, z: bv32): bv32 { (x & y) | (x & z) | (y & z) }

  lemma InfoChForms(x: bv32, y: bv32, z: bv32)
    ensures InfoCh(x, y, z) == Ch(x, y, z)
  {
    assert (x & y) | (!x & z) == (x & y) ^ (!x & z);
  }

  lemma InfoMajForms(x: bv32, y: bv32, z: bv32)
    ensures InfoMaj(x, y, z) == Maj(x, y, z)
  {
    assert (x & y) | (x & z) | (y & z) == (x & y) ^ (x & z) ^ (y & z);
  }

  function InfoF(t: nat, x: bv32, y: bv32, z: bv32): bv32 {
    if t < 20 then InfoCh(x, y, z) else if t < 40 then Parity(x, y, z) else if t < 60 then InfoMaj(x, y, z)
    else Parity(x, y, z)
  }

  function InfoSum(r: bv32, f: bv32, e: bv32, w: bv32, k: bv32): bv32 { r + f + e + w + k }

  lemma InfoSumForms(r: bv32, f: bv32, e: bv32, w: bv32, k: bv32)
    ensures InfoSum(r, f, e, w, k) == Sum5(r, f, e, k, w)
  {
    assert r + f + e + w + k == r + f + e + k + w;
  }

  /** The value FA .. FT put into the spare register. */
  function FNew(a: bv32, b: bv32, c: bv32, d: bv32, e: bv32, t: nat, w: bv32): bv32 {
    InfoSum(Rotl5(a), InfoF(t, b, c, d), e, w, K1(t))
  }

  lemma FIsStep(s: State1, t: nat, w: bv32)
    ensures Step1(s, t, w) == State1(FNew(s.a, s.b, s.c, s.d, s.e, t, w), s.a, Rotl30(s.b), s.c, s.d)
  {
    hide InfoCh, Ch, InfoMaj, Maj, Rotl5, Rotl30, Parity, K1, InfoSum, Sum5;
    InfoChForms(s.b, s.c, s.d);
    InfoMajForms(s.b, s.c, s.d);
    InfoSumForms(Rotl5(s.a), F1(t, s.b, s.c, s.d), s.e, w, K1(t));
  }

  /** The schedule loop: all eighty words up front. */
  method Expand(w: Words) returns (W: array<bv32>)
    ensures fresh(W) && W.Length == 80 && forall j | 0 <= j < 80 :: W[j] == Sched1(w, j)
  {
    hide Rotl1, Sched1, Mix1;
    W := new bv32[80](_ => 0);
    for i := 0 to 16
      invariant forall j | 0 <= j < i :: W[j] == w[j]
    {
      W[i] := w[i];
    }
    forall j | 0 <= j < 16
      ensures w[j] == Sched1(w, j)
    {
      First(w, j);
    }
    for i := 16 to 80
      invariant forall j | 0 <= j < i :: W[j] == Sched1(w, j)
    {
      Unfold1(w, i);
      W[i] := Mix1(W[i - 3], W[i - 8], W[i - 14], W[i - 16]);
    }
  }

  lemma First(w: Words, j: nat)
    requires j < 16
    ensures Sched1(w, j) == w[j]
  {
  }

  /** sha_transform: thirteen rounds of the six renamed steps FA .. FT, then FA and FB. */
  method Transform(H: State1, data: Block) returns (r: State1)
    ensures r == Compress1(H, data)
  {
    hide WordsOf, Sched1, FNew, Rotl30, Step1, Accumulate1, Add1;
    ghost var w := WordsOf(data);
    var words := Load(data);
    var W := Expand(words[..]);
    var T, A, B, C, D, E := 0, H.a, H.b, H.c, H.d, H.e;
    var t := 0;
    while t < 78
      invariant 0 <= t <= 78 && t % 6 == 0
      invariant State1(A, B, C, D, E) == Run1(H, w, t)
      invariant forall j | 0 <= j < 80 :: W[j] == Sched1(w, j)
    {
      FIsStep(State1(A, B, C, D, E), t, W[t]);
      T := FNew(A, B, C, D, E, t, W[t]);
      B := Rotl30(B);
      assert State1(T, A, B, C, D) == Run1(H, w, t + 1);

      FIsStep(State1(T, A, B, C, D), t + 1, W[t + 1]);
      E := FNew(T, A, B, C, D, t + 1, W[t + 1]);
      A := Rotl30(A);
      assert State1(E, T, A, B, C) == Run1(H, w, t + 2);

      FIsStep(State1(E, T, A, B, C), t + 2, W[t + 2]);
      D := FNew(E, T, A, B, C, t + 2, W[t + 2]);
      T := Rotl30(T);
      assert State1(D, E, T, A, B) == Run1(H, w, t + 3);

      FIsStep(State1(D, E, T, A, B), t + 3, W[t + 3]);
      C := FNew(D, E, T, A, B, t + 3, W[t + 3]);
      E := Rotl30(E);
      assert State1(C, D, E, T, A) == Run1(H, w, t + 4);

      FIsStep(State1(C, D, E, T, A), t + 4, W[t + 4]);
      B := FNew(C, D, E, T, A, t + 4, W[t + 4]);
      D := Rotl30(D);
      assert State1(B, C, D, E, T) == Run1(H, w, t + 5);

      FIsStep(State1(B, C, D, E, T), t + 5, W[t + 5]);
      A := FNew(B, C, D, E, T, t + 5, W[t + 5]);
      C := Rotl30(C);
      t := t + 6;
    }
    FIsStep(State1(A, B, C, D, E), 78, W[78]);
    T := FNew(A, B, C, D, E, 78, W[78]);
    B := Rotl30(B);
    assert State1(T, A, B, C, D) == Run1(H, w, 79);
    FIsStep(State1(T, A, B, C, D), 79, W[79]);
    E := FNew(T, A, B, C, D, 79, W[79]);
    A := Rotl30(A);
    assert State1(E, T, A, B, C) == Run1(H, w, 80);
    r := Accumulate1(H, State1(E, T, A, B, C));
    AccumulateForms(H, State1(E, T, A, B, C));
  }

  // ----- sha_init, sha_update, sha_final

  /** The five state words, big-endian, as sha_transform_and_copy writes them. */
  function DigestBytes(h: State1): (r: seq<bv8>)
    ensures |r| == 20
  {
    WordOctets(h.a) + WordOctets(h.b) + WordOctets(h.c) + WordOctets(h.d) + WordOctets(h.e)
  }

  const INIT1 := State1(0x67452301, 0xefcdab89, 0x98badcfe, 0x10325476, 0xc3d2e1f0)

  function CompressBytes(h: State1, b: seq<bv8>): State1 {
    if |b| == 64 then Compress1(h, b) else h
  }

  /** The eight words of which SHA-1 uses five. */
  function Words1(h: State1): seq<bv32> {
    [h.a, h.b, h.c, h.d, h.e, 0, 0, 0]
  }

  const SHA1: Algo<State1> := Algo(512, INIT1, CompressBytes, Words1, 20)

  /** Both libraries write the same octets for the same state. */
  lemma SameOctets(h: State1)
    ensures DigestOf(SHA1, h) == DigestBytes(h)
  {
    hide WordOctets;
    var ws := Words1(h);
    assert ws[..7][..6][..5] == [h.a, h.b, h.c, h.d, h.e];
    var five := [h.a, h.b, h.c, h.d, h.e];
    FiveOctets(h.a, h.b, h.c, h.d, h.e);
    OctetsPrefix(ws, 5);
  }

  lemma FiveOctets(a: bv32, b: bv32, c: bv32, d: bv32, e: bv32)
    ensures Octets([a, b, c, d, e]) == WordOctets(a) + WordOctets(b) + WordOctets(c) + WordOctets(d) + WordOctets(e)
  {
    hide WordOctets;
    assert [a, b, c, d, e][..4] == [a, b, c, d] && [a, b, c, d][..3] == [a, b, c];
    assert [a, b, c][..2] == [a, b] && [a, b][..1] == [a] && [a][..0] == [];
    assert Octets([a]) == WordOctets(a);
    assert Octets([a, b]) == WordOctets(a) + WordOctets(b);
    assert Octets([a, b, c]) == WordOctets(a) + WordOctets(b) + WordOctets(c);
  }

  lemma {:induction false} OctetsPrefix(ws: seq<bv32>, n: nat)
    requires n <= |ws|
    ensures Octets(ws)[..4 * n] == Octets(ws[..n])
    decreases |ws|
  {
    hide WordOctets;
    if n < |ws| {
      var t := ws[..|ws| - 1];
      OctetsPrefix(t, n);
      assert t[..n] == ws[..n] && Octets(ws)[..4 * n] == Octets(t)[..4 * n];
    } else {
      assert ws[..n] == ws;
    }
  }

  const SPAN: nat := WORD * WORD

  /** The count update of sha_update: the new low word and the amount added to the high one. */
  lemma CountAdd(lo: nat, count: nat)
    requires lo < WORD
    ensures
      var clo := (lo + 8 * count) % WORD;
      lo + 8 * count == clo + WORD * ((if clo < lo then 1 else 0) + count / 0x2000_0000)
  {
    var top, r := count / 0x2000_0000, 8 * (count % 0x2000_0000);
    assert lo + 8 * count == lo + r + WORD * top && lo + r < 2 * WORD;
    assert (lo + 8 * count) % WORD == (lo + r) % WORD;
  }

  ghost function Folded(m: seq<bv8>): State1 {
    Fold(SHA1, INIT1, ToBits(m))
  }

  lemma FoldedBlock(m: seq<bv8>, block: Block)
    requires |m| % 64 == 0
    ensures Folded(m + block) == Compress1(Folded(m), block)
  {
    hide ToBits, Fold, Compress1;
    ToBitsConcat(m, block);
    FoldBlock(SHA1, INIT1, ToBits(m), block);
  }

  class Info {
    const data: array<bv8>
    var digest: State1
    var countLo: nat
    var countHi: nat
    var pending: nat
    ghost var msg: seq<bv8>

    /** All of m but its last k bytes is compressed, and those are in the data buffer. */
    ghost predicate Held(m: seq<bv8>, k: nat)
      reads this`digest, data
    {
      && data.Length == 64 && k <= 64 && k <= |m| && (|m| - k) % 64 == 0
      && digest == Folded(m[..|m| - k]) && data[..k] == m[|m| - k..]
    }

    ghost predicate Valid()
      reads this, data
    {
      && Held(msg, pending) && pending < 64
      && countLo < WORD && (countHi * WORD + countLo) % SPAN == 8 * |msg| % SPAN
    }

    /** sha_init */
    constructor ()
      ensures Valid() && msg == [] && fresh(data)
    {
      data := new bv8[64](_ => 0);
      digest := INIT1;
      countLo, countHi, pending := 0, 0, 0;
      msg := [];
    }

    /** sha_transform on a full data buffer. */
    method Consume(ghost m: seq<bv8>)
      requires Held(m, 64)
      modifies this`digest
      ensures Held(m, 0)
    {
      hide Folded, Compress1;
      ghost var a := m[..|m| - 64];
      assert m == a + data[..] && m[..|m| - 0] == m;
      FoldedBlock(a, data[..]);
      digest := Transform(digest, data[..]);
    }

    /** memcpy into the data buffer behind the k bytes already held. */
    method Take(src: seq<bv8>, k: nat, ghost m: seq<bv8>)
      requires Held(m, k) && k + |src| <= 64
      modifies data
      ensures Held(m + src, k + |src|)
    {
      hide Folded;
      ghost var m' := m + src;
      CopyInto(data, k, src);
      assert m'[..|m'| - (k + |src|)] == m[..|m| - k];
      assert m'[|m'| - (k + |src|)..] == m[|m| - k..] + src;
      assert data[..k + |src|] == old(data[..k]) + src;
    }
  
    /** The count words of sha_update; ULONGx is 64 bits wide. */
    method AddCount(count: nat)
      requires countLo < WORD && (countHi * WORD + countLo) % SPAN == 8 * |msg| % SPAN
      modifies this`countLo, this`countHi
      ensures countLo < WORD && (countHi * WORD + countLo) % SPAN == 8 * (|msg| + count) % SPAN
    {
      var clo := (countLo + 8 * count) % WORD;
      CountAdd(countLo, count);
      ghost var before := countHi * WORD + countLo;
      var hi := countHi + (if clo < countLo then 1 else 0) + count / 0x2000_0000;
      countLo := clo;
      countHi := hi % SPAN;
      assert hi * WORD + clo == before + 8 * count;
      HighWrap(hi, clo);
      SpanAdd(before, 8 * |msg|, 8 * count);
    }

    /** sha_update; the C length is a non-negative int. */
    method Update(buffer: seq<bv8>)
      requires Valid() && |buffer| < 0x8000_0000
      modifies this, data
      ensures Valid() && msg == old(msg) + buffer
    {
      hide Folded, Held;
      AddCount(|buffer|);
      ghost var m := msg;
      msg := msg + buffer;
      var p := 0;
      assert m + buffer[..0] == m && m + buffer[..|buffer|] == m + buffer;
      if pending != 0 {
        p := 64 - pending;
        if p > |buffer| {
          p := |buffer|;
        }
        Take(buffer[..p], pending, m);
        pending := pending + p;
        if pending < 64 {
          return;
        }
        Consume(m + buffer[..p]);
      }
      while |buffer| - p >= 64
        invariant 0 <= p <= |buffer| && Held(m + buffer[..p], 0)
        modifies this`digest, data
      {
        Take(buffer[p .. p + 64], 0, m + buffer[..p]);
        assert m + buffer[..p] + buffer[p .. p + 64] == m + buffer[..p + 64];
        Consume(m + buffer[..p + 64]);
        p := p + 64;
      }
      Take(buffer[p..], 0, m + buffer[..p]);
      assert m + buffer[..p] + buffer[p..] == m + buffer;
      pending := |buffer| - p;
    }

    /** sha_final: padding byte by byte, the two count words, and the last transform. */
    method Final() returns (d: seq<bv8>)
      requires Valid()
      modifies this, data
      ensures d == Hash(SHA1, ToBits(old(msg))) && |d| == 20
    {
      hide Folded, Held, ToBits, Fold, Pad, CountOctets, DigestOf;
      var count := countLo / 8 % 64;
      PendingCount();
      ghost var m := msg + [0x80];
      Take([0x80], count, msg);
      count := count + 1;
      ghost var z;
      if count > 56 {
        Take(ZeroBytes(64 - count), count, m);
        Consume(m + ZeroBytes(64 - count));
        Take(ZeroBytes(56), 0, m + ZeroBytes(64 - count));
        z := 120 - count;
        assert m + ZeroBytes(64 - count) + ZeroBytes(56) == m + ZeroBytes(z);
      } else {
        Take(ZeroBytes(56 - count), count, m);
        z := 56 - count;
      }
      var tail := CountOctets(countHi) + CountOctets(countLo);
      Take(tail, 56, m + ZeroBytes(z));
      ghost var all := m + ZeroBytes(z) + tail;
      Consume(all);
      PadBytes(msg, count - 1, z, countHi, countLo);
      Finished(all);
      SameOctets(digest);
      d := DigestBytes(digest);
    }

    lemma Finished(m: seq<bv8>)
      requires Held(m, 0)
      ensures digest == Fold(SHA1, INIT1, ToBits(m))
    {
      assert m[..|m| - 0] == m;
    }

    lemma PendingCount()
      requires Valid()
      ensures countLo / 8 % 64 == pending && pending == |msg| % 64
    {
      hide Folded;
      LowCount(countHi, countLo, |msg|);
      Fill(|msg|, pending);
    }
  }

  function ZeroBytes(n: nat): (r: seq<bv8>)
    ensures |r| == n
  {
    seq(n, _ => 0)
  }

  lemma Fill(n: nat, k: nat)
    requires k <= n && k < 64 && (n - k) % 64 == 0
    ensures n % 64 == k
  {
    assert n == n - k + k;
  }

  lemma HighWrap(hi: nat, lo: nat)
    ensures (hi % SPAN * WORD + lo) % SPAN == (hi * WORD + lo) % SPAN
  {
    var q := hi / SPAN;
    assert hi * WORD + lo == hi % SPAN * WORD + lo + q * WORD * SPAN;
  }

  lemma SpanAdd(a: nat, b: nat, d: nat)
    requires a % SPAN == b % SPAN
    ensures (a + d) % SPAN == (b + d) % SPAN
  {
  }

  /** The bit count modulo 512 gives the fill of the data buffer. */
  lemma LowCount(hi: nat, lo: nat, n: nat)
    requires lo < WORD && (hi * WORD + lo) % SPAN == 8 * n % SPAN
    ensures lo / 8 % 64 == n % 64
  {
    var x, y := hi * WORD + lo, 8 * n;
    Low512(x / SPAN * (SPAN / 512), x % SPAN);
    Low512(y / SPAN * (SPAN / 512), y % SPAN);
    assert x == 512 * (x / SPAN * (SPAN / 512)) + x % SPAN;
    assert y == 512 * (y / SPAN * (SPAN / 512)) + y % SPAN;
    Low512(hi * (WORD / 512), lo);
    assert x == 512 * (hi * (WORD / 512)) + lo;
    assert lo % 512 == 8 * n % 512;
    EightOf512(lo, n);
  }

  lemma Low512(q: nat, r: nat)
    ensures (512 * q + r) % 512 == r % 512
  {
  }

  lemma EightOf512(lo: nat, n: nat)
    requires lo % 512 == 8 * n % 512
    ensures lo / 8 % 64 == n % 64
  {
    var q, k, r := lo / 512, n / 64, n % 64;
    assert 8 * n == 512 * k + 8 * r;
    Rest512(8 * n, k, 8 * r);
    assert lo == 512 * q + 8 * r;
    EighthOf(lo, q, r);
  }

  lemma Rest512(x: nat, q: nat, r: nat)
    requires x == 512 * q + r && r < 512
    ensures x % 512 == r
  {
  }

  lemma EighthOf(x: nat, q: nat, r: nat)
    requires x == 512 * q + 8 * r && r < 64
    ensures x / 8 % 64 == r
  {
    assert x / 8 == 64 * q + r;
  }

  lemma ZeroBits(n: nat)
    ensures ToBits(ZeroBytes(n)) == Zeros(8 * n)
  {
  }

  lemma MarkerBits()
    ensures ToBits([0x80]) == [true] + Zeros(7)
  {
    var r := ToBits([0x80]);
    assert r[0] && !r[1] && !r[2] && !r[3] && !r[4] && !r[5] && !r[6] && !r[7];
  }

  /** The byte padding of sha_final is the bit padding of the standard. */
  lemma PadBytes(m: seq<bv8>, p: nat, z: nat, hi: nat, lo: nat)
    requires p == |m| % 64 && z == (if p + 1 > 56 then 119 - p else 55 - p)
    requires lo < WORD && (hi * WORD + lo) % SPAN == 8 * |m| % SPAN
    ensures ToBits(m + [0x80] + ZeroBytes(z) + (CountOctets(hi) + CountOctets(lo))) == Pad(ToBits(m), 512)
  {
    hide ToBits, NatBits, CountOctets;
    var tail := CountOctets(hi) + CountOctets(lo);
    ToBitsConcat(m, [0x80]);
    ToBitsConcat(m + [0x80], ZeroBytes(z));
    ToBitsConcat(m + [0x80] + ZeroBytes(z), tail);
    ToBitsConcat(CountOctets(hi), CountOctets(lo));
    WordBits(hi);
    WordBits(lo);
    NatBits32(hi, lo, 32);
    Widths();
    NatBitsMod(hi * WORD + lo, 8 * |m|, 64);
    MarkerBits();
    ZeroBits(z);
    ZeroCountOf(8 * |m|, 8 * p, 512);
    PaddedBits(ToBits(m), z, NatBits(8 * |m|, 64));
  }

  lemma PaddedBits(m: seq<bool>, z: nat, len: seq<bool>)
    ensures m + ([true] + Zeros(7)) + Zeros(8 * z) + len == m + [true] + Zeros(7 + 8 * z) + len
  {
    assert Zeros(7) + Zeros(8 * z) == Zeros(7 + 8 * z);
    assert [true] + Zeros(7) + Zeros(8 * z) == [true] + Zeros(7 + 8 * z);
    assert m + ([true] + Zeros(7)) + Zeros(8 * z) == m + [true] + Zeros(7 + 8 * z);
  }
}
