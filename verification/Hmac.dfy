/** HMAC over the streaming digest object, as hmac.c computes it. */
module Hmac {
  import opened Sequences
  import opened Bits
  import opened ShaSpec
  import opened ShaStream

  datatype RawCall = Chunk(bytes: seq<bv8>, bitcnt: nat)

  /** One shawrite call: a byte buffer and how many of its bits count, added to those in a block in an unsigned long. */
  type Call = c: RawCall | c.bitcnt <= 8 * |c.bytes| && c.bitcnt + 1024 <= WORD * WORD witness Chunk([], 0)

  /** A call whose count fits 32 bits. */
  type Chunk = c: RawCall | c.bitcnt <= 8 * |c.bytes| && c.bitcnt < WORD witness Chunk([], 0)

  ghost function Payload(c: Call): seq<bool> {
    ToBits(c.bytes)[..c.bitcnt]
  }

  /** What a sequence of calls writes. */
  ghost function ChunkBits(calls: seq<Call>): seq<bool>
  {
    if calls == [] then [] else ChunkBits(calls[..|calls| - 1]) + Payload(calls[|calls| - 1])
  }

  /** What it leaves in the length words. */
  ghost function LenAfter(w: LenWords, calls: seq<Call>): LenWords {
    if calls == [] then w
    else
      var before, c := LenAfter(w, calls[..|calls| - 1]), calls[|calls| - 1];
      if c.bitcnt < 1 then before else AddLen(before, c.bitcnt)
  }

  /** Every call keeps the length words right, as AddLenExact says. */
  ghost predicate Exact(w: LenWords, calls: seq<Call>) {
    forall i {:trigger calls[i]} | 0 <= i < |calls| ::
      calls[i].bitcnt < WORD || LenAfter(w, calls[..i]).ll + calls[i].bitcnt < 2 * WORD
  }

  /** Calls behind n bits: one that starts inside an octet has at most as many octets as an unsigned int can count. */
  ghost predicate Countable(n: nat, calls: seq<Call>) {
    forall i {:trigger calls[i]} | 0 <= i < |calls| ::
      calls[i].bitcnt <= 8 * (WORD - 1) || (n + |ChunkBits(calls[..i])|) % 8 == 0
  }

  lemma OneMoreCall(w: LenWords, calls: seq<Call>, i: nat)
    requires i < |calls|
    ensures ChunkBits(calls[..i + 1]) == ChunkBits(calls[..i]) + Payload(calls[i])
    ensures LenAfter(w, calls[..i + 1]) ==
            var before := LenAfter(w, calls[..i]);
            if calls[i].bitcnt < 1 then before else AddLen(before, calls[i].bitcnt)
  {
    assert calls[..i + 1][..i] == calls[..i];
  }

  lemma NoCalls(before: seq<bool>, w: LenWords, calls: seq<Call>)
    ensures before + ChunkBits(calls[..0]) == before && LenAfter(w, calls[..0]) == w
  {
  }

  /** Calls of fewer than 2^32 bits are always taken, and keep the length right. */
  lemma SmallCalls(w: LenWords, n: nat, chunks: seq<Chunk>)
    ensures Exact(w, chunks) && Countable(n, chunks)
  {
  }

  /** Any calls, one at a time: their bits are appended and their counts added. */
  method WriteCalls<H>(s: Sha<H>, calls: seq<Call>)
    requires s.Holds() && Countable(|s.msg|, calls)
    modifies s, s.block
    ensures s.Holds() && s.msg == old(s.msg) + ChunkBits(calls) && s.len == LenAfter(old(s.len), calls)
    ensures old(s.Valid()) && Exact(old(s.len), calls) ==> s.Valid()
  {
    hide ToBits, Fold, Sha.PartAt, LenWords.Value, ChunkBits, LenAfter, AddLen, Exact, Countable, Payload;
    ghost var before, w := s.msg, s.len;
    NoCalls(before, w, calls);
    for i := 0 to |calls|
      invariant s.Holds() && s.msg == before + ChunkBits(calls[..i]) && s.len == LenAfter(w, calls[..i])
      invariant old(s.Valid()) && Exact(w, calls) ==> s.Valid()
    {
      var c := calls[i];
      CallTaken(before, w, calls, i);
      s.Aligned(s.msg);
      s.Room();
      var _ := s.Write(c.bytes, c.bitcnt);
      OneMoreCall(w, calls, i);
      Assoc(before, ChunkBits(calls[..i]), Payload(c));
    }
    assert calls[..|calls|] == calls;
  }

  lemma CallTaken(before: seq<bool>, w: LenWords, calls: seq<Call>, i: nat)
    requires Countable(|before|, calls) && i < |calls|
    ensures calls[i].bitcnt <= 8 * (WORD - 1) || |before + ChunkBits(calls[..i])| % 8 == 0
    ensures Exact(w, calls) ==> calls[i].bitcnt < WORD || LenAfter(w, calls[..i]).ll + calls[i].bitcnt < 2 * WORD
    ensures Payload(calls[i]) == ToBits(calls[i].bytes)[..calls[i].bitcnt]
  {
    hide ToBits;
  }

  /** Calls of fewer than 2^32 bits keep the object right. */
  method WriteAll<H>(s: Sha<H>, chunks: seq<Chunk>)
    requires s.Valid()
    modifies s, s.block
    ensures s.Valid() && s.msg == old(s.msg) + ChunkBits(chunks)
  {
    hide ToBits, Fold, Sha.PartAt, LenWords.Value, ChunkBits, LenAfter, Exact, Countable;
    SmallCalls(s.len, |s.msg|, chunks);
    WriteCalls(s, chunks);
  }

  /** However a bit string is cut into calls, the digest is that of the whole, padded with what the length words say;
      and that is the hash of the whole when every call keeps them right. */
  method HashCalls<H>(alg: Algo<H>, calls: seq<Call>) returns (d: seq<bv8>)
    requires alg.Ok() && Countable(0, calls)
    ensures d == HashWith(alg, ChunkBits(calls), LenAfter(LenWords(0, 0, 0, 0), calls).Value())
    ensures Exact(LenWords(0, 0, 0, 0), calls) ==> d == Hash(alg, ChunkBits(calls))
  {
    hide ToBits, Fold, Exact, Countable, LenAfter, LenWords.Value, PadWith, ChunkBits, DigestOf;
    var s := new Sha(alg);
    WriteCalls(s, calls);
    assert s.msg == ChunkBits(calls);
    s.Finish();
    d := s.Digest();
  }

  /** However a bit string is cut into calls of fewer than 2^32 bits, the digest is the one-shot hash of the whole. */
  method HashChunks<H>(alg: Algo<H>, chunks: seq<Chunk>) returns (d: seq<bv8>)
    requires alg.Ok()
    ensures d == Hash(alg, ChunkBits(chunks))
  {
    hide ToBits, Fold, Exact, Countable, LenAfter, Hash, HashWith, ChunkBits;
    SmallCalls(LenWords(0, 0, 0, 0), 0, chunks);
    d := HashCalls(alg, chunks);
  }

  const OPAD: bv8 := 0x5c
  const IPAD: bv8 := 0x36

  function Xor(k: seq<bv8>, b: bv8): (r: seq<bv8>)
    ensures |r| == |k|
  {
    seq(|k|, i requires 0 <= i < |k| => k[i] ^ b)
  }

  function ZeroExtend(k: seq<bv8>, n: nat): (r: seq<bv8>)
    requires |k| <= n
    ensures |r| == n
  {
    k + seq(n - |k|, _ => 0)
  }

  /** Section 2 of RFC 2104: the key, hashed when longer than a block, zero-extended to a block. */
  ghost function K0<H>(alg: Algo<H>, key: seq<bv8>): seq<bv8>
    requires alg.Ok()
  {
    var n := alg.blockSize / 8;
    ZeroExtend(if |key| <= n then key else Hash(alg, ToBits(key)), n)
  }

  ghost function Mac<H>(alg: Algo<H>, k: seq<bv8>, text: seq<bool>): seq<bv8>
    requires alg.Ok()
  {
    Hash(alg, ToBits(Xor(k, 0x5c)) + ToBits(Hash(alg, ToBits(Xor(k, 0x36)) + text)))
  }

  /** What hmacopen hashes of a long key: keylen * 8 is an unsigned int, so from 2^29 bytes on the tail is lost. */
  function Hashed(key: seq<bv8>): (r: seq<bv8>)
    ensures r <= key && 8 * |r| == 8 * |key| % WORD
    ensures r == key <==> |key| < 0x2000_0000
  {
    key[..8 * |key| % WORD / 8]
  }

  /** The key block hmacopen really builds. */
  ghost function KeyBlock<H>(alg: Algo<H>, key: seq<bv8>): (k: seq<bv8>)
    requires alg.Ok()
    ensures |key| < 0x2000_0000 ==> k == K0(alg, key)
  {
    ZeroExtend(KeySource(alg, key), alg.blockSize / 8)
  }

  /** The key block octet by octet: the key, or the digest of one longer than 64 or 128 octets, and zeros behind it. */
  lemma KeyBlockOctets<H>(alg: Algo<H>, key: seq<bv8>, i: nat)
    requires alg.Ok() && 8 * i < alg.blockSize
    ensures |KeyBlock(alg, key)| == (if alg.blockSize == 512 then 64 else 128)
    ensures KeyBlock(alg, key)[i] ==
            var k := if 8 * |key| <= alg.blockSize then key else Hash(alg, ToBits(Hashed(key)));
            if i < |k| then k[i] else 0
  {
    hide Hash, ToBits, Hashed;
  }

  /** XOR applied twice in place: undoing the outer pad and applying the inner one is one XOR. */
  lemma XorXor(k: seq<bv8>)
    ensures Xor(Xor(k, OPAD), OPAD ^ IPAD) == Xor(k, IPAD)
  {
    forall i | 0 <= i < |k|
      ensures Xor(Xor(k, OPAD), OPAD ^ IPAD)[i] == Xor(k, IPAD)[i]
    {
    }
  }

  /** Every octet of the key buffer is combined with one octet. */
  method XorLoop(key: array<bv8>, n: nat, b: bv8)
    requires n <= key.Length
    modifies key
    ensures key[..n] == Xor(old(key[..n]), b) && key[n..] == old(key[n..])
  {
    ghost var before := key[..];
    for i := 0 to n
      invariant forall j | 0 <= j < i :: key[j] == before[j] ^ b
      invariant forall j | i <= j < key.Length :: key[j] == before[j]
    {
      key[i] := key[i] ^ b;
    }
    assert before[..n] == old(key[..n]) && before[n..] == old(key[n..]);
  }

  /** Of a key of 2^29 octets nothing is hashed. */
  lemma LongKeyLost(key: seq<bv8>)
    requires |key| == 0x2000_0000
    ensures Hashed(key) == [] != key
  {
  }

  /** What goes into hmacopen's key buffer: the key, or the digest of a long one. */
  ghost function KeySource<H>(alg: Algo<H>, key: seq<bv8>): (r: seq<bv8>)
    requires alg.Ok()
    ensures |r| <= alg.blockSize / 8
  {
    if |key| <= alg.blockSize / 8 then key else Hash(alg, ToBits(Hashed(key)))
  }

  /** The bits hmacopen passes on are those of the octets that are hashed. */
  lemma HashedBits(key: seq<bv8>)
    ensures ToBits(key)[..8 * |key| % WORD] == ToBits(Hashed(key))
  {
    hide ToBits;
    var k := |Hashed(key)|;
    PrefixBits(key, 0, k, 8 * k);
    assert key[0 .. 0 + k] == Hashed(key);
    assert ToBits(Hashed(key))[..8 * k] == ToBits(Hashed(key));
  }

  /** keylen * 8 in an unsigned int. */
  method LowBits(key: seq<bv8>) returns (n: nat)
    ensures n < WORD && n <= 8 * |key| && ToBits(key)[..n] == ToBits(Hashed(key))
  {
    hide ToBits;
    HashedBits(key);
    n := 8 * |key| % WORD;
  }

  /** The digest of a long key. */
  method KeyDigest<H>(alg: Algo<H>, key: seq<bv8>) returns (d: seq<bv8>)
    requires alg.Ok()
    ensures d == Hash(alg, ToBits(Hashed(key)))
  {
    hide ToBits, Fold, Hashed, PadWith, DigestOf, AddLen, Sha.PartAt, LenWords.Value;
    var ksha := new Sha(alg);
    var bitcnt := LowBits(key);
    ksha.Room();
    var _ := ksha.Write(key, bitcnt);
    assert [] + ToBits(key)[..bitcnt] == ToBits(Hashed(key));
    ksha.Finish();
    d := ksha.Digest();
  }

  /** hmacopen's key buffer: key bytes or the digest of a long key, zero-filled. */
  method PrepareKey<H>(alg: Algo<H>, key: seq<bv8>) returns (buf: array<bv8>)
    requires alg.Ok()
    ensures fresh(buf) && buf.Length == 128 && buf[..alg.blockSize / 8] == KeyBlock(alg, key)
  {
    hide ToBits, Hash, Hashed;
    var n := alg.blockSize / 8;
    var src := key;
    if |key| > n { src := KeyDigest(alg, key); }
    buf := new bv8[128](_ => 0);
    CopyInto(buf, 0, src);
    assert buf[..n] == ZeroExtend(src, n);
  }

  /** hmacopen: the two objects have absorbed the outer and the inner pad. */
  method Open<H>(alg: Algo<H>, key: seq<bv8>) returns (isha: Sha<H>, osha: Sha<H>)
    requires alg.Ok()
    ensures fresh(isha) && fresh(osha) && fresh(isha.block) && fresh(osha.block)
    ensures isha != osha && isha.block != osha.block
    ensures isha.Valid() && isha.alg == alg && isha.msg == ToBits(Xor(KeyBlock(alg, key), 0x36))
    ensures osha.Valid() && osha.alg == alg && osha.msg == ToBits(Xor(KeyBlock(alg, key), 0x5c))
  {
    hide ToBits, Fold, Xor, KeyBlock;
    var n := alg.blockSize / 8;
    var buf := PrepareKey(alg, key);
    ghost var k := KeyBlock(alg, key);
    XorLoop(buf, n, OPAD);
    osha := Start(alg, buf[..n]);
    XorLoop(buf, n, OPAD ^ IPAD);
    XorXor(k);
    isha := Start(alg, buf[..n]);
  }

  /** A new object that has absorbed one block. */
  method Start<H>(alg: Algo<H>, pad: seq<bv8>) returns (s: Sha<H>)
    requires alg.Ok() && 8 * |pad| == alg.blockSize
    ensures fresh(s) && fresh(s.block) && s.Valid() && s.alg == alg && s.msg == ToBits(pad)
  {
    hide ToBits, Fold, Sha.PartAt, LenWords.Value;
    s := new Sha(alg);
    var _ := s.Write(pad, alg.blockSize);
    WholeBits(ToBits(pad));
  }

  lemma WholeBits(b: seq<bool>)
    ensures [] + b[..|b|] == b
  {
  }

  /** hmacfinish: the inner digest is written to the outer object, which is then finished. */
  method FinishMac<H>(isha: Sha<H>, osha: Sha<H>) returns (d: seq<bv8>)
    requires isha != osha && isha.block != osha.block && isha.Valid() && osha.Valid()
    requires isha.alg == osha.alg && osha.alg.Ok()
    modifies isha, osha, isha.block, osha.block
    ensures d == Hash(osha.alg, old(osha.msg) + ToBits(Hash(osha.alg, old(isha.msg))))
  {
    hide ToBits, Fold;
    isha.Finish();
    var inner := isha.Digest();
    var _ := osha.Write(inner, 8 * |inner|);
    assert ToBits(inner)[..8 * |inner|] == ToBits(inner);
    osha.Finish();
    d := osha.Digest();
  }

  /** For every cutting of the text the result is the code of RFC 2104 under the key block, and that is the standard's
      own key block for every key below 2^29 bytes. */
  method HmacChunks<H>(alg: Algo<H>, key: seq<bv8>, chunks: seq<Chunk>) returns (d: seq<bv8>)
    requires alg.Ok()
    ensures d == Mac(alg, KeyBlock(alg, key), ChunkBits(chunks))
    ensures |key| < 0x2000_0000 ==> d == Mac(alg, K0(alg, key), ChunkBits(chunks))
  {
    hide ToBits, Fold, Xor, Pad;
    var isha, osha := Open(alg, key);
    WriteAll(isha, chunks);
    d := FinishMac(isha, osha);
  }
}
