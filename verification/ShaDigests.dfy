/** SHA-1, SHA-224 and SHA-256 of Digest-SHA end to end: transform, streaming, padding and digest. */
module ShaDigests {
  import opened Bits
  import opened ShaSpec
  import opened Hmac
  import opened Fips180
  import opened Sha1Info
  import ShaTransform

  const INIT224 := State2(0xc1059ed8, 0x367cd507, 0x3070dd17, 0xf70e5939, 0xffc00b31, 0x68581511, 0x64f98fa7,
    0xbefa4fa4)
  const INIT256 := State2(0x6a09e667, 0xbb67ae85, 0x3c6ef372, 0xa54ff53a, 0x510e527f, 0x9b05688c, 0x1f83d9ab,
    0x5be0cd19)

  function CompressBytes2(h: State2, b: seq<bv8>): State2 {
    if |b| == 64 then Compress2(h, b) else h
  }

  function Words2(h: State2): seq<bv32> {
    [h.a, h.b, h.c, h.d, h.e, h.f, h.g, h.h]
  }

  const SHA224: Algo<State2> := Algo(512, INIT224, CompressBytes2, Words2, 28)
  const SHA256: Algo<State2> := Algo(512, INIT256, CompressBytes2, Words2, 32)

  /** The transform of sha.c is the compression function the SHA-1 digests are folds of. */
  method Block1(h: State1, b: Block) returns (r: State1)
    ensures r == SHA1.compress(h, b)
  {
    hide Compress1;
    r := ShaTransform.Sha1(h, b);
  }

  /** The same for SHA-224 and SHA-256. */
  method Block2(h: State2, b: Block) returns (r: State2)
    ensures r == SHA256.compress(h, b) == SHA224.compress(h, b)
  {
    hide Compress2;
    r := ShaTransform.Sha256(h, b);
  }

  /** The digest, read as big-endian words, begins the state after folding over the padded message. */
  ghost predicate IsDigest<H>(alg: Algo<H>, m: seq<bool>, d: seq<bv8>)
    requires alg.Ok()
  {
    var ws := alg.words(Fold(alg, alg.init, Pad(m, alg.blockSize)));
    |d| == alg.digestLen && forall i: nat | 4 * i + 4 <= |d| ::
      i < |ws| && BigEndian(d[4 * i], d[4 * i + 1], d[4 * i + 2], d[4 * i + 3]) == ws[i]
  }

  lemma HashIsDigest<H>(alg: Algo<H>, m: seq<bool>)
    requires alg.Ok() && |Hash(alg, m)| == alg.digestLen
    ensures IsDigest(alg, m, Hash(alg, m))
  {
    hide BigEndian, DigestOf, Pad, Fold;
    var h := Fold(alg, alg.init, Pad(m, alg.blockSize));
    var d := Hash(alg, m);
    forall i: nat | 4 * i + 4 <= |d|
      ensures i < |alg.words(h)| && BigEndian(d[4 * i], d[4 * i + 1], d[4 * i + 2], d[4 * i + 3]) == alg.words(h)[i]
    {
      DigestWords(alg, h, i);
    }
  }

  /** Words whose octets reach the digest length in fours determine the digest. */
  lemma DigestDetermined<H>(alg: Algo<H>, m: seq<bool>, d: seq<bv8>, e: seq<bv8>)
    requires alg.Ok() && alg.digestLen % 4 == 0 && IsDigest(alg, m, d) && IsDigest(alg, m, e)
    ensures d == e
  {
    hide BigEndian, Fold, Pad;
    forall k | 0 <= k < |d| ensures d[k] == e[k] {
      var i, n := k / 4, alg.digestLen / 4;
      assert k == 4 * i + k % 4 && |d| == 4 * n && i < n;
      SameFour(d[4 * i], d[4 * i + 1], d[4 * i + 2], d[4 * i + 3], e[4 * i], e[4 * i + 1], e[4 * i + 2], e[4 * i + 3]);
    }
  }

  lemma SameFour(a: bv8, b: bv8, c: bv8, d: bv8, a': bv8, b': bv8, c': bv8, d': bv8)
    requires BigEndian(a, b, c, d) == BigEndian(a', b', c', d')
    ensures a == a' && b == b' && c == c' && d == d'
  {
    FirstsOf(a, b, c, d);
    FirstsOf(a', b', c', d');
  }

  lemma FirstsOf(a: bv8, b: bv8, c: bv8, d: bv8)
    ensures WordOctets(BigEndian(a, b, c, d)) == [a, b, c, d]
  {
  }

  /** SHA-1 of any bit string, cut into calls in any way. */
  method Sha1Digest(chunks: seq<Chunk>) returns (d: seq<bv8>)
    ensures IsDigest(SHA1, ChunkBits(chunks), d) && d == Hash(SHA1, ChunkBits(chunks))
  {
    hide IsDigest, DigestOf, Pad, Fold;
    d := HashChunks(SHA1, chunks);
    SizeOf(SHA1, ChunkBits(chunks), 8);
    HashIsDigest(SHA1, ChunkBits(chunks));
  }

  /** SHA-224, the first seven of eight words. */
  method Sha224Digest(chunks: seq<Chunk>) returns (d: seq<bv8>)
    ensures IsDigest(SHA224, ChunkBits(chunks), d) && d == Hash(SHA224, ChunkBits(chunks))
  {
    hide IsDigest, DigestOf, Pad, Fold;
    d := HashChunks(SHA224, chunks);
    SizeOf(SHA224, ChunkBits(chunks), 8);
    HashIsDigest(SHA224, ChunkBits(chunks));
  }

  /** SHA-256. */
  method Sha256Digest(chunks: seq<Chunk>) returns (d: seq<bv8>)
    ensures IsDigest(SHA256, ChunkBits(chunks), d) && d == Hash(SHA256, ChunkBits(chunks))
  {
    hide IsDigest, DigestOf, Pad, Fold;
    d := HashChunks(SHA256, chunks);
    SizeOf(SHA256, ChunkBits(chunks), 8);
    HashIsDigest(SHA256, ChunkBits(chunks));
  }

  lemma SizeOf<H>(alg: Algo<H>, m: seq<bool>, n: nat)
    requires alg.Ok() && alg.digestLen <= 4 * n
    requires |alg.words(Fold(alg, alg.init, Pad(m, alg.blockSize)))| == n
    ensures |Hash(alg, m)| == alg.digestLen
  {
    hide Pad, Fold;
  }
}
