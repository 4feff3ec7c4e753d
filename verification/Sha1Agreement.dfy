/** The two SHA-1 implementations of the repository give the same digests. */
module Sha1Agreement {
  import opened Bits
  import opened ShaSpec
  import opened ShaStream
  import opened Hmac
  import opened Fips180
  import opened Sha1Info

  type Buffer = b: seq<bv8> | |b| < 0x8000_0000 witness []

  ghost function Joined(buffers: seq<Buffer>): seq<bv8> {
    if buffers == [] then [] else Joined(buffers[..|buffers| - 1]) + buffers[|buffers| - 1]
  }

  /** Digest-SHA1 over any cutting of a byte string into updates is the one-shot hash. */
  method InfoDigest(buffers: seq<Buffer>) returns (d: seq<bv8>)
    ensures d == Hash(SHA1, ToBits(Joined(buffers))) && |d| == 20
  {
    hide ToBits, Fold, Pad, Folded, Info.Held;
    var info := new Info();
    assert buffers[..0] == [];
    for i := 0 to |buffers|
      invariant info.Valid() && info.msg == Joined(buffers[..i]) && fresh(info) && fresh(info.data)
    {
      info.Update(buffers[i]);
      assert buffers[..i + 1][..i] == buffers[..i];
    }
    assert buffers[..|buffers|] == buffers;
    d := info.Final();
  }

  /** For one message, however each side cuts it into calls, both sides return the same 20 bytes. */
  method BothDigests(chunks: seq<Chunk>, buffers: seq<Buffer>) returns (d1: seq<bv8>, d2: seq<bv8>)
    requires ChunkBits(chunks) == ToBits(Joined(buffers))
    ensures d1 == d2 && |d1| == 20 && d1 == Hash(SHA1, ChunkBits(chunks))
  {
    hide ToBits, Fold, Pad;
    d1 := HashChunks(SHA1, chunks);
    d2 := InfoDigest(buffers);
  }
}
