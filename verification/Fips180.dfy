/** The SHA-1 and SHA-256 compression functions as the textbook loops of FIPS PUB 180-2. */
module Fips180 {

  function Rotl1(x: bv32): bv32 { (x << 1) | (x >> 31) }
  function Rotl5(x: bv32): bv32 { (x << 5) | (x >> 27) }
  function Rotl30(x: bv32): bv32 { (x << 30) | (x >> 2) }

  /** ROTR n and SHR n, one function for each n that occurs. */
  function Rotr2(x: bv32): bv32 { (x >> 2) | (x << 30) }
  function Rotr6(x: bv32): bv32 { (x >> 6) | (x << 26) }
  function Rotr7(x: bv32): bv32 { (x >> 7) | (x << 25) }
  function Rotr11(x: bv32): bv32 { (x >> 11) | (x << 21) }
  function Rotr13(x: bv32): bv32 { (x >> 13) | (x << 19) }
  function Rotr17(x: bv32): bv32 { (x >> 17) | (x << 15) }
  function Rotr18(x: bv32): bv32 { (x >> 18) | (x << 14) }
  function Rotr19(x: bv32): bv32 { (x >> 19) | (x << 13) }
  function Rotr22(x: bv32): bv32 { (x >> 22) | (x << 10) }
  function Rotr25(x: bv32): bv32 { (x >> 25) | (x << 7) }
  function Shr3(x: bv32): bv32 { x >> 3 }
  function Shr10(x: bv32): bv32 { x >> 10 }

  function Xor3(a: bv32, b: bv32, c: bv32): bv32 { a ^ b ^ c }

  function BigSigma0(x: bv32): bv32 { Xor3(Rotr2(x), Rotr13(x), Rotr22(x)) }
  function BigSigma1(x: bv32): bv32 { Xor3(Rotr6(x), Rotr11(x), Rotr25(x)) }
  function SmallSigma0(x: bv32): bv32 { Xor3(Rotr7(x), Rotr18(x), Shr3(x)) }
  function SmallSigma1(x: bv32): bv32 { Xor3(Rotr17(x), Rotr19(x), Shr10(x)) }

  function Ch(x: bv32, y: bv32, z: bv32): bv32 { (x & y) ^ (!x & z) }
  function Parity(x: bv32, y: bv32, z: bv32): bv32 { x ^ y ^ z }
  function Maj(x: bv32, y: bv32, z: bv32): bv32 { (x & y) ^ (x & z) ^ (y & z) }

  type Words = w: seq<bv32> | |w| == 16 witness seq(16, _ => 0)
  type Block = b: seq<bv8> | |b| == 64 witness seq(64, _ => 0)

  /** Word t of a block, big-endian. */
  function WordAt(b: Block, t: nat): bv32
    requires t < 16
  {
    ((b[4 * t] as bv32) << 24) | ((b[4 * t + 1] as bv32) << 16) | ((b[4 * t + 2] as bv32) << 8) | (b[4 * t + 3] as bv32)
  }

  function WordsOf(b: Block): Words {
    seq(16, t requires 0 <= t < 16 => WordAt(b, t))
  }

  // ----- SHA-1, section 6.1.2

  datatype State1 = State1(a: bv32, b: bv32, c: bv32, d: bv32, e: bv32)

  function F1(t: nat, x: bv32, y: bv32, z: bv32): bv32 {
    if t < 20 then Ch(x, y, z) else if t < 40 then Parity(x, y, z) else if t < 60 then Maj(x, y, z) else Parity(x, y, z)
  }

  function K1(t: nat): bv32 {
    if t < 20 then 0x5a827999 else if t < 40 then 0x6ed9eba1 else if t < 60 then 0x8f1bbcdc else 0xca62c1d6
  }

  function Mix1(w3: bv32, w8: bv32, w14: bv32, w16: bv32): bv32 { Rotl1(w3 ^ w8 ^ w14 ^ w16) }

  function Sched1(w: Words, t: nat): bv32 {
    if t < 16 then w[t]
    else Mix1(Sched1(w, t - 3), Sched1(w, t - 8), Sched1(w, t - 14), Sched1(w, t - 16))
  }

  function Sum5(r: bv32, f: bv32, e: bv32, k: bv32, w: bv32): bv32 { r + f + e + k + w }

  function Temp1(s: State1, t: nat, w: bv32): bv32 {
    Sum5(Rotl5(s.a), F1(t, s.b, s.c, s.d), s.e, K1(t), w)
  }

  function Step1(s: State1, t: nat, w: bv32): State1 {
    State1(Temp1(s, t, w), s.a, Rotl30(s.b), s.c, s.d)
  }

  function Run1(s: State1, w: Words, n: nat): State1 {
    if n == 0 then s else Step1(Run1(s, w, n - 1), n - 1, Sched1(w, n - 1))
  }

  function Add1(x: State1, y: State1): State1 {
    State1(x.a + y.a, x.b + y.b, x.c + y.c, x.d + y.d, x.e + y.e)
  }

  function Compress1(h: State1, b: Block): State1 {
    Add1(h, Run1(h, WordsOf(b), 80))
  }

  // ----- SHA-256, section 6.2.2

  datatype State2 = State2(a: bv32, b: bv32, c: bv32, d: bv32, e: bv32, f: bv32, g: bv32, h: bv32)

  /** The 64 constants, in rows of eight. */
  function K256(row: nat): (r: seq<bv32>)
    ensures |r| == 8
  {
    if row == 0 then
      [0x428a2f98, 0x71374491, 0xb5c0fbcf, 0xe9b5dba5, 0x3956c25b, 0x59f111f1, 0x923f82a4, 0xab1c5ed5]
    else if row == 1 then
      [0xd807aa98, 0x12835b01, 0x243185be, 0x550c7dc3, 0x72be5d74, 0x80deb1fe, 0x9bdc06a7, 0xc19bf174]
    else if row == 2 then
      [0xe49b69c1, 0xefbe4786, 0x0fc19dc6, 0x240ca1cc, 0x2de92c6f, 0x4a7484aa, 0x5cb0a9dc, 0x76f988da]
    else if row == 3 then
      [0x983e5152, 0xa831c66d, 0xb00327c8, 0xbf597fc7, 0xc6e00bf3, 0xd5a79147, 0x06ca6351, 0x14292967]
    else if row == 4 then
      [0x27b70a85, 0x2e1b2138, 0x4d2c6dfc, 0x53380d13, 0x650a7354, 0x766a0abb, 0x81c2c92e, 0x92722c85]
    else if row == 5 then
      [0xa2bfe8a1, 0xa81a664b, 0xc24b8b70, 0xc76c51a3, 0xd192e819, 0xd6990624, 0xf40e3585, 0x106aa070]
    else if row == 6 then
      [0x19a4c116, 0x1e376c08, 0x2748774c, 0x34b0bcb5, 0x391c0cb3, 0x4ed8aa4a, 0x5b9cca4f, 0x682e6ff3]
    else
      [0x748f82ee, 0x78a5636f, 0x84c87814, 0x8cc70208, 0x90befffa, 0xa4506ceb, 0xbef9a3f7, 0xc67178f2]
  }

  function K2(t: nat): bv32 {
    if t < 64 then K256(t / 8)[t % 8] else 0
  }

  function Mix2(w2: bv32, w7: bv32, w15: bv32, w16: bv32): bv32 {
    SmallSigma1(w2) + w7 + SmallSigma0(w15) + w16
  }

  function Sched2(w: Words, t: nat): bv32 {
    if t < 16 then w[t]
    else Mix2(Sched2(w, t - 2), Sched2(w, t - 7), Sched2(w, t - 15), Sched2(w, t - 16))
  }

  function TempA(s: State2, t: nat, w: bv32): bv32 {
    Sum5(s.h, BigSigma1(s.e), Ch(s.e, s.f, s.g), K2(t), w)
  }

  /** T1 + T2 with T2 = S + M */
  function NewA(t1: bv32, s: bv32, m: bv32): bv32 { t1 + (s + m) }

  function Plus(x: bv32, y: bv32): bv32 { x + y }

  function Step2(s: State2, t: nat, w: bv32): State2 {
    var t1 := TempA(s, t, w);
    State2(NewA(t1, BigSigma0(s.a), Maj(s.a, s.b, s.c)), s.a, s.b, s.c, Plus(s.d, t1), s.e, s.f, s.g)
  }

  function Run2(s: State2, w: Words, n: nat): State2 {
    if n == 0 then s else Step2(Run2(s, w, n - 1), n - 1, Sched2(w, n - 1))
  }

  function Add2(x: State2, y: State2): State2 {
    State2(x.a + y.a, x.b + y.b, x.c + y.c, x.d + y.d, x.e + y.e, x.f + y.f, x.g + y.g, x.h + y.h)
  }

  function Compress2(h: State2, b: Block): State2 {
    Add2(h, Run2(h, WordsOf(b), 64))
  }
}
