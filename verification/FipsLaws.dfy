/** What FIPS PUB 180-2 says of its own functions and constants: the functions bit by bit (sections 3.2 and 4.1), the
    constants as roots of small numbers (sections 4.2 and 5.3). */
module FipsLaws {
  import opened Bits
  import opened ShaSpec
  import opened Fips180
  import opened Sha1Info
  import opened ShaDigests

  // ----- the first 64 primes

  /** In rows of eight. */
  function Primes(row: nat): (r: seq<nat>)
    ensures |r| == 8
  {
    if row == 0 then [2, 3, 5, 7, 11, 13, 17, 19]
    else if row == 1 then [23, 29, 31, 37, 41, 43, 47, 53]
    else if row == 2 then [59, 61, 67, 71, 73, 79, 83, 89]
    else if row == 3 then [97, 101, 103, 107, 109, 113, 127, 131]
    else if row == 4 then [137, 139, 149, 151, 157, 163, 167, 173]
    else if row == 5 then [179, 181, 191, 193, 197, 199, 211, 223]
    else if row == 6 then [227, 229, 233, 239, 241, 251, 257, 263]
    else [269, 271, 277, 281, 283, 293, 307, 311]
  }

  function PrimeAt(t: nat): nat
    requires t < 64
  {
    Primes(t / 8)[t % 8]
  }

  // ----- cube roots

  const TWO32: nat := 0x1_0000_0000
  const TWO96: nat := TWO32 * TWO32 * TWO32

  /** x is the integer part of 2^32 times the cube root of p. */
  ghost predicate CubeRoot(p: nat, x: nat) {
    x * x * x <= p * TWO96 < (x + 1) * (x + 1) * (x + 1)
  }

  /** k is the first 32 bits of the fractional part of the cube root of p. */
  ghost predicate CubeFraction(p: nat, k: bv32) {
    exists c: nat :: CubeRoot(p, c * TWO32 + (k as nat))
  }

  lemma Cubes0()
    ensures forall i | 0 <= i < 8 :: CubeFraction(Primes(0)[i], K256(0)[i])
  {
    assert CubeRoot(Primes(0)[0], 1 * TWO32 + (K256(0)[0] as nat));
    assert CubeRoot(Primes(0)[1], 1 * TWO32 + (K256(0)[1] as nat));
    assert CubeRoot(Primes(0)[2], 1 * TWO32 + (K256(0)[2] as nat));
    assert CubeRoot(Primes(0)[3], 1 * TWO32 + (K256(0)[3] as nat));
    assert CubeRoot(Primes(0)[4], 2 * TWO32 + (K256(0)[4] as nat));
    assert CubeRoot(Primes(0)[5], 2 * TWO32 + (K256(0)[5] as nat));
    assert CubeRoot(Primes(0)[6], 2 * TWO32 + (K256(0)[6] as nat));
    assert CubeRoot(Primes(0)[7], 2 * TWO32 + (K256(0)[7] as nat));
  }

  lemma Cubes1()
    ensures forall i | 0 <= i < 8 :: CubeFraction(Primes(1)[i], K256(1)[i])
  {
    assert CubeRoot(Primes(1)[0], 2 * TWO32 + (K256(1)[0] as nat));
    assert CubeRoot(Primes(1)[1], 3 * TWO32 + (K256(1)[1] as nat));
    assert CubeRoot(Primes(1)[2], 3 * TWO32 + (K256(1)[2] as nat));
    assert CubeRoot(Primes(1)[3], 3 * TWO32 + (K256(1)[3] as nat));
    assert CubeRoot(Primes(1)[4], 3 * TWO32 + (K256(1)[4] as nat));
    assert CubeRoot(Primes(1)[5], 3 * TWO32 + (K256(1)[5] as nat));
    assert CubeRoot(Primes(1)[6], 3 * TWO32 + (K256(1)[6] as nat));
    assert CubeRoot(Primes(1)[7], 3 * TWO32 + (K256(1)[7] as nat));
  }

  lemma Cubes2()
    ensures forall i | 0 <= i < 8 :: CubeFraction(Primes(2)[i], K256(2)[i])
  {
    assert CubeRoot(Primes(2)[0], 3 * TWO32 + (K256(2)[0] as nat));
    assert CubeRoot(Primes(2)[1], 3 * TWO32 + (K256(2)[1] as nat));
    assert CubeRoot(Primes(2)[2], 4 * TWO32 + (K256(2)[2] as nat));
    assert CubeRoot(Primes(2)[3], 4 * TWO32 + (K256(2)[3] as nat));
    assert CubeRoot(Primes(2)[4], 4 * TWO32 + (K256(2)[4] as nat));
    assert CubeRoot(Primes(2)[5], 4 * TWO32 + (K256(2)[5] as nat));
    assert CubeRoot(Primes(2)[6], 4 * TWO32 + (K256(2)[6] as nat));
    assert CubeRoot(Primes(2)[7], 4 * TWO32 + (K256(2)[7] as nat));
  }

  lemma Cubes3()
    ensures forall i | 0 <= i < 8 :: CubeFraction(Primes(3)[i], K256(3)[i])
  {
    assert CubeRoot(Primes(3)[0], 4 * TWO32 + (K256(3)[0] as nat));
    assert CubeRoot(Primes(3)[1], 4 * TWO32 + (K256(3)[1] as nat));
    assert CubeRoot(Primes(3)[2], 4 * TWO32 + (K256(3)[2] as nat));
    assert CubeRoot(Primes(3)[3], 4 * TWO32 + (K256(3)[3] as nat));
    assert CubeRoot(Primes(3)[4], 4 * TWO32 + (K256(3)[4] as nat));
    assert CubeRoot(Primes(3)[5], 4 * TWO32 + (K256(3)[5] as nat));
    assert CubeRoot(Primes(3)[6], 5 * TWO32 + (K256(3)[6] as nat));
    assert CubeRoot(Primes(3)[7], 5 * TWO32 + (K256(3)[7] as nat));
  }

  lemma Cubes4()
    ensures forall i | 0 <= i < 8 :: CubeFraction(Primes(4)[i], K256(4)[i])
  {
    assert CubeRoot(Primes(4)[0], 5 * TWO32 + (K256(4)[0] as nat));
    assert CubeRoot(Primes(4)[1], 5 * TWO32 + (K256(4)[1] as nat));
    assert CubeRoot(Primes(4)[2], 5 * TWO32 + (K256(4)[2] as nat));
    assert CubeRoot(Primes(4)[3], 5 * TWO32 + (K256(4)[3] as nat));
    assert CubeRoot(Primes(4)[4], 5 * TWO32 + (K256(4)[4] as nat));
    assert CubeRoot(Primes(4)[5], 5 * TWO32 + (K256(4)[5] as nat));
    assert CubeRoot(Primes(4)[6], 5 * TWO32 + (K256(4)[6] as nat));
    assert CubeRoot(Primes(4)[7], 5 * TWO32 + (K256(4)[7] as nat));
  }

  lemma Cubes5()
    ensures forall i | 0 <= i < 8 :: CubeFraction(Primes(5)[i], K256(5)[i])
  {
    assert CubeRoot(Primes(5)[0], 5 * TWO32 + (K256(5)[0] as nat));
    assert CubeRoot(Primes(5)[1], 5 * TWO32 + (K256(5)[1] as nat));
    assert CubeRoot(Primes(5)[2], 5 * TWO32 + (K256(5)[2] as nat));
    assert CubeRoot(Primes(5)[3], 5 * TWO32 + (K256(5)[3] as nat));
    assert CubeRoot(Primes(5)[4], 5 * TWO32 + (K256(5)[4] as nat));
    assert CubeRoot(Primes(5)[5], 5 * TWO32 + (K256(5)[5] as nat));
    assert CubeRoot(Primes(5)[6], 5 * TWO32 + (K256(5)[6] as nat));
    assert CubeRoot(Primes(5)[7], 6 * TWO32 + (K256(5)[7] as nat));
  }

  lemma Cubes6()
    ensures forall i | 0 <= i < 8 :: CubeFraction(Primes(6)[i], K256(6)[i])
  {
    assert CubeRoot(Primes(6)[0], 6 * TWO32 + (K256(6)[0] as nat));
    assert CubeRoot(Primes(6)[1], 6 * TWO32 + (K256(6)[1] as nat));
    assert CubeRoot(Primes(6)[2], 6 * TWO32 + (K256(6)[2] as nat));
    assert CubeRoot(Primes(6)[3], 6 * TWO32 + (K256(6)[3] as nat));
    assert CubeRoot(Primes(6)[4], 6 * TWO32 + (K256(6)[4] as nat));
    assert CubeRoot(Primes(6)[5], 6 * TWO32 + (K256(6)[5] as nat));
    assert CubeRoot(Primes(6)[6], 6 * TWO32 + (K256(6)[6] as nat));
    assert CubeRoot(Primes(6)[7], 6 * TWO32 + (K256(6)[7] as nat));
  }

  lemma Cubes7()
    ensures forall i | 0 <= i < 8 :: CubeFraction(Primes(7)[i], K256(7)[i])
  {
    assert CubeRoot(Primes(7)[0], 6 * TWO32 + (K256(7)[0] as nat));
    assert CubeRoot(Primes(7)[1], 6 * TWO32 + (K256(7)[1] as nat));
    assert CubeRoot(Primes(7)[2], 6 * TWO32 + (K256(7)[2] as nat));
    assert CubeRoot(Primes(7)[3], 6 * TWO32 + (K256(7)[3] as nat));
    assert CubeRoot(Primes(7)[4], 6 * TWO32 + (K256(7)[4] as nat));
    assert CubeRoot(Primes(7)[5], 6 * TWO32 + (K256(7)[5] as nat));
    assert CubeRoot(Primes(7)[6], 6 * TWO32 + (K256(7)[6] as nat));
    assert CubeRoot(Primes(7)[7], 6 * TWO32 + (K256(7)[7] as nat));
  }

  /** Each constant of SHA-256 is the first 32 bits of the fractional part of the cube root of its prime. */
  lemma K256Roots(t: nat)
    requires t < 64
    ensures CubeFraction(PrimeAt(t), K2(t))
  {
    hide CubeFraction, K256, Primes;
    var row := t / 8;
    if row == 0 { Cubes0(); } else if row == 1 { Cubes1(); } else if row == 2 { Cubes2(); }
      else if row == 3 { Cubes3(); }
    else if row == 4 { Cubes4(); } else if row == 5 { Cubes5(); } else if row == 6 { Cubes6(); } else { Cubes7(); }
  }

  // ----- square roots

  /** x is the integer part of n times the square root of p, for n squared m. */
  ghost predicate SquareRoot(p: nat, m: nat, x: nat) {
    x * x <= p * m < (x + 1) * (x + 1)
  }

  /** k is the first 32 bits of the fractional part of the square root of p. */
  ghost predicate SquareFraction(p: nat, k: bv32) {
    exists c: nat :: SquareRoot(p, TWO32 * TWO32, c * TWO32 + (k as nat))
  }

  /** k is the second 32 bits of that. */
  ghost predicate SecondFraction(p: nat, k: bv32) {
    exists c: nat :: SquareRoot(p, TWO32 * TWO32 * TWO32 * TWO32, c * TWO32 + (k as nat))
  }

  /** The initial value of SHA-256: the first eight primes. */
  lemma Init256Roots()
    ensures var h := INIT256;
            SquareFraction(2, h.a) && SquareFraction(3, h.b) && SquareFraction(5, h.c) && SquareFraction(7, h.d) &&
            SquareFraction(11, h.e) && SquareFraction(13, h.f) && SquareFraction(17, h.g) && SquareFraction(19, h.h)
  {
    var h := INIT256;
    assert SquareRoot(2, TWO32 * TWO32, 1 * TWO32 + (h.a as nat));
    assert SquareRoot(3, TWO32 * TWO32, 1 * TWO32 + (h.b as nat));
    assert SquareRoot(5, TWO32 * TWO32, 2 * TWO32 + (h.c as nat));
    assert SquareRoot(7, TWO32 * TWO32, 2 * TWO32 + (h.d as nat));
    assert SquareRoot(11, TWO32 * TWO32, 3 * TWO32 + (h.e as nat));
    assert SquareRoot(13, TWO32 * TWO32, 3 * TWO32 + (h.f as nat));
    assert SquareRoot(17, TWO32 * TWO32, 4 * TWO32 + (h.g as nat));
    assert SquareRoot(19, TWO32 * TWO32, 4 * TWO32 + (h.h as nat));
  }

  /** The initial value of SHA-224: the next eight primes. */
  lemma Init224Roots()
    ensures var h := INIT224;
            SecondFraction(23, h.a) && SecondFraction(29, h.b) && SecondFraction(31, h.c) && SecondFraction(37, h.d) &&
            SecondFraction(41, h.e) && SecondFraction(43, h.f) && SecondFraction(47, h.g) && SecondFraction(53, h.h)
  {
    var h := INIT224;
    assert SquareRoot(23, TWO32 * TWO32 * TWO32 * TWO32, 0x4cbbb9d5d * TWO32 + (h.a as nat));
    assert SquareRoot(29, TWO32 * TWO32 * TWO32 * TWO32, 0x5629a292a * TWO32 + (h.b as nat));
    assert SquareRoot(31, TWO32 * TWO32 * TWO32 * TWO32, 0x59159015a * TWO32 + (h.c as nat));
    assert SquareRoot(37, TWO32 * TWO32 * TWO32 * TWO32, 0x6152fecd8 * TWO32 + (h.d as nat));
    assert SquareRoot(41, TWO32 * TWO32 * TWO32 * TWO32, 0x667332667 * TWO32 + (h.e as nat));
    assert SquareRoot(43, TWO32 * TWO32 * TWO32 * TWO32, 0x68eb44a87 * TWO32 + (h.f as nat));
    assert SquareRoot(47, TWO32 * TWO32 * TWO32 * TWO32, 0x6db0c2e0d * TWO32 + (h.g as nat));
    assert SquareRoot(53, TWO32 * TWO32 * TWO32 * TWO32, 0x747b5481d * TWO32 + (h.h as nat));
  }

  /** The constants of SHA-1: 2^30 times the square roots of 2, 3, 5 and 10. */
  lemma K1Roots(t: nat)
    requires t < 80
    ensures SquareRoot(if t < 20 then 2 else if t < 40 then 3 else if t < 60 then 5 else 10, 0x1000_0000_0000_0000,
                       K1(t) as nat)
  {
    assert SquareRoot(2, 0x1000_0000_0000_0000, 0x5a827999) && SquareRoot(3, 0x1000_0000_0000_0000, 0x6ed9eba1);
    assert SquareRoot(5, 0x1000_0000_0000_0000, 0x8f1bbcdc) && SquareRoot(10, 0x1000_0000_0000_0000, 0xca62c1d6);
  }

  /** The initial value of SHA-1: its octets, each word from the least significant one on, count up and down. */
  lemma Init1Octets()
    ensures var h := INIT1;
            WordOctets(h.a) == [0x67, 0x45, 0x23, 0x01] && WordOctets(h.b) == [0xef, 0xcd, 0xab, 0x89] &&
            WordOctets(h.c) == [0x98, 0xba, 0xdc, 0xfe] && WordOctets(h.d) == [0x10, 0x32, 0x54, 0x76] &&
            WordOctets(h.e) == [0xc3, 0xd2, 0xe1, 0xf0]
  {
  }

  // ----- the functions, bit by bit

  /** Bit i, counted from the least significant one; places are counted modulo 32. */
  function Bit32(x: bv32, i: bv5): bool {
    (x >> i) & 1 == 1
  }

  /** Rotating to the left moves bit i to place i + n. */
  lemma RotlBits(x: bv32, i: bv5)
    ensures Bit32(Rotl1(x), i + 1) == Bit32(x, i)
    ensures Bit32(Rotl5(x), i + 5) == Bit32(x, i)
    ensures Bit32(Rotl30(x), i + 30) == Bit32(x, i)
  {
  }

  lemma XorBits(a: bv32, b: bv32, c: bv32, i: bv5)
    ensures Bit32(Xor3(a, b, c), i) <==> (Bit32(a, i) != Bit32(b, i)) != Bit32(c, i)
  {
    assert Xor3(a, b, c) == a ^ b ^ c;
    hide Bit32, Xor3;
    BitOfXor(a, b, c, i);
  }

  lemma BitOfXor(a: bv32, b: bv32, c: bv32, i: bv5)
    ensures Bit32(a ^ b ^ c, i) <==> (Bit32(a, i) != Bit32(b, i)) != Bit32(c, i)
  {
  }

  /** Rotating to the right brings bit i + n to place i. */
  lemma Rotr2Bit(x: bv32, i: bv5) ensures Bit32(Rotr2(x), i) == Bit32(x, i + 2) {}
  lemma Rotr6Bit(x: bv32, i: bv5) ensures Bit32(Rotr6(x), i) == Bit32(x, i + 6) {}
  lemma Rotr7Bit(x: bv32, i: bv5) ensures Bit32(Rotr7(x), i) == Bit32(x, i + 7) {}
  lemma Rotr11Bit(x: bv32, i: bv5) ensures Bit32(Rotr11(x), i) == Bit32(x, i + 11) {}
  lemma Rotr13Bit(x: bv32, i: bv5) ensures Bit32(Rotr13(x), i) == Bit32(x, i + 13) {}
  lemma Rotr17Bit(x: bv32, i: bv5) ensures Bit32(Rotr17(x), i) == Bit32(x, i + 17) {}
  lemma Rotr18Bit(x: bv32, i: bv5) ensures Bit32(Rotr18(x), i) == Bit32(x, i + 18) {}
  lemma Rotr19Bit(x: bv32, i: bv5) ensures Bit32(Rotr19(x), i) == Bit32(x, i + 19) {}
  lemma Rotr22Bit(x: bv32, i: bv5) ensures Bit32(Rotr22(x), i) == Bit32(x, i + 22) {}
  lemma Rotr25Bit(x: bv32, i: bv5) ensures Bit32(Rotr25(x), i) == Bit32(x, i + 25) {}

  /** Shifting does so while there is one. */
  lemma Shr3Bit(x: bv32, i: bv5) ensures Bit32(Shr3(x), i) <==> i < 29 && Bit32(x, i + 3) {}
  lemma Shr10Bit(x: bv32, i: bv5) ensures Bit32(Shr10(x), i) <==> i < 22 && Bit32(x, i + 10) {}

  lemma BigSigma0Bits(x: bv32, i: bv5)
    ensures Bit32(BigSigma0(x), i) <==> (Bit32(x, i + 2) != Bit32(x, i + 13)) != Bit32(x, i + 22)
  {
    hide Bit32, Xor3, Rotr2, Rotr13, Rotr22;
    Rotr2Bit(x, i); Rotr13Bit(x, i); Rotr22Bit(x, i);
    XorBits(Rotr2(x), Rotr13(x), Rotr22(x), i);
  }

  lemma BigSigma1Bits(x: bv32, i: bv5)
    ensures Bit32(BigSigma1(x), i) <==> (Bit32(x, i + 6) != Bit32(x, i + 11)) != Bit32(x, i + 25)
  {
    hide Bit32, Xor3, Rotr6, Rotr11, Rotr25;
    Rotr6Bit(x, i); Rotr11Bit(x, i); Rotr25Bit(x, i);
    XorBits(Rotr6(x), Rotr11(x), Rotr25(x), i);
  }

  lemma SmallSigma0Bits(x: bv32, i: bv5)
    ensures Bit32(SmallSigma0(x), i) <==> (Bit32(x, i + 7) != Bit32(x, i + 18)) != (i < 29 && Bit32(x, i + 3))
  {
    hide Bit32, Xor3, Rotr7, Rotr18, Shr3;
    Rotr7Bit(x, i); Rotr18Bit(x, i); Shr3Bit(x, i);
    XorBits(Rotr7(x), Rotr18(x), Shr3(x), i);
  }

  lemma SmallSigma1Bits(x: bv32, i: bv5)
    ensures Bit32(SmallSigma1(x), i) <==> (Bit32(x, i + 17) != Bit32(x, i + 19)) != (i < 22 && Bit32(x, i + 10))
  {
    hide Bit32, Xor3, Rotr17, Rotr19, Shr10;
    Rotr17Bit(x, i); Rotr19Bit(x, i); Shr10Bit(x, i);
    XorBits(Rotr17(x), Rotr19(x), Shr10(x), i);
  }

  /** Where the bits of x are set y is chosen, and elsewhere z. */
  lemma ChBits(x: bv32, y: bv32, z: bv32, m: bv32)
    ensures x & m == m ==> Ch(x, y, z) & m == y & m
    ensures x & m == 0 ==> Ch(x, y, z) & m == z & m
  {
  }

  /** Where two agree the third is kept, and where they differ it is turned over. */
  lemma ParityBits(x: bv32, y: bv32, z: bv32, m: bv32)
    ensures x & m == y & m ==> Parity(x, y, z) & m == z & m
    ensures x & m == !y & m ==> Parity(x, y, z) & m == !z & m
  {
  }

  /** Where two agree, that is the majority. */
  lemma MajXY(x: bv32, y: bv32, z: bv32, m: bv32)
    requires x & m == y & m
    ensures Maj(x, y, z) & m == x & m
  {
  }

  lemma MajXZ(x: bv32, y: bv32, z: bv32, m: bv32)
    requires x & m == z & m
    ensures Maj(x, y, z) & m == x & m
  {
  }

  lemma MajYZ(x: bv32, y: bv32, z: bv32, m: bv32)
    requires y & m == z & m
    ensures Maj(x, y, z) & m == y & m
  {
  }

  /** The words of a block are its octets in big-endian order. */
  lemma BlockWords(b: Block, t: nat)
    requires t < 16
    ensures WordOctets(WordsOf(b)[t]) == b[4 * t..4 * t + 4]
  {
    hide WordOctets;
    assert WordsOf(b)[t] == WordAt(b, t);
    BlockWord(b[4 * t], b[4 * t + 1], b[4 * t + 2], b[4 * t + 3]);
  }

  lemma BlockWord(a: bv8, b: bv8, c: bv8, d: bv8)
    ensures WordOctets(((a as bv32) << 24) | ((b as bv32) << 16) | ((c as bv32) << 8) | (d as bv32)) == [a, b, c, d]
  {
  }

  // ----- the example "abc" of the standard

  /** Steps of the example in appendix A.1 of FIPS PUB 180-2, one for each function and constant, a word of its
      schedule, and how its digest comes out of its last state. */
  lemma Sha1Example()
    ensures Step1(State1(0x67452301, 0xefcdab89, 0x98badcfe, 0x10325476, 0xc3d2e1f0), 0, 0x61626380) ==
            State1(0x0116fc33, 0x67452301, 0x7bf36ae2, 0x98badcfe, 0x10325476)
    ensures Step1(State1(0xfd9e1d7d, 0xdc64901d, 0x20aa99ca, 0xd3a49608, 0xc82f758b), 20, 0x00000000) ==
            State1(0x1a37b0ca, 0xfd9e1d7d, 0x77192407, 0x20aa99ca, 0xd3a49608)
    ensures Step1(State1(0x32de1cba, 0x4c986405, 0xf718e5cf, 0x03d447f6, 0xf72eec32), 40, 0xd2e138c4) ==
            State1(0xfc87dedf, 0x32de1cba, 0x53261901, 0xf718e5cf, 0x03d447f6)
    ensures Step1(State1(0x3f52de5a, 0x09d785fd, 0x3498bfd4, 0xf211824f, 0xd79915ab), 60, 0x7ba06619) ==
            State1(0xd756c147, 0x3f52de5a, 0x4275e17f, 0x3498bfd4, 0xf211824f)
    ensures Step1(State1(0x5738d5e1, 0x860d21cc, 0x681e6df6, 0xd8fdf6ad, 0xd7b9da25), 79, 0x822e0879) ==
            State1(0x42541b35, 0x5738d5e1, 0x21834873, 0x681e6df6, 0xd8fdf6ad)
    ensures Mix1(0x62658ca1, 0x3835b44b, 0x053a37cd, 0xe2ba3c2b) == 0x7ba06619
    ensures SHA1.words(Add1(SHA1.init, State1(0x42541b35, 0x5738d5e1, 0x21834873, 0x681e6df6, 0xd8fdf6ad)))[..5] ==
            [0xa9993e36, 0x4706816a, 0xba3e2571, 0x7850c26c, 0x9cd0d89d]
  {
  }

  /** The same from appendix B.1. */
  lemma Sha256Example()
    ensures Step2(State2(0x6a09e667, 0xbb67ae85, 0x3c6ef372, 0xa54ff53a, 0x510e527f, 0x9b05688c, 0x1f83d9ab,
            0x5be0cd19), 0, 0x61626380) ==
            State2(0x5d6aebcd, 0x6a09e667, 0xbb67ae85, 0x3c6ef372, 0xfa2a4622, 0x510e527f, 0x9b05688c, 0x1f83d9ab)
    ensures Step2(State2(0xea992a22, 0xa0060b30, 0x363482c9, 0x77d37528, 0x0109ab3a, 0xade79437, 0x6112a3b7,
            0xedffbff8), 31, 0xd3b7973b) ==
            State2(0x73b33bf5, 0xea992a22, 0xa0060b30, 0x363482c9, 0xba591112, 0x0109ab3a, 0xade79437, 0x6112a3b7)
    ensures Step2(State2(0xd39a2165, 0x04d24d6c, 0xb85e2ce9, 0xb6ae8fff, 0xfb121210, 0x948d25b6, 0x961f4894,
            0xb21bad3d), 63, 0x12b1edeb) ==
            State2(0x506e3058, 0xd39a2165, 0x04d24d6c, 0xb85e2ce9, 0x5ef50f24, 0xfb121210, 0x948d25b6, 0x961f4894)
    ensures Mix2(0x9409e33e, 0x3b68ba73, 0xb73679a2, 0xc8215c1a) == 0x9f47bf94
    ensures SHA256.words(Add2(SHA256.init,
            State2(0x506e3058, 0xd39a2165, 0x04d24d6c, 0xb85e2ce9, 0x5ef50f24, 0xfb121210, 0x948d25b6, 0x961f4894))) ==
            [0xba7816bf, 0x8f01cfea, 0x414140de, 0x5dae2223, 0xb00361a3, 0x96177a9c, 0xb410ff61, 0xf20015ad]
  {
  }

  const ABC: seq<bv8> := [0x61, 0x62, 0x63]

  /** The message, the octet 0x80, zeros, and its length, 24. */
  function AbcBlock(): (b: Block)
    ensures b[0] == 0x61 && b[1] == 0x62 && b[2] == 0x63 && b[3] == 0x80 && b[63] == 24
    ensures forall i | 4 <= i < 63 :: b[i] == 0
  {
    [0x61, 0x62, 0x63, 0x80] + seq(59, _ => 0) + [24]
  }

  lemma {:induction false} ZeroBits(w: nat)
    ensures NatBits(0, w) == Zeros(w)
  {
    if w > 0 { ZeroBits(w - 1); }
  }

  lemma LastOctet(i: nat)
    requires i < 8
    ensures NatBits(24, 8)[i] == Bit(24, i)
  {
    hide NatBits;
    BitsOf24();
  }

  lemma BitsOf24()
    ensures NatBits(24, 8) == [false, false, false, true, true, false, false, false]
  {
    hide NatBits;
    SnocBit(24, 8); SnocBit(12, 7); SnocBit(6, 6); SnocBit(3, 5); SnocBit(1, 4);
    ZeroBits(3);
    assert Zeros(3) == [false, false, false];
  }

  lemma LengthBits()
    ensures NatBits(24, 64) == Zeros(56) + NatBits(24, 8)
  {
    hide NatBits;
    assert Pow2(8) == 256;
    NatBitsSplit(0, 24, 56, 8);
    ZeroBits(56);
  }

  lemma NoBit(i: nat)
    requires i < 8
    ensures !Bit(0, i) && Bit(0x80, i) == (i == 0)
  {
  }

  lemma PadAbc()
    ensures Pad(ToBits(ABC), 512) == ToBits(AbcBlock())
  {
    hide NatBits, Bit;
    var p, q, b := Pad(ToBits(ABC), 512), ToBits(AbcBlock()), AbcBlock();
    LengthBits();
    assert ZeroCount(24, 512) == 423;
    assert p == ToBits(ABC) + [true] + Zeros(423) + (Zeros(56) + NatBits(24, 8));
    forall k | 0 <= k < 512 ensures p[k] == q[k] {
      NoBit(k % 8);
      if k >= 504 {
        LastOctet(k - 504);
        assert k / 8 == 63 && k % 8 == k - 504;
      } else if k >= 24 {
        assert k < 32 ==> k / 8 == 3 && k % 8 == k - 24;
      }
    }
  }
}
