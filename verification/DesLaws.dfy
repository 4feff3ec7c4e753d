/** What the bit twiddling of _des.c amounts to, bit by bit, for any tables: the permutations and selections of FIPS PUB
    46-3. */
module DesLaws {
  import opened Des

  /** Bit i of a word, counted from the least significant one; places are counted modulo 32. */
  function Bit(x: bv32, i: bv5): bool {
    (x >> i) & 1 == 1
  }

  // ----- the initial permutation

  lemma Moved4(a: bv32, b: bv32, i: bv5)
    requires i & 4 == 0
    ensures Bit(PermA4(a, b), i + 4) == Bit(b, i) && Bit(PermB4(a, b), i) == Bit(a, i + 4)
  {
  }

  lemma Kept4(a: bv32, b: bv32, i: bv5)
    requires i & 4 == 0
    ensures Bit(PermA4(a, b), i) == Bit(a, i) && Bit(PermB4(a, b), i + 4) == Bit(b, i + 4)
  {
  }

  lemma Moved16(a: bv32, b: bv32, i: bv5)
    requires i & 16 == 0
    ensures Bit(PermA16(a, b), i + 16) == Bit(b, i) && Bit(PermB16(a, b), i) == Bit(a, i + 16)
  {
  }

  lemma Kept16(a: bv32, b: bv32, i: bv5)
    requires i & 16 == 0
    ensures Bit(PermA16(a, b), i) == Bit(a, i) && Bit(PermB16(a, b), i + 16) == Bit(b, i + 16)
  {
  }

  lemma Moved2(a: bv32, b: bv32, i: bv5)
    requires i & 2 == 0
    ensures Bit(PermA2(a, b), i + 2) == Bit(b, i) && Bit(PermB2(a, b), i) == Bit(a, i + 2)
  {
  }

  lemma Kept2(a: bv32, b: bv32, i: bv5)
    requires i & 2 == 0
    ensures Bit(PermA2(a, b), i) == Bit(a, i) && Bit(PermB2(a, b), i + 2) == Bit(b, i + 2)
  {
  }

  lemma Moved8(a: bv32, b: bv32, i: bv5)
    requires i & 8 == 0
    ensures Bit(PermA8(a, b), i + 8) == Bit(b, i) && Bit(PermB8(a, b), i) == Bit(a, i + 8)
  {
  }

  lemma Kept8(a: bv32, b: bv32, i: bv5)
    requires i & 8 == 0
    ensures Bit(PermA8(a, b), i) == Bit(a, i) && Bit(PermB8(a, b), i + 8) == Bit(b, i + 8)
  {
  }

  lemma Moved1(a: bv32, b: bv32, i: bv5)
    requires i & 1 == 0
    ensures Bit(PermA1(a, b), i + 1) == Bit(b, i) && Bit(PermB1(a, b), i) == Bit(a, i + 1)
  {
  }

  lemma Kept1(a: bv32, b: bv32, i: bv5)
    requires i & 1 == 0
    ensures Bit(PermA1(a, b), i) == Bit(a, i) && Bit(PermB1(a, b), i + 1) == Bit(b, i + 1)
  {
  }

  /** Bit k of the two words, of which l has the places below 32. */
  function At(x: Pair, k: bv6): bool {
    if k & 32 == 0 then Bit(x.l, Low(k)) else Bit(x.r, Low(k))
  }

  function Low(k: bv6): bv5 { (k & 31) as bv5 }

  /** Where the bit comes from that PERM_OP(r, l, .., n, ..) leaves at place k. */
  function FromRL(k: bv6, n: bv6): bv6 {
    if (k & 32 == 0) == (k & n == 0) then k ^ (32 | n) else k
  }

  /** The same for PERM_OP(l, r, .., n, ..). */
  function FromLR(k: bv6, n: bv6): bv6 {
    if (k & 32 == 0) != (k & n == 0) then k ^ (32 | n) else k
  }

  lemma OnRL4(x: Pair, k: bv6)
    ensures At(OnRL(4, x), k) == At(x, FromRL(k, 4))
  {
    hide Bit, PermA4, PermB4;
    var i := Low(k) & 27;
    Places4(k);
    Moved4(x.r, x.l, i);
    Kept4(x.r, x.l, i);
  }

  lemma Places4(k: bv6)
    ensures Low(k) & 4 == 0 <==> k & 4 == 0
    ensures Low(k) == if k & 4 == 0 then Low(k) & 27 else (Low(k) & 27) + 4
    ensures Low(k ^ (32 | 4)) == if k & 4 == 0 then (Low(k) & 27) + 4 else Low(k) & 27
    ensures (Low(k) & 27) & 4 == 0 && ((k ^ (32 | 4)) & 32 == 0 <==> k & 32 != 0)
  {
  }

  lemma OnLR16(x: Pair, k: bv6)
    ensures At(OnLR(16, x), k) == At(x, FromLR(k, 16))
  {
    hide Bit, PermA16, PermB16;
    var i := Low(k) & 15;
    Places16(k);
    Moved16(x.l, x.r, i);
    Kept16(x.l, x.r, i);
  }

  lemma Places16(k: bv6)
    ensures Low(k) & 16 == 0 <==> k & 16 == 0
    ensures Low(k) == if k & 16 == 0 then Low(k) & 15 else (Low(k) & 15) + 16
    ensures Low(k ^ (32 | 16)) == if k & 16 == 0 then (Low(k) & 15) + 16 else Low(k) & 15
    ensures (Low(k) & 15) & 16 == 0 && ((k ^ (32 | 16)) & 32 == 0 <==> k & 32 != 0)
  {
  }

  lemma OnRL2(x: Pair, k: bv6)
    ensures At(OnRL(2, x), k) == At(x, FromRL(k, 2))
  {
    hide Bit, PermA2, PermB2;
    var i := Low(k) & 29;
    Places2(k);
    Moved2(x.r, x.l, i);
    Kept2(x.r, x.l, i);
  }

  lemma Places2(k: bv6)
    ensures Low(k) & 2 == 0 <==> k & 2 == 0
    ensures Low(k) == if k & 2 == 0 then Low(k) & 29 else (Low(k) & 29) + 2
    ensures Low(k ^ (32 | 2)) == if k & 2 == 0 then (Low(k) & 29) + 2 else Low(k) & 29
    ensures (Low(k) & 29) & 2 == 0 && ((k ^ (32 | 2)) & 32 == 0 <==> k & 32 != 0)
  {
  }

  lemma OnLR8(x: Pair, k: bv6)
    ensures At(OnLR(8, x), k) == At(x, FromLR(k, 8))
  {
    hide Bit, PermA8, PermB8;
    var i := Low(k) & 23;
    Places8(k);
    Moved8(x.l, x.r, i);
    Kept8(x.l, x.r, i);
  }

  lemma Places8(k: bv6)
    ensures Low(k) & 8 == 0 <==> k & 8 == 0
    ensures Low(k) == if k & 8 == 0 then Low(k) & 23 else (Low(k) & 23) + 8
    ensures Low(k ^ (32 | 8)) == if k & 8 == 0 then (Low(k) & 23) + 8 else Low(k) & 23
    ensures (Low(k) & 23) & 8 == 0 && ((k ^ (32 | 8)) & 32 == 0 <==> k & 32 != 0)
  {
  }

  lemma OnRL1(x: Pair, k: bv6)
    ensures At(OnRL(1, x), k) == At(x, FromRL(k, 1))
  {
    hide Bit, PermA1, PermB1;
    var i := Low(k) & 30;
    Places1(k);
    Moved1(x.r, x.l, i);
    Kept1(x.r, x.l, i);
  }

  lemma Places1(k: bv6)
    ensures Low(k) & 1 == 0 <==> k & 1 == 0
    ensures Low(k) == if k & 1 == 0 then Low(k) & 30 else (Low(k) & 30) + 1
    ensures Low(k ^ (32 | 1)) == if k & 1 == 0 then (Low(k) & 30) + 1 else Low(k) & 30
    ensures (Low(k) & 30) & 1 == 0 && ((k ^ (32 | 1)) & 32 == 0 <==> k & 32 != 0)
  {
  }

  /** Bit n of the block, counted from 1 at the left of its first octet, 64 being 0 here. */
  function BlockBit(x: Pair, n: bv6): bool {
    At(x, (n - 1) ^ 7)
  }

  lemma RotatedIn(x: Pair, q: bv5)
    ensures Bit(RotateIn(x).l, q + 1) == Bit(x.r, q) && Bit(RotateIn(x).r, q + 1) == Bit(x.l, q)
  {
    hide Bit, Left1;
    RotatedBit(x.l, q);
    RotatedBit(x.r, q);
  }

  lemma RotatedBit(a: bv32, q: bv5)
    ensures Bit(Left1(a), q + 1) == Bit(a, q)
  {
  }

  /** The initial permutation: of bits 1 .. 32 of each half, four rows of eight, bit n is number 58 or 57, less 8 for
      each place in its row, and 2 more for each row (and so on, as the table of the standard says). Bit n stands at
      place n. */
  lemma IpBits(x: Pair, q: bv5)
    ensures var p := RotateIn(Ip(x)); var row, place := (q >> 3) as bv6, (q & 7) as bv6;
            Bit(p.l, q + 1) == BlockBit(x, 58 - 8 * place + 2 * row) &&
            Bit(p.r, q + 1) == BlockBit(x, 57 - 8 * place + 2 * row)
  {
    hide Bit, OnRL, OnLR, RotateIn;
    RotatedIn(Ip(x), q);
    IpPath(x, (q as bv6) | 32);
    IpPath(x, q as bv6);
    IpPlaces(q);
  }

  /** Where the bit at place k comes from. */
  function IpFrom(k: bv6): bv6 {
    FromRL(FromLR(FromRL(FromLR(FromRL(k, 1), 8), 2), 16), 4)
  }

  lemma IpPath(x: Pair, k: bv6)
    ensures At(Ip(x), k) == At(x, IpFrom(k))
  {
    hide At, OnRL, OnLR, FromRL, FromLR;
    var a := OnRL(4, x);
    var b := OnLR(16, a);
    var c := OnRL(2, b);
    var d := OnLR(8, c);
    OnRL1(d, k);
    OnLR8(c, FromRL(k, 1));
    OnRL2(b, FromLR(FromRL(k, 1), 8));
    OnLR16(a, FromRL(FromLR(FromRL(k, 1), 8), 2));
    OnRL4(x, FromLR(FromRL(FromLR(FromRL(k, 1), 8), 2), 16));
  }

  lemma IpPlaces(q: bv5)
    ensures var row, place := (q >> 3) as bv6, (q & 7) as bv6;
            IpFrom((q as bv6) | 32) == (58 - 8 * place + 2 * row - 1) ^ 7
              && IpFrom(q as bv6) == (57 - 8 * place + 2 * row - 1) ^ 7
    ensures Low((q as bv6) | 32) == q && Low(q as bv6) == q && ((q as bv6) | 32) & 32 != 0 && (q as bv6) & 32 == 0
  {
  }

  /** The octets of a block stand one after the other. */
  lemma OctetBits(a: bv8, b: bv8, c: bv8, d: bv8, j: bv5)
    requires j < 8
    ensures Bit(Word4(a, b, c, d), j) == Bit(a as bv32, j) && Bit(Word4(a, b, c, d), 8 + j) == Bit(b as bv32, j)
    ensures Bit(Word4(a, b, c, d), 16 + j) == Bit(c as bv32, j) && Bit(Word4(a, b, c, d), 24 + j) == Bit(d as bv32, j)
  {
  }

  // ----- the expansion and the rounds

  /** Six bits of a word from place 4n on, round its end. */
  function Group(n: nat, y: bv32): bv6 {
    if n == 0 then Six(y)
    else if n == 1 then Six((y >> 4) | (y << 28))
    else if n == 2 then Six((y >> 8) | (y << 24))
    else if n == 3 then Six((y >> 12) | (y << 20))
    else if n == 4 then Six((y >> 16) | (y << 16))
    else if n == 5 then Six((y >> 20) | (y << 12))
    else if n == 6 then Six((y >> 24) | (y << 8))
    else Six((y >> 28) | (y << 4))
  }

  lemma Group0(y: bv32, j: bv5)
    requires j < 6
    ensures Bit(Group(0, y) as bv32, j) == Bit(y, 0 + j)
  {
  }

  lemma Group1(y: bv32, j: bv5)
    requires j < 6
    ensures Bit(Group(1, y) as bv32, j) == Bit(y, 4 + j)
  {
  }

  lemma Group2(y: bv32, j: bv5)
    requires j < 6
    ensures Bit(Group(2, y) as bv32, j) == Bit(y, 8 + j)
  {
  }

  lemma Group3(y: bv32, j: bv5)
    requires j < 6
    ensures Bit(Group(3, y) as bv32, j) == Bit(y, 12 + j)
  {
  }

  lemma Group4(y: bv32, j: bv5)
    requires j < 6
    ensures Bit(Group(4, y) as bv32, j) == Bit(y, 16 + j)
  {
  }

  lemma Group5(y: bv32, j: bv5)
    requires j < 6
    ensures Bit(Group(5, y) as bv32, j) == Bit(y, 20 + j)
  {
  }

  lemma Group6(y: bv32, j: bv5)
    requires j < 6
    ensures Bit(Group(6, y) as bv32, j) == Bit(y, 24 + j)
  {
  }

  lemma Group7(y: bv32, j: bv5)
    requires j < 6
    ensures Bit(Group(7, y) as bv32, j) == Bit(y, 28 + j)
  {
  }

  /** The selection E: bit j of the n-th group of six is bit 4n + j of the half block, so that each group shares two
      bits with its neighbours. */
  lemma GroupBits(n: nat, y: bv32, j: bv5)
    requires n < 8 && j < 6
    ensures Bit(Group(n, y) as bv32, j) == Bit(y, (4 * n) as bv5 + j)
  {
    hide Bit, Group;
    if n == 0 { Group0(y, j); } else if n == 1 { Group1(y, j); } else if n == 2 { Group2(y, j); }
    else if n == 3 { Group3(y, j); } else if n == 4 { Group4(y, j); } else if n == 5 { Group5(y, j); }
    else if n == 6 { Group6(y, j); } else { Group7(y, j); }
  }

  /** What D_ENCRYPT xors in: every box looks up its group of the half block xored with the first key word, or with the
      second one for the odd boxes. */
  lemma FGroups(sp: Table, x: bv32, k0: bv32, k1: bv32)
    ensures F(sp, x, k0, k1) ==
            Or8(sp(1, Group(1, Xor(x, k1))), sp(3, Group(3, Xor(x, k1))), sp(5, Group(5, Xor(x, k1))),
                sp(7, Group(7, Xor(x, k1))), sp(0, Group(0, Xor(x, k0))), sp(2, Group(2, Xor(x, k0))),
                sp(4, Group(4, Xor(x, k0))), sp(6, Group(6, Xor(x, k0))))
  {
    hide Xor, Six, Six8, Six16, Six24, Turn4, Group, Or8;
    EvenGroups(Xor(x, k0));
    OddGroups(Xor(x, k1));
  }

  lemma EvenGroups(u: bv32)
    ensures Six(u) == Group(0, u) && Six8(u) == Group(2, u) && Six16(u) == Group(4, u) && Six24(u) == Group(6, u)
  {
    Even8(u); Even16(u); Even24(u);
    hide Six, Six8, Six16, Six24;
  }

  lemma Even8(u: bv32) ensures Six8(u) == Six((u >> 8) | (u << 24)) {}
  lemma Even16(u: bv32) ensures Six16(u) == Six((u >> 16) | (u << 16)) {}
  lemma Even24(u: bv32) ensures Six24(u) == Six((u >> 24) | (u << 8)) {}

  lemma OddGroups(v: bv32)
    ensures Six(Turn4(v)) == Group(1, v) && Six8(Turn4(v)) == Group(3, v)
    ensures Six16(Turn4(v)) == Group(5, v) && Six24(Turn4(v)) == Group(7, v)
  {
    Odd0(v); Odd8(v); Odd16(v); Odd24(v);
    hide Six, Six8, Six16, Six24, Turn4;
  }

  lemma Odd0(v: bv32) ensures Six(Turn4(v)) == Six((v >> 4) | (v << 28)) {}
  lemma Odd8(v: bv32) ensures Six8(Turn4(v)) == Six((v >> 12) | (v << 20)) {}
  lemma Odd16(v: bv32) ensures Six16(Turn4(v)) == Six((v >> 20) | (v << 12)) {}
  lemma Odd24(v: bv32) ensures Six24(Turn4(v)) == Six((v >> 28) | (v << 4)) {}

  /** With a table that is zero outside one box, that box's entry for its group. */
  lemma OneBox(sp: Table, n: nat, x: bv32, k0: bv32, k1: bv32)
    requires n < 8 && forall m, i | m != n :: sp(m, i) == 0
    ensures F(sp, x, k0, k1) == sp(n, Group(n, Xor(x, if n % 2 == 0 then k0 else k1)))
  {
    hide Xor, Group, F, Or8;
    FGroups(sp, x, k0, k1);
    OnlyOne(sp(n, Group(n, Xor(x, if n % 2 == 0 then k0 else k1))));
  }

  lemma OnlyOne(a: bv32)
    ensures Or8(a, 0, 0, 0, 0, 0, 0, 0) == a && Or8(0, a, 0, 0, 0, 0, 0, 0) == a && Or8(0, 0, a, 0, 0, 0, 0, 0) == a
    ensures Or8(0, 0, 0, a, 0, 0, 0, 0) == a && Or8(0, 0, 0, 0, a, 0, 0, 0) == a && Or8(0, 0, 0, 0, 0, a, 0, 0) == a
    ensures Or8(0, 0, 0, 0, 0, 0, a, 0) == a && Or8(0, 0, 0, 0, 0, 0, 0, a) == a
  {
  }

  /** Round i of the standard: the halves change places, and one is xored with the function of the other under the
      i-th pair of key words. */
  function Round(sp: Table, s: Schedule, x: Pair, i: nat): Pair
    requires i < 16
  {
    Pair(x.r, Xor(x.l, F(sp, x.r, s[2 * i], s[2 * i + 1])))
  }

  /** Rounds 0 .. n-1. */
  function Forward(sp: Table, s: Schedule, x: Pair, n: nat): Pair
    requires n <= 16
  {
    if n == 0 then x else Round(sp, s, Forward(sp, s, x, n - 1), n - 1)
  }

  /** The same with the key words in reverse order. */
  function Backward(sp: Table, s: Schedule, x: Pair, n: nat): Pair
    requires n <= 16
  {
    if n == 0 then x else Round(sp, s, Backward(sp, s, x, n - 1), 16 - n)
  }

  lemma TwoRounds(sp: Table, s: Schedule, y: Pair, i: nat, j: nat)
    requires i < 16 && j < 16
    ensures Round(sp, s, Round(sp, s, y, i), j) == StepR(sp, s, StepL(sp, s, y, 2 * i), 2 * j)
  {
    hide F, Xor;
  }

  /** The loops of perl_des_crypt run the sixteen rounds of the standard, the keys in order or in reverse. */
  lemma {:induction false} EncIsRounds(sp: Table, s: Schedule, x: Pair, n: nat)
    requires n <= 8
    ensures Enc(sp, s, x, n) == Forward(sp, s, x, 2 * n)
  {
    hide Round, StepL, StepR;
    if n > 0 {
      EncIsRounds(sp, s, x, n - 1);
      TwoRounds(sp, s, Enc(sp, s, x, n - 1), 2 * n - 2, 2 * n - 1);
      assert Forward(sp, s, x, 2 * n - 1) == Round(sp, s, Forward(sp, s, x, 2 * n - 2), 2 * n - 2);
    }
  }

  lemma {:induction false} DecIsRounds(sp: Table, s: Schedule, x: Pair, n: nat)
    requires n <= 8
    ensures Dec(sp, s, x, 8) == Dec(sp, s, Backward(sp, s, x, 2 * n), 8 - n)
  {
    hide Round, StepL, StepR;
    if n > 0 {
      DecIsRounds(sp, s, x, n - 1);
      var y := Backward(sp, s, x, 2 * n - 2);
      assert Backward(sp, s, x, 2 * n - 1) == Round(sp, s, y, 17 - 2 * n);
      TwoRounds(sp, s, y, 17 - 2 * n, 16 - 2 * n);
      assert Dec(sp, s, y, 9 - n) == Dec(sp, s, StepR(sp, s, StepL(sp, s, y, 34 - 4 * n), 32 - 4 * n), 8 - n);
    }
  }

  /** The block function: initial permutation, sixteen rounds, halves exchanged, and the permutation undone; for the
      block that comes out has, permuted, the halves after the rounds in exchanged order. */
  lemma CryptIsDes(sp: Table, s: Schedule, b: Block, encrypt: bool)
    ensures var x := RotateIn(Ip(Unpack(b)));
            RotateIn(Ip(Unpack(Crypt(sp, s, b, encrypt)))) ==
            Swap(if encrypt then Forward(sp, s, x, 16) else Backward(sp, s, x, 16))
  {
    hide Unpack, PackBlock, Ip, Fp, RotateIn, RotateOut, Enc, Dec, Swap, Forward, Backward;
    var x := RotateIn(Ip(Unpack(b)));
    var z := Rounds(sp, s, x, encrypt);
    if encrypt { EncIsRounds(sp, s, x, 8); } else { DecIsRounds(sp, s, x, 8); DecNone(sp, s, Backward(sp, s, x, 16)); }
    PackUnpack(Fp(RotateOut(z)));
    FpIp(RotateOut(z));
    Rotations(z);
  }

  lemma DecNone(sp: Table, s: Schedule, x: Pair)
    ensures Dec(sp, s, x, 0) == x
  {
  }

  // ----- the key schedule

  /** HPERM_OP(a, t, -2, 0xcccc0000) */
  function Hperm(a: bv32): bv32 {
    var t := ((a << 18) ^ a) & 0xcccc0000;
    a ^ t ^ (t >> 18)
  }

  /** It exchanges bits within a word: those at places with 16 and 2 set and those with neither. */
  lemma HpermBit(a: bv32, i: bv5)
    ensures Bit(Hperm(a), i) == Bit(a, if (i & 16 == 0) == (i & 2 == 0) then i ^ 18 else i)
  {
  }

  function FromH(k: bv6): bv6 {
    if (k & 16 == 0) == (k & 2 == 0) then k ^ 18 else k
  }

  lemma OnH(x: Pair, k: bv6)
    ensures At(Pair(Hperm(x.l), Hperm(x.r)), k) == At(x, FromH(k))
  {
    hide Bit, Hperm;
    HpermBit(x.l, Low(k));
    HpermBit(x.r, Low(k));
    HPlaces(k);
  }

  lemma HPlaces(k: bv6)
    ensures Low(FromH(k)) == (if (Low(k) & 16 == 0) == (Low(k) & 2 == 0) then Low(k) ^ 18 else Low(k))
    ensures FromH(k) & 32 == k & 32
  {
  }

  /** The words before the registers are cut out of them. */
  function Pc1Words(c: bv32, d: bv32): Pair {
    var x := OnRL(4, Pair(c, d));
    OnRL(1, OnLR(8, OnRL(1, Pair(Hperm(x.l), Hperm(x.r)))))
  }

  function RegisterC(y: bv32): bv32 { y & 0x0fffffff }

  function RegisterD(y: bv32, x: bv32): bv32 {
    ((x & 0x000000ff) << 16) | (x & 0x0000ff00) | ((x & 0x00ff0000) >> 16) | ((y & 0xf0000000) >> 4)
  }

  lemma Pc1Steps(c: bv32, d: bv32)
    ensures var p := Pc1Words(c, d); Pc1(c, d) == (RegisterC(p.l), RegisterD(p.l, p.r))
  {
  }

  lemma Pc1Path(x: Pair, k: bv6)
    ensures At(Pc1Words(x.l, x.r), k) == At(x, Pc1From(k))
  {
    hide At, OnRL, OnLR, FromRL, FromLR, FromH, Hperm;
    var a := OnRL(4, x);
    var b := Pair(Hperm(a.l), Hperm(a.r));
    var c := OnRL(1, b);
    var d := OnLR(8, c);
    OnRL1(d, k);
    OnLR8(c, FromRL(k, 1));
    OnRL1(b, FromLR(FromRL(k, 1), 8));
    OnH(a, FromRL(FromLR(FromRL(k, 1), 8), 1));
    OnRL4(x, FromH(FromRL(FromLR(FromRL(k, 1), 8), 1)));
    assert x == Pair(x.l, x.r);
  }

  function Pc1From(k: bv6): bv6 {
    FromRL(FromH(FromRL(FromLR(FromRL(k, 1), 8), 1)), 4)
  }

  lemma RegisterBits(y: bv32, x: bv32, q: bv5)
    ensures Bit(RegisterC(y), q) == (q < 28 && Bit(y, q))
    ensures Bit(RegisterD(y, x), q) ==
            if q < 8 then Bit(x, q + 16) else if q < 16 then Bit(x, q) else if q < 24 then Bit(x, q - 16)
            else q < 28 && Bit(y, q + 4)
  {
  }

  /** Permuted choice 1: row by row, bit n of the key is number 57 or 63, less 8 for each place in its row, and one
      more or one less for each row; the last four are numbers 28, 20, 12 and 4. */
  lemma Pc1Bits(x: Pair, q: bv5)
    requires q < 28
    ensures var r := Pc1(x.l, x.r); var row, place := (q >> 3) as bv6, (q & 7) as bv6;
            Bit(r.0, q) == BlockBit(x, 57 - 8 * place + row) &&
            Bit(r.1, q) == BlockBit(x, if q < 24 then 63 - 8 * place - row else 28 - 8 * place)
  {
    hide Bit, Pc1, RegisterC, RegisterD, Pc1Words, Pc1From;
    var p := Pc1Words(x.l, x.r);
    Pc1Steps(x.l, x.r);
    RegisterBits(p.l, p.r, q);
    var k := DFrom(q);
    Pc1Path(x, q as bv6);
    Pc1Path(x, k);
    Pc1Places(q);
  }

  /** Which place of the words place q of register d is taken from. */
  function DFrom(q: bv5): bv6 {
    if q < 8 then (q as bv6) + 48 else if q < 16 then (q as bv6) + 32 else if q < 24 then (q as bv6) + 16
      else (q as bv6) + 4
  }

  lemma Pc1Places(q: bv5)
    requires q < 28
    ensures var row, place := (q >> 3) as bv6, (q & 7) as bv6;
            Pc1From(q as bv6) == (57 - 8 * place + row - 1) ^ 7 &&
            Pc1From(DFrom(q)) == ((if q < 24 then 63 - 8 * place - row else 28 - 8 * place) - 1) ^ 7
    ensures Low(q as bv6) == q && (q as bv6) & 32 == 0 && (DFrom(q) & 32 == 0 <==> q >= 24)
    ensures Low(DFrom(q)) == if q < 8 then q + 16 else if q < 16 then q else if q < 24 then q - 16 else q + 4
  {
  }

  /** Both registers have 28 bits. */
  lemma Pc1Short(c: bv32, d: bv32)
    ensures Short(Pc1(c, d).0) && Short(Pc1(c, d).1)
  {
    hide Pc1Words, Pc1, Short, RegisterC, RegisterD;
    Pc1Steps(c, d);
    var p := Pc1Words(c, d);
    RegistersShort(p.l, p.r);
  }

  predicate Short(x: bv32) { x & 0xf0000000 == 0 }

  lemma RegistersShort(y: bv32, x: bv32)
    ensures Short(RegisterC(y)) && Short(RegisterD(y, x))
  {
  }

  /** A register turned left by one bit, t times; its first bit stands at place 0. */
  function Turned(x: bv32, t: nat): bv32 {
    if t == 0 then x else Turn(Turned(x, t - 1), false)
  }

  lemma TurnBits(x: bv32, q: bv5)
    requires Short(x)
    ensures Bit(Turn(x, false), q) == if q < 27 then Bit(x, q + 1) else q == 27 && Bit(x, 0)
    ensures Short(Turn(x, false))
  {
  }

  lemma TurnTwice(x: bv32)
    requires Short(x)
    ensures Turn(x, true) == Turn(Turn(x, false), false)
  {
  }

  lemma {:induction false} TurnedShort(x: bv32, t: nat)
    requires Short(x)
    ensures Short(Turned(x, t))
  {
    hide Short, Turn;
    if t > 0 {
      TurnedShort(x, t - 1);
      TurnBits(Turned(x, t - 1), 0);
    }
  }

  /** By how many bits the registers are turned in all when the key of round i is taken from them. */
  function Total(i: nat): nat
    requires i < 16
  {
    [1, 2, 4, 6, 8, 10, 12, 14, 15, 17, 19, 21, 23, 25, 27, 28][i]
  }

  /** Before round i. */
  function Before(i: nat): nat
    requires i <= 16
  {
    if i == 0 then 0 else Total(i - 1)
  }

  lemma TurnsTotal(x: bv32, i: nat)
    requires i < 16 && Short(x)
    ensures Turn(Turned(x, Before(i)), SHIFTS2[i]) == Turned(x, Total(i))
  {
    hide Short, Turn;
    var y := Turned(x, Before(i));
    TurnedShort(x, Before(i));
    TurnTwice(y);
    assert Total(i) == Before(i) + if SHIFTS2[i] then 2 else 1;
  }

  /** The schedule words from round i on, for the registers c and d before all rounds. */
  function Tail(skb: Table, c: bv32, d: bv32, i: nat): (r: seq<bv32>)
    requires i <= 16
    ensures |r| == 2 * (16 - i)
  {
    KeysFrom(skb, Turned(c, Before(i)), Turned(d, Before(i)), i)
  }

  /** The key words of round i. */
  function KeyOf(skb: Table, c: bv32, d: bv32, i: nat): (bv32, bv32)
    requires i < 16
  {
    RoundKey(skb, Turned(c, Total(i)), Turned(d, Total(i)))
  }

  lemma TailStep(skb: Table, c: bv32, d: bv32, i: nat)
    requires i < 16 && Short(c) && Short(d)
    ensures Tail(skb, c, d, i) == Two(KeyOf(skb, c, d, i)) + Tail(skb, c, d, i + 1)
  {
    hide Short, Turn, Turned, RoundKey, Two, Total;
    TurnsTotal(c, i);
    TurnsTotal(d, i);
  }

  lemma {:induction false} TailAt(skb: Table, c: bv32, d: bv32, i: nat, j: nat)
    requires i <= j < 16 && Short(c) && Short(d)
    ensures var s, n := Tail(skb, c, d, i), 2 * (j - i); (s[n], s[n + 1]) == KeyOf(skb, c, d, j)
    decreases j - i
  {
    hide Short, Tail, KeyOf;
    TailStep(skb, c, d, i);
    if i < j {
      TailAt(skb, c, d, i + 1, j);
    }
  }

  /** The key words of round i are taken from the registers of permuted choice 1, both turned by the total of the
      standard. */
  lemma ScheduleAt(skb: Table, key: Block, i: nat)
    requires i < 16
    ensures var (c, d) := Pc1(C2L(key, 0), C2L(key, 4)); var s := KeySchedule(skb, key);
            (s[2 * i], s[2 * i + 1]) == RoundKey(skb, Turned(c, Total(i)), Turned(d, Total(i)))
  {
    hide Pc1, RoundKey, C2L, KeysFrom, Short, Total;
    var (c, d) := Pc1(C2L(key, 0), C2L(key, 4));
    Pc1Short(C2L(key, 0), C2L(key, 4));
    TailAt(skb, c, d, 0, i);
  }

  /** Six bits of a register for each of eight tables. */
  function Choice(n: nat, x: bv32): bv6 {
    if n == 0 || n == 4 then Six(x)
    else if n == 1 then PickC1(x)
    else if n == 2 then PickC2(x)
    else if n == 3 then PickC3(x)
    else if n == 5 then PickD1(x)
    else if n == 6 then PickD2(x)
    else PickD3(x)
  }

  /** The bits of the registers that the n-th table is asked with. All but 9, 18, 22 and 25 of the first register and
      7, 10, 15 and 26 of the second, counted from 1: those are the ones permuted choice 2 leaves out. */
  function Chosen(n: nat): (r: seq<bv5>)
    ensures |r| == 6
  {
    if n == 0 || n == 4 then [0, 1, 2, 3, 4, 5]
    else if n == 1 then [6, 7, 9, 10, 11, 12]
    else if n == 2 then [13, 14, 15, 16, 18, 19]
    else if n == 3 then [20, 22, 23, 25, 26, 27]
    else if n == 5 then [7, 8, 10, 11, 12, 13]
    else if n == 6 then [15, 16, 17, 18, 19, 20]
    else [21, 22, 23, 24, 26, 27]
  }

  /** Six bits with the first one at place 0. */
  predicate SixBits(x: bv6, a: bool, b: bool, c: bool, d: bool, e: bool, f: bool) {
    Bit(x as bv32, 0) == a && Bit(x as bv32, 1) == b && Bit(x as bv32, 2) == c && Bit(x as bv32, 3) == d &&
    Bit(x as bv32, 4) == e && Bit(x as bv32, 5) == f
  }

  lemma ChoiceBits(n: nat, x: bv32)
    requires n < 8
    ensures var p := Chosen(n);
            SixBits(Choice(n, x), Bit(x, p[0]), Bit(x, p[1]), Bit(x, p[2]), Bit(x, p[3]), Bit(x, p[4]), Bit(x, p[5]))
  {
    hide Bit, SixBits, Six, PickC1, PickC2, PickC3, PickD1, PickD2, PickD3;
    if n == 0 || n == 4 { Six0Bits(x); }
    else if n == 1 { C1Bits(x); }
    else if n == 2 { C2Bits(x); }
    else if n == 3 { C3Bits(x); }
    else if n == 5 { D1Bits(x); }
    else if n == 6 { D2Bits(x); }
    else { D3Bits(x); }
  }

  lemma Six0Bits(x: bv32)
    ensures SixBits(Six(x), Bit(x, 0), Bit(x, 1), Bit(x, 2), Bit(x, 3), Bit(x, 4), Bit(x, 5))
  {
  }

  lemma C1Bits(x: bv32)
    ensures SixBits(PickC1(x), Bit(x, 6), Bit(x, 7), Bit(x, 9), Bit(x, 10), Bit(x, 11), Bit(x, 12))
  {
  }

  lemma C2Bits(x: bv32)
    ensures SixBits(PickC2(x), Bit(x, 13), Bit(x, 14), Bit(x, 15), Bit(x, 16), Bit(x, 18), Bit(x, 19))
  {
  }

  lemma C3Bits(x: bv32)
    ensures SixBits(PickC3(x), Bit(x, 20), Bit(x, 22), Bit(x, 23), Bit(x, 25), Bit(x, 26), Bit(x, 27))
  {
  }

  lemma D1Bits(x: bv32)
    ensures SixBits(PickD1(x), Bit(x, 7), Bit(x, 8), Bit(x, 10), Bit(x, 11), Bit(x, 12), Bit(x, 13))
  {
  }

  lemma D2Bits(x: bv32)
    ensures SixBits(PickD2(x), Bit(x, 15), Bit(x, 16), Bit(x, 17), Bit(x, 18), Bit(x, 19), Bit(x, 20))
  {
  }

  lemma D3Bits(x: bv32)
    ensures SixBits(PickD3(x), Bit(x, 21), Bit(x, 22), Bit(x, 23), Bit(x, 24), Bit(x, 26), Bit(x, 27))
  {
  }

  /** The key words of a round: what four tables find for the first register and four for the second, the low halves
      in the first word, the high halves in the second one, turned by four. */
  lemma RoundKeyBits(skb: Table, c: bv32, d: bv32, j: bv5)
    requires j < 16
    ensures var s := Or4(skb(0, Choice(0, c)), skb(1, Choice(1, c)), skb(2, Choice(2, c)), skb(3, Choice(3, c)));
            var t := Or4(skb(4, Choice(4, d)), skb(5, Choice(5, d)), skb(6, Choice(6, d)), skb(7, Choice(7, d)));
            var k := RoundKey(skb, c, d);
            Bit(k.0, j) == Bit(s, j) && Bit(k.0, 16 + j) == Bit(t, j) &&
            Bit(k.1, 4 + j) == Bit(s, 16 + j) && Bit(k.1, 20 + j) == Bit(t, 16 + j)
  {
    hide Bit, Or4, Six, PickC1, PickC2, PickC3, PickD1, PickD2, PickD3, FirstWord, SecondWord;
    var s := Or4(skb(0, Choice(0, c)), skb(1, Choice(1, c)), skb(2, Choice(2, c)), skb(3, Choice(3, c)));
    var t := Or4(skb(4, Choice(4, d)), skb(5, Choice(5, d)), skb(6, Choice(6, d)), skb(7, Choice(7, d)));
    WordBits(s, t, j);
  }

  lemma WordBits(s: bv32, t: bv32, j: bv5)
    requires j < 16
    ensures Bit(FirstWord(s, t), j) == Bit(s, j) && Bit(FirstWord(s, t), 16 + j) == Bit(t, j)
    ensures Bit(SecondWord(s, t), 4 + j) == Bit(s, 16 + j) && Bit(SecondWord(s, t), 20 + j) == Bit(t, 16 + j)
  {
  }

  /** The words are joined bit by bit. */
  lemma JoinBits(a: bv32, b: bv32, c: bv32, d: bv32, i: bv5)
    ensures Bit(Or4(a, b, c, d), i) <==> Bit(a, i) || Bit(b, i) || Bit(c, i) || Bit(d, i)
  {
    hide Bit, Or;
    OrBit(a, b, i);
    OrBit(Or(a, b), c, i);
    OrBit(Or(Or(a, b), c), d, i);
  }

  lemma OrBit(a: bv32, b: bv32, i: bv5)
    ensures Bit(Or(a, b), i) <==> Bit(a, i) || Bit(b, i)
  {
  }

  lemma XorBit(a: bv32, b: bv32, i: bv5)
    ensures Bit(Xor(a, b), i) <==> Bit(a, i) != Bit(b, i)
  {
    assert Xor(a, b) == a ^ b;
    hide Bit, Xor;
    BitOfXor(a, b, i);
  }

  lemma BitOfXor(a: bv32, b: bv32, i: bv5)
    ensures Bit(a ^ b, i) <==> Bit(a, i) != Bit(b, i)
  {
  }

  lemma Join8Bits(a: bv32, b: bv32, c: bv32, d: bv32, e: bv32, f: bv32, g: bv32, h: bv32, i: bv5)
    ensures Bit(Or8(a, b, c, d, e, f, g, h), i) <==>
            Bit(a, i) || Bit(b, i) || Bit(c, i) || Bit(d, i) || Bit(e, i) || Bit(f, i) || Bit(g, i) || Bit(h, i)
  {
    hide Bit, Or;
    JoinBits(a, b, c, d, i);
    var x := Or4(a, b, c, d);
    OrBit(x, e, i);
    OrBit(Or(x, e), f, i);
    OrBit(Or(Or(x, e), f), g, i);
    OrBit(Or(Or(Or(x, e), f), g), h, i);
  }
}
