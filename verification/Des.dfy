/** The DES block function of Crypt-DES; unsigned longs hold 32-bit values throughout. */
module Des {

  /** The two half blocks. */
  datatype Pair = Pair(l: bv32, r: bv32)

  type Schedule = s: seq<bv32> | |s| == 32 witness seq(32, _ => 0)
  type Block = b: seq<bv8> | |b| == 8 witness seq(8, _ => 0)

  // ----- bit-swap permutations

  /** PERM_OP(a, b, t, n, m): the new a and the new b, for the five shifts used, each with its own mask. */
  function PermOp(n: nat, a: bv32, b: bv32): (bv32, bv32)
  {
    if n == 4 then (PermA4(a, b), PermB4(a, b))
    else if n == 16 then (PermA16(a, b), PermB16(a, b))
    else if n == 2 then (PermA2(a, b), PermB2(a, b))
    else if n == 8 then (PermA8(a, b), PermB8(a, b))
    else (PermA1(a, b), PermB1(a, b))
  }

  function PermA4(a: bv32, b: bv32): bv32 { a ^ ((((a >> 4) ^ b) & 0x0f0f0f0f) << 4) }
  function PermB4(a: bv32, b: bv32): bv32 { b ^ (((a >> 4) ^ b) & 0x0f0f0f0f) }

  lemma Swapped4(a: bv32, b: bv32, c: bv32, d: bv32)
    requires c == a ^ ((((a >> 4) ^ b) & 0x0f0f0f0f) << 4) && d == b ^ (((a >> 4) ^ b) & 0x0f0f0f0f)
    ensures c ^ ((((c >> 4) ^ d) & 0x0f0f0f0f) << 4) == a && d ^ (((c >> 4) ^ d) & 0x0f0f0f0f) == b
  {
  }

  lemma Involution4(a: bv32, b: bv32, c: bv32, d: bv32)
    requires c == PermA4(a, b) && d == PermB4(a, b)
    ensures PermA4(c, d) == a && PermB4(c, d) == b
  {
    Swapped4(a, b, c, d);
  }

  function PermA16(a: bv32, b: bv32): bv32 { a ^ ((((a >> 16) ^ b) & 0x0000ffff) << 16) }
  function PermB16(a: bv32, b: bv32): bv32 { b ^ (((a >> 16) ^ b) & 0x0000ffff) }

  lemma Swapped16(a: bv32, b: bv32, c: bv32, d: bv32)
    requires c == a ^ ((((a >> 16) ^ b) & 0x0000ffff) << 16) && d == b ^ (((a >> 16) ^ b) & 0x0000ffff)
    ensures c ^ ((((c >> 16) ^ d) & 0x0000ffff) << 16) == a && d ^ (((c >> 16) ^ d) & 0x0000ffff) == b
  {
  }

  lemma Involution16(a: bv32, b: bv32, c: bv32, d: bv32)
    requires c == PermA16(a, b) && d == PermB16(a, b)
    ensures PermA16(c, d) == a && PermB16(c, d) == b
  {
    Swapped16(a, b, c, d);
  }

  function PermA2(a: bv32, b: bv32): bv32 { a ^ ((((a >> 2) ^ b) & 0x33333333) << 2) }
  function PermB2(a: bv32, b: bv32): bv32 { b ^ (((a >> 2) ^ b) & 0x33333333) }

  lemma Swapped2(a: bv32, b: bv32, c: bv32, d: bv32)
    requires c == a ^ ((((a >> 2) ^ b) & 0x33333333) << 2) && d == b ^ (((a >> 2) ^ b) & 0x33333333)
    ensures c ^ ((((c >> 2) ^ d) & 0x33333333) << 2) == a && d ^ (((c >> 2) ^ d) & 0x33333333) == b
  {
  }

  lemma Involution2(a: bv32, b: bv32, c: bv32, d: bv32)
    requires c == PermA2(a, b) && d == PermB2(a, b)
    ensures PermA2(c, d) == a && PermB2(c, d) == b
  {
    Swapped2(a, b, c, d);
  }

  function PermA8(a: bv32, b: bv32): bv32 { a ^ ((((a >> 8) ^ b) & 0x00ff00ff) << 8) }
  function PermB8(a: bv32, b: bv32): bv32 { b ^ (((a >> 8) ^ b) & 0x00ff00ff) }

  lemma Swapped8(a: bv32, b: bv32, c: bv32, d: bv32)
    requires c == a ^ ((((a >> 8) ^ b) & 0x00ff00ff) << 8) && d == b ^ (((a >> 8) ^ b) & 0x00ff00ff)
    ensures c ^ ((((c >> 8) ^ d) & 0x00ff00ff) << 8) == a && d ^ (((c >> 8) ^ d) & 0x00ff00ff) == b
  {
  }

  lemma Involution8(a: bv32, b: bv32, c: bv32, d: bv32)
    requires c == PermA8(a, b) && d == PermB8(a, b)
    ensures PermA8(c, d) == a && PermB8(c, d) == b
  {
    Swapped8(a, b, c, d);
  }

  function PermA1(a: bv32, b: bv32): bv32 { a ^ ((((a >> 1) ^ b) & 0x55555555) << 1) }
  function PermB1(a: bv32, b: bv32): bv32 { b ^ (((a >> 1) ^ b) & 0x55555555) }

  lemma Swapped1(a: bv32, b: bv32, c: bv32, d: bv32)
    requires c == a ^ ((((a >> 1) ^ b) & 0x55555555) << 1) && d == b ^ (((a >> 1) ^ b) & 0x55555555)
    ensures c ^ ((((c >> 1) ^ d) & 0x55555555) << 1) == a && d ^ (((c >> 1) ^ d) & 0x55555555) == b
  {
  }

  lemma Involution1(a: bv32, b: bv32, c: bv32, d: bv32)
    requires c == PermA1(a, b) && d == PermB1(a, b)
    ensures PermA1(c, d) == a && PermB1(c, d) == b
  {
    Swapped1(a, b, c, d);
  }

  /** Applying a PERM_OP twice changes nothing. */
  lemma PermOpInvolution(n: nat, a: bv32, b: bv32)
    ensures PermOp(n, PermOp(n, a, b).0, PermOp(n, a, b).1) == (a, b)
  {
    hide PermA4, PermB4, PermA16, PermB16, PermA2, PermB2, PermA8, PermB8, PermA1, PermB1;
    Involution4(a, b, PermA4(a, b), PermB4(a, b));
    Involution16(a, b, PermA16(a, b), PermB16(a, b));
    Involution2(a, b, PermA2(a, b), PermB2(a, b));
    Involution8(a, b, PermA8(a, b), PermB8(a, b));
    Involution1(a, b, PermA1(a, b), PermB1(a, b));
  }

  /** PERM_OP(r, l, ...) */
  function OnRL(n: nat, x: Pair): Pair {
    var p := PermOp(n, x.r, x.l);
    Pair(p.1, p.0)
  }

  /** PERM_OP(l, r, ...) */
  function OnLR(n: nat, x: Pair): Pair {
    var p := PermOp(n, x.l, x.r);
    Pair(p.0, p.1)
  }

  function Ip(x: Pair): Pair {
    OnRL(1, OnLR(8, OnRL(2, OnLR(16, OnRL(4, x)))))
  }

  function Fp(x: Pair): Pair {
    OnRL(4, OnLR(16, OnRL(2, OnLR(8, OnRL(1, x)))))
  }

  lemma OnInvolution(n: nat, x: Pair)
    ensures OnRL(n, OnRL(n, x)) == x && OnLR(n, OnLR(n, x)) == x
  {
    hide PermOp;
    PermOpInvolution(n, x.r, x.l);
    PermOpInvolution(n, x.l, x.r);
  }

  /** The final permutation is the inverse of the initial one. */
  lemma FpIp(x: Pair)
    ensures Fp(Ip(x)) == x && Ip(Fp(x)) == x
  {
    hide OnRL, OnLR;
    var a1 := OnRL(4, x);
    var a2 := OnLR(16, a1);
    var a3 := OnRL(2, a2);
    var a4 := OnLR(8, a3);
    OnInvolution(1, a4); OnInvolution(8, a3); OnInvolution(2, a2); OnInvolution(16, a1); OnInvolution(4, x);
    var b1 := OnRL(1, x);
    var b2 := OnLR(8, b1);
    var b3 := OnRL(2, b2);
    var b4 := OnLR(16, b3);
    OnInvolution(4, b4); OnInvolution(16, b3); OnInvolution(2, b2); OnInvolution(8, b1); OnInvolution(1, x);
  }

  // ----- rounds

  /** Any table in the place of des_SPtrans_x. */
  type Table = (nat, bv6) -> bv32

  /** Six bits of a word, from place 0, 8, 16 or 24 on. */
  function Six(x: bv32): bv6 { (x & 0x3f) as bv6 }
  function Six8(x: bv32): bv6 { ((x >> 8) & 0x3f) as bv6 }
  function Six16(x: bv32): bv6 { ((x >> 16) & 0x3f) as bv6 }
  function Six24(x: bv32): bv6 { ((x >> 24) & 0x3f) as bv6 }

  /** t=((t>>4)+(t<<28)) */
  function Turn4(t: bv32): bv32 { (t >> 4) + (t << 28) }

  function Or(a: bv32, b: bv32): bv32 { a | b }

  function Or8(a: bv32, b: bv32, c: bv32, d: bv32, e: bv32, f: bv32, g: bv32, h: bv32): bv32 {
    Or(Or(Or(Or(Or(Or(Or(a, b), c), d), e), f), g), h)
  }

  /** The value D_ENCRYPT xors into the other half. */
  function F(sp: Table, x: bv32, k0: bv32, k1: bv32): bv32
  {
    var u := Xor(x, k0);
    var t := Turn4(Xor(x, k1));
    Or8(sp(1, Six(t)), sp(3, Six8(t)), sp(5, Six16(t)), sp(7, Six24(t)),
        sp(0, Six(u)), sp(2, Six8(u)), sp(4, Six16(u)), sp(6, Six24(u)))
  }

  function Xor(a: bv32, b: bv32): bv32 { a ^ b }

  lemma XorTwice(a: bv32, b: bv32)
    ensures Xor(Xor(a, b), b) == a
  {
    assert (a ^ b) ^ b == a;
  }

  /** D_ENCRYPT(l, r, i) */
  function StepL(sp: Table, s: Schedule, x: Pair, i: nat): Pair
    requires i < 31
  {
    Pair(Xor(x.l, F(sp, x.r, s[i], s[i + 1])), x.r)
  }

  /** D_ENCRYPT(r, l, i) */
  function StepR(sp: Table, s: Schedule, x: Pair, i: nat): Pair
    requires i < 31
  {
    Pair(x.l, Xor(x.r, F(sp, x.l, s[i], s[i + 1])))
  }

  function Swap(x: Pair): Pair { Pair(x.r, x.l) }

  /** The first n double rounds of encryption. */
  function Enc(sp: Table, s: Schedule, x: Pair, n: nat): Pair
    requires n <= 8
  {
    if n == 0 then x
    else StepR(sp, s, StepL(sp, s, Enc(sp, s, x, n - 1), 4 * n - 4), 4 * n - 2)
  }

  /** The last n double rounds of decryption: the schedule is read from pair 2n-1 down to pair 0. */
  function Dec(sp: Table, s: Schedule, x: Pair, n: nat): Pair
    requires n <= 8
    decreases n
  {
    if n == 0 then x
    else Dec(sp, s, StepR(sp, s, StepL(sp, s, x, 4 * n - 2), 4 * n - 4), n - 1)
  }

  /** A decryption double round undoes the encryption one with the halves exchanged, and the other way round. */
  lemma DoubleRound(sp: Table, s: Schedule, x: Pair, n: nat)
    requires 0 < n <= 8
    ensures StepR(sp, s, StepL(sp, s, Swap(StepR(sp, s, StepL(sp, s, x, 4 * n - 4), 4 * n - 2)), 4 * n - 2), 4 * n - 4)
            == Swap(x)
    ensures StepR(sp, s, StepL(sp, s, Swap(StepR(sp, s, StepL(sp, s, x, 4 * n - 2), 4 * n - 4)), 4 * n - 4), 4 * n - 2)
            == Swap(x)
  {
    hide F, Xor;
    var y := StepL(sp, s, x, 4 * n - 4);
    XorTwice(y.r, F(sp, y.l, s[4 * n - 2], s[4 * n - 1]));
    XorTwice(x.l, F(sp, x.r, s[4 * n - 4], s[4 * n - 3]));
    var z := StepL(sp, s, x, 4 * n - 2);
    XorTwice(z.r, F(sp, z.l, s[4 * n - 4], s[4 * n - 3]));
    XorTwice(x.l, F(sp, x.r, s[4 * n - 2], s[4 * n - 1]));
  }

  lemma {:induction false} DecUndoesEnc(sp: Table, s: Schedule, x: Pair, n: nat)
    requires n <= 8
    ensures Dec(sp, s, Swap(Enc(sp, s, x, n)), n) == Swap(x)
  {
    hide StepL, StepR, Swap;
    if n > 0 {
      DoubleRound(sp, s, Enc(sp, s, x, n - 1), n);
      DecUndoesEnc(sp, s, x, n - 1);
    }
  }

  lemma {:induction false} EncUndoesDec(sp: Table, s: Schedule, x: Pair, n: nat)
    requires n <= 8
    ensures Enc(sp, s, Swap(Dec(sp, s, x, n)), n) == Swap(x)
    decreases n
  {
    hide StepL, StepR, Swap;
    if n > 0 {
      var y := StepR(sp, s, StepL(sp, s, x, 4 * n - 2), 4 * n - 4);
      EncUndoesDec(sp, s, y, n - 1);
      DoubleRound(sp, s, x, n);
    }
  }

  // ----- the block function

  /** t=(r<<1)|(r>>31); r=(l<<1)|(l>>31); l=t */
  function RotateIn(x: Pair): Pair {
    Pair(Left1(x.r), Left1(x.l))
  }

  function RotateOut(x: Pair): Pair {
    Pair(Right1(x.l), Right1(x.r))
  }

  function Left1(a: bv32): bv32 { (a << 1) | (a >> 31) }
  function Right1(a: bv32): bv32 { (a >> 1) | (a << 31) }

  lemma Rotations(x: Pair)
    ensures RotateIn(RotateOut(x)) == Swap(x) && RotateOut(Swap(RotateIn(x))) == x
  {
    hide Left1, Right1;
    Rotation(x.l);
    Rotation(x.r);
  }

  lemma Rotation(a: bv32)
    ensures Left1(Right1(a)) == a && Right1(Left1(a)) == a
  {
  }

  function C2L(b: Block, i: nat): bv32
    requires i <= 4
  {
    Word4(b[i], b[i + 1], b[i + 2], b[i + 3])
  }

  function Word4(a: bv8, b: bv8, c: bv8, d: bv8): bv32 {
    (a as bv32) | ((b as bv32) << 8) | ((c as bv32) << 16) | ((d as bv32) << 24)
  }

  function L2C(x: bv32): (r: seq<bv8>)
    ensures |r| == 4
  {
    [(x & 0xff) as bv8, ((x >> 8) & 0xff) as bv8, ((x >> 16) & 0xff) as bv8, ((x >> 24) & 0xff) as bv8]
  }

  function Unpack(b: Block): Pair { Pair(C2L(b, 0), C2L(b, 4)) }

  function PackBlock(x: Pair): Block { L2C(x.l) + L2C(x.r) }

  lemma WordRoundTrip(x: bv32)
    ensures ((x & 0xff) as bv8) as bv32 | (((((x >> 8) & 0xff) as bv8) as bv32) << 8)
            | (((((x >> 16) & 0xff) as bv8) as bv32) << 16) | (((((x >> 24) & 0xff) as bv8) as bv32) << 24) == x
  {
  }

  lemma BytesWord(a: bv8, b: bv8, c: bv8, d: bv8)
    ensures
      var x := (a as bv32) | ((b as bv32) << 8) | ((c as bv32) << 16) | ((d as bv32) << 24);
      (x & 0xff) as bv8 == a && ((x >> 8) & 0xff) as bv8 == b && ((x >> 16) & 0xff) as bv8 == c
        && ((x >> 24) & 0xff) as bv8 == d
  {
  }

  /** Loading and storing a block are inverse. */
  lemma PackUnpack(x: Pair)
    ensures Unpack(PackBlock(x)) == x
  {
    WordRoundTrip(x.l);
    WordRoundTrip(x.r);
  }

  lemma UnpackPack(b: Block)
    ensures PackBlock(Unpack(b)) == b
  {
    BytesWord(b[0], b[1], b[2], b[3]);
    BytesWord(b[4], b[5], b[6], b[7]);
  }

  function Rounds(sp: Table, s: Schedule, x: Pair, encrypt: bool): Pair {
    if encrypt then Enc(sp, s, x, 8) else Dec(sp, s, x, 8)
  }

  function Crypt(sp: Table, s: Schedule, b: Block, encrypt: bool): Block {
    PackBlock(Fp(RotateOut(Rounds(sp, s, RotateIn(Ip(Unpack(b))), encrypt))))
  }

  /** Decryption undoes encryption and encryption undoes decryption, for any round table and any schedule. */
  lemma CryptInverse(sp: Table, s: Schedule, b: Block, encrypt: bool)
    ensures Crypt(sp, s, Crypt(sp, s, b, encrypt), !encrypt) == b
  {
    hide Unpack, PackBlock, Ip, Fp, RotateIn, RotateOut, Enc, Dec, Swap;
    var x := Unpack(b);
    var y := RotateIn(Ip(x));
    var z := Rounds(sp, s, y, encrypt);
    PackUnpack(Fp(RotateOut(z)));
    FpIp(RotateOut(z));
    Rotations(z);
    if encrypt {
      DecUndoesEnc(sp, s, y, 8);
    } else {
      EncUndoesDec(sp, s, y, 8);
    }
    Rotations(Ip(x));
    FpIp(x);
    UnpackPack(b);
  }

  /** perl_des_crypt with its two round loops. */
  method DesCrypt(sp: Table, s: Schedule, input: Block, encrypt: bool) returns (output: Block)
    ensures output == Crypt(sp, s, input, encrypt)
  {
    hide StepL, StepR, Unpack, PackBlock, Ip, Fp, RotateIn, RotateOut;
    var x := RotateIn(Ip(Unpack(input)));
    ghost var start := x;
    if encrypt {
      var i := 0;
      while i < 32
        invariant 0 <= i <= 32 && i % 4 == 0 && x == Enc(sp, s, start, i / 4)
      {
        x := StepL(sp, s, x, i);
        x := StepR(sp, s, x, i + 2);
        i := i + 4;
      }
    } else {
      var i := 30;
      while i > 0
        invariant -2 <= i <= 30 && (i + 2) % 4 == 0 && Dec(sp, s, x, (i + 2) / 4) == Dec(sp, s, start, 8)
      {
        x := StepL(sp, s, x, i);
        x := StepR(sp, s, x, i - 2);
        i := i - 4;
      }
    }
    output := PackBlock(Fp(RotateOut(x)));
  }

  // ----- key schedule

  /** Permuted choice 1 at the head of perl_des_expand_key: the registers c and d it leaves. */
  function Pc1(c: bv32, d: bv32): (bv32, bv32) {
    var t1 := ((d >> 4) ^ c) & 0x0f0f0f0f;
    var x1, y1 := d ^ (t1 << 4), c ^ t1;
    var u1 := ((y1 << 18) ^ y1) & 0xcccc0000;
    var h1 := y1 ^ u1 ^ (u1 >> 18);
    var u2 := ((x1 << 18) ^ x1) & 0xcccc0000;
    var h2 := x1 ^ u2 ^ (u2 >> 18);
    var t2 := ((h2 >> 1) ^ h1) & 0x55555555;
    var x2, y2 := h2 ^ (t2 << 1), h1 ^ t2;
    var t3 := ((y2 >> 8) ^ x2) & 0x00ff00ff;
    var x3, y3 := y2 ^ (t3 << 8), x2 ^ t3;
    var t4 := ((y3 >> 1) ^ x3) & 0x55555555;
    var x4, y4 := y3 ^ (t4 << 1), x3 ^ t4;
    (y4 & 0x0fffffff,
     ((x4 & 0x000000ff) << 16) | (x4 & 0x0000ff00) | ((x4 & 0x00ff0000) >> 16) | ((y4 & 0xf0000000) >> 4))
  }

  /** The same steps backwards, with zeros for the bits that were left out. */
  function Pc1Back(c: bv32, d: bv32): (bv32, bv32) {
    var y4 := c | ((d & 0x0f000000) << 4);
    var x4 := ((d >> 16) & 0xff) | (d & 0xff00) | ((d & 0xff) << 16);
    var t4 := ((x4 >> 1) ^ y4) & 0x55555555;
    var y3, x3 := x4 ^ (t4 << 1), y4 ^ t4;
    var t3 := ((x3 >> 8) ^ y3) & 0x00ff00ff;
    var y2, x2 := x3 ^ (t3 << 8), y3 ^ t3;
    var t2 := ((x2 >> 1) ^ y2) & 0x55555555;
    var h2, h1 := x2 ^ (t2 << 1), y2 ^ t2;
    var u1 := ((h1 << 18) ^ h1) & 0xcccc0000;
    var y1 := h1 ^ u1 ^ (u1 >> 18);
    var u2 := ((h2 << 18) ^ h2) & 0xcccc0000;
    var x1 := h2 ^ u2 ^ (u2 >> 18);
    var t1 := ((x1 >> 4) ^ y1) & 0x0f0f0f0f;
    (y1 ^ t1, x1 ^ (t1 << 4))
  }

  /** The key comes back but for its parity bits. */
  lemma Pc1RoundTrip(c: bv32, d: bv32, x: bv32, y: bv32)
    requires x == c & 0xfefefefe && y == d & 0xfefefefe
    ensures var (p, q) := Pc1(c, d); Pc1Back(p, q) == (x, y)
  {
  }

  /** The parity bits are left out. */
  lemma Pc1DropsParity(c: bv32, d: bv32, x: bv32, y: bv32)
    requires x == c & 0xfefefefe && y == d & 0xfefefefe
    ensures Pc1(c, d) == Pc1(x, y)
  {
  }

  /** A key word without its parity bits. */
  function KeyBits(c: bv32): bv32 { c & 0xfefefefe }

  /** Exactly the 56 key bits above the parity bits reach the two 28-bit registers. */
  lemma Pc1KeepsKeyBits(c: bv32, d: bv32, c': bv32, d': bv32)
    ensures Pc1(c, d) == Pc1(c', d') <==> KeyBits(c) == KeyBits(c') && KeyBits(d) == KeyBits(d')
  {
    Pc1RoundTrip(c, d, KeyBits(c), KeyBits(d));
    Pc1RoundTrip(c', d', KeyBits(c'), KeyBits(d'));
    Pc1DropsParity(c, d, KeyBits(c), KeyBits(d));
    Pc1DropsParity(c', d', KeyBits(c'), KeyBits(d'));
    hide Pc1, Pc1Back, KeyBits;
  }

  /** A key byte without its parity bit. */
  function KeyPart(b: bv8): bv8 { b & 0xfe }

  lemma KeyBytes(a: bv8, b: bv8, c: bv8, d: bv8, a': bv8, b': bv8, c': bv8, d': bv8)
    requires a & 0xfe == a' & 0xfe && b & 0xfe == b' & 0xfe && c & 0xfe == c' & 0xfe && d & 0xfe == d' & 0xfe
    ensures ((a as bv32) | ((b as bv32) << 8) | ((c as bv32) << 16) | ((d as bv32) << 24)) & 0xfefefefe
         == ((a' as bv32) | ((b' as bv32) << 8) | ((c' as bv32) << 16) | ((d' as bv32) << 24)) & 0xfefefefe
  {
  }

  lemma KeyWords(a: bv8, b: bv8, c: bv8, d: bv8, a': bv8, b': bv8, c': bv8, d': bv8, x: bv32, x': bv32)
    requires a & 0xfe == a' & 0xfe && b & 0xfe == b' & 0xfe && c & 0xfe == c' & 0xfe && d & 0xfe == d' & 0xfe
    requires x == (a as bv32) | ((b as bv32) << 8) | ((c as bv32) << 16) | ((d as bv32) << 24)
    requires x' == (a' as bv32) | ((b' as bv32) << 8) | ((c' as bv32) << 16) | ((d' as bv32) << 24)
    ensures x & 0xfefefefe == x' & 0xfefefefe
  {
    KeyBytes(a, b, c, d, a', b', c', d');
  }

  /** shifts2: rotate by two (true) or by one (false). */
  const SHIFTS2: seq<bool> := [false, false, true, true, true, true, true, true,
                               false, true, true, true, true, true, true, false]

  function Turn(x: bv32, two: bool): bv32 {
    (if two then (x >> 2) | (x << 26) else (x >> 1) | (x << 27)) & 0x0fffffff
  }

  /** The indexes into des_skb, six bits of a register each. */
  function PickC1(c: bv32): bv6 { Six(((c >> 6) & 0x03) | ((c >> 7) & 0x3c)) }
  function PickC2(c: bv32): bv6 { Six(((c >> 13) & 0x0f) | ((c >> 14) & 0x30)) }
  function PickC3(c: bv32): bv6 { Six(((c >> 20) & 0x01) | ((c >> 21) & 0x06) | ((c >> 22) & 0x38)) }
  function PickD1(d: bv32): bv6 { Six(((d >> 7) & 0x03) | ((d >> 8) & 0x3c)) }
  function PickD2(d: bv32): bv6 { Six(d >> 15) }
  function PickD3(d: bv32): bv6 { Six(((d >> 21) & 0x0f) | ((d >> 22) & 0x30)) }

  function Or4(a: bv32, b: bv32, c: bv32, d: bv32): bv32 { Or(Or(Or(a, b), c), d) }

  function FirstWord(s: bv32, t: bv32): bv32 { (t << 16) | (s & 0x0000ffff) }

  function SecondWord(s: bv32, t: bv32): bv32 {
    var u := (s >> 16) | (t & 0xffff0000);
    (u << 4) | (u >> 28)
  }

  /** The two schedule words for registers c and d, for any tables in the place of des_skb. */
  function RoundKey(skb: Table, c: bv32, d: bv32): (bv32, bv32)
  {
    var s := Or4(skb(0, Six(c)), skb(1, PickC1(c)), skb(2, PickC2(c)), skb(3, PickC3(c)));
    var t := Or4(skb(4, Six(d)), skb(5, PickD1(d)), skb(6, PickD2(d)), skb(7, PickD3(d)));
    (FirstWord(s, t), SecondWord(s, t))
  }

  function Two(k: (bv32, bv32)): (r: seq<bv32>)
    ensures |r| == 2
  {
    [k.0, k.1]
  }

  /** The schedule words of rounds i .. 15. */
  function KeysFrom(skb: Table, c: bv32, d: bv32, i: nat): (r: seq<bv32>)
    requires i <= 16
    ensures |r| == 2 * (16 - i)
    decreases 16 - i
  {
    if i == 16 then []
    else
      var c', d' := Turn(c, SHIFTS2[i]), Turn(d, SHIFTS2[i]);
      var k := RoundKey(skb, c', d');
      Two(k) + KeysFrom(skb, c', d', i + 1)
  }

  function KeySchedule(skb: Table, key: Block): Schedule {
    var (c, d) := Pc1(C2L(key, 0), C2L(key, 4));
    KeysFrom(skb, c, d, 0)
  }

  lemma KeysUnfold(skb: Table, c: bv32, d: bv32, i: nat, k: seq<bv32>)
    requires i < 16
    ensures
      var c', d' := Turn(c, SHIFTS2[i]), Turn(d, SHIFTS2[i]);
      k + KeysFrom(skb, c, d, i) == k + Two(RoundKey(skb, c', d')) + KeysFrom(skb, c', d', i + 1)
  {
    hide Turn, RoundKey, Two;
    var c', d' := Turn(c, SHIFTS2[i]), Turn(d, SHIFTS2[i]);
    Append3(k, Two(RoundKey(skb, c', d')), KeysFrom(skb, c', d', i + 1));
  }

  lemma Append3<T>(a: seq<T>, b: seq<T>, c: seq<T>)
    ensures a + (b + c) == a + b + c
  {
  }

  /** perl_des_expand_key */
  method ExpandKey(skb: Table, key: Block) returns (ks: Schedule)
    ensures ks == KeySchedule(skb, key)
  {
    hide Turn, RoundKey, Pc1, C2L, KeysFrom, Two;
    var (c0, d0) := Pc1(C2L(key, 0), C2L(key, 4));
    var c, d := c0, d0;
    var k: seq<bv32> := [];
    ghost var goal := KeySchedule(skb, key);
    assert k + goal == goal;
    for i := 0 to 16
      invariant |k| == 2 * i && k + KeysFrom(skb, c, d, i) == goal
    {
      KeysUnfold(skb, c, d, i, k);
      c, d := Turn(c, SHIFTS2[i]), Turn(d, SHIFTS2[i]);
      k := k + Two(RoundKey(skb, c, d));
    }
    assert k + KeysFrom(skb, c, d, 16) == k;
    ks := k;
  }

  lemma KeyParts(a: bv8, b: bv8, c: bv8, d: bv8, a': bv8, b': bv8, c': bv8, d': bv8)
    requires KeyPart(a) == KeyPart(a') && KeyPart(b) == KeyPart(b') && KeyPart(c) == KeyPart(c')
             && KeyPart(d) == KeyPart(d')
    ensures Word4(a, b, c, d) & 0xfefefefe == Word4(a', b', c', d') & 0xfefefefe
  {
    KeyWords(a, b, c, d, a', b', c', d', Word4(a, b, c, d), Word4(a', b', c', d'));
  }

  lemma KeyWord(key: Block, key': Block, i: nat)
    requires i <= 4 && forall j | i <= j < i + 4 :: KeyPart(key[j]) == KeyPart(key'[j])
    ensures KeyBits(C2L(key, i)) == KeyBits(C2L(key', i))
  {
    hide Word4, KeyPart;
    KeyParts(key[i], key[i + 1], key[i + 2], key[i + 3], key'[i], key'[i + 1], key'[i + 2], key'[i + 3]);
  }

  /** The expanded schedule does not depend on the low bit of any key byte. */
  lemma ParityBitsIgnored(skb: Table, key: Block, key': Block)
    requires forall i | 0 <= i < 8 :: KeyPart(key[i]) == KeyPart(key'[i])
    ensures KeySchedule(skb, key) == KeySchedule(skb, key')
  {
    hide Turn, RoundKey, Pc1, KeysFrom, C2L, KeyPart, KeyBits;
    KeyWord(key, key', 0);
    KeyWord(key, key', 4);
    Pc1KeepsKeyBits(C2L(key, 0), C2L(key, 4), C2L(key', 0), C2L(key', 4));
  }
}
