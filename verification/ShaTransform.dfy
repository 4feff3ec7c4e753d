/** The transforms of sha.c: a rolling 16-word schedule and registers that change roles instead of moving. */
module ShaTransform {
  import opened Fips180

  // ----- the logical functions as sha.c writes them

  function CodeCh(x: bv32, y: bv32, z: bv32): bv32 { z ^ (x & (y ^ z)) }
  function CodeMa(x: bv32, y: bv32, z: bv32): bv32 { (x & y) | (z & (x | y)) }

  lemma ChForms(x: bv32, y: bv32, z: bv32)
    ensures CodeCh(x, y, z) == Ch(x, y, z)
  {
    assert z ^ (x & (y ^ z)) == (x & y) ^ (!x & z);
  }

  lemma MajForms(x: bv32, y: bv32, z: bv32)
    ensures CodeMa(x, y, z) == Maj(x, y, z)
  {
    assert (x & y) | (z & (x | y)) == (x & y) ^ (x & z) ^ (y & z);
  }

  /** e += r + f + k + w */
  function CodeSum(r: bv32, f: bv32, e: bv32, k: bv32, w: bv32): bv32 { e + (r + f + k + w) }

  lemma SumForms(r: bv32, f: bv32, e: bv32, k: bv32, w: bv32)
    ensures CodeSum(r, f, e, k, w) == Sum5(r, f, e, k, w)
  {
    assert e + (r + f + k + w) == r + f + e + k + w;
  }

  /** A1: ROTL(W[s] ^ W[s+13] ^ W[s+8] ^ W[s+2], 1) */
  function CodeMix(w16: bv32, w3: bv32, w8: bv32, w14: bv32): bv32 { Rotl1(w16 ^ w3 ^ w8 ^ w14) }

  lemma MixForms(w16: bv32, w3: bv32, w8: bv32, w14: bv32)
    ensures CodeMix(w16, w3, w8, w14) == Mix1(w3, w8, w14, w16)
  {
    hide Rotl1;
    assert w16 ^ w3 ^ w8 ^ w14 == w3 ^ w8 ^ w14 ^ w16;
  }

  function CodeF(t: nat, x: bv32, y: bv32, z: bv32): bv32 {
    if t < 20 then CodeCh(x, y, z) else if t < 40 then Parity(x, y, z) else if t < 60 then CodeMa(x, y, z)
    else Parity(x, y, z)
  }

  /** M1: the new value of the fifth register. */
  function M1(a: bv32, b: bv32, c: bv32, d: bv32, e: bv32, t: nat, w: bv32): bv32 {
    CodeSum(Rotl5(a), CodeF(t, b, c, d), e, K1(t), w)
  }

  /** One renamed step is one textbook step. */
  lemma M1IsStep(s: State1, t: nat, w: bv32)
    ensures Step1(s, t, w) == State1(M1(s.a, s.b, s.c, s.d, s.e, t, w), s.a, Rotl30(s.b), s.c, s.d)
  {
    hide CodeCh, Ch, CodeMa, Maj, Rotl5, Rotl30, Parity, K1, CodeSum, Sum5;
    ChForms(s.b, s.c, s.d);
    MajForms(s.b, s.c, s.d);
    SumForms(Rotl5(s.a), F1(t, s.b, s.c, s.d), s.e, K1(t), w);
  }

  /** The 16 words hold the schedule entries lo .. lo+15, each at its index modulo 16. */
  ghost predicate Rolling(W: seq<bv32>, sched: nat -> bv32, lo: nat)
  {
    |W| == 16 && forall j {:trigger sched(j)} | lo <= j < lo + 16 :: W[j % 16] == sched(j)
  }

  /** Slot s+k, counted from the oldest one at s, holds entry lo+k. */
  lemma Entry(W: seq<bv32>, sched: nat -> bv32, lo: nat, s: nat, k: nat)
    requires Rolling(W, sched, lo) && k < 16 && s == lo % 16
    ensures |W| == 16 && W[(s + k) % 16] == sched(lo + k)
  {
    Slot(lo, k);
  }

  lemma Slot(lo: nat, k: nat)
    requires k < 16
    ensures (lo % 16 + k) % 16 == (lo + k) % 16
  {
  }

  lemma SameSlot(t: nat)
    requires t >= 16
    ensures (t - 16) % 16 == t % 16 && (t % 16 + 0) % 16 == t % 16
  {
  }

  /** Overwriting the oldest word with entry lo+16 gives the window one entry further on. */
  lemma Replace(W: seq<bv32>, sched: nat -> bv32, lo: nat, x: bv32)
    requires Rolling(W, sched, lo) && x == sched(lo + 16)
    ensures Rolling(W[lo % 16 := x], sched, lo + 1)
  {
    var W' := W[lo % 16 := x];
    forall j | lo + 1 <= j < lo + 17
      ensures W'[j % 16] == sched(j)
    {
      if j < lo + 16 {
        OtherSlot(lo, j);
      } else {
        assert j % 16 == lo % 16;
      }
    }
  }

  lemma OtherSlot(lo: nat, j: nat)
    requires lo < j < lo + 16
    ensures j % 16 != lo % 16
  {
  }

  ghost function Schedule1(w: Words): nat -> bv32 {
    (j: nat) => Sched1(w, j)
  }

  ghost function Schedule2(w: Words): nat -> bv32 {
    (j: nat) => Sched2(w, j)
  }

  function Oldest(t: nat): nat { if t < 16 then 0 else t - 16 }

  /** *wp++ for the first 16 steps, then A1: the word for step t, with the window moved on. */
  method Word1(W: array<bv32>, t: nat, ghost w: Words) returns (x: bv32)
    requires W.Length == 16 && Rolling(W[..], Schedule1(w), Oldest(t))
    modifies W
    ensures x == Sched1(w, t) && Rolling(W[..], Schedule1(w), Oldest(t + 1))
  {
    hide Rolling, CodeMix, Sched1;
    if t < 16 {
      Entry(W[..], Schedule1(w), 0, 0, t);
      x := W[t];
    } else {
      Next1(W[..], w, t);
      var s := t % 16;
      x := CodeMix(W[s], W[(s + 13) % 16], W[(s + 8) % 16], W[(s + 2) % 16]);
      ghost var before := W[..];
      W[s] := x;
      assert W[..] == before[s := x];
    }
  }

  lemma Next1(W: seq<bv32>, w: Words, t: nat)
    requires t >= 16 && Rolling(W, Schedule1(w), t - 16)
    ensures |W| == 16
    ensures
      var s := t % 16;
      var x := CodeMix(W[s], W[(s + 13) % 16], W[(s + 8) % 16], W[(s + 2) % 16]);
      x == Sched1(w, t) && Rolling(W[s := x], Schedule1(w), t - 15)
  {
    hide CodeMix, Mix1, Sched1, Rolling;
    var s, S, lo := t % 16, Schedule1(w), t - 16;
    SameSlot(t);
    Entry(W, S, lo, s, 0); Entry(W, S, lo, s, 13); Entry(W, S, lo, s, 8); Entry(W, S, lo, s, 2);
    MixForms(W[s], W[(s + 13) % 16], W[(s + 8) % 16], W[(s + 2) % 16]);
    assert W[(s + 13) % 16] == Sched1(w, t - 3) && W[(s + 8) % 16] == Sched1(w, t - 8);
    assert W[(s + 2) % 16] == Sched1(w, t - 14);
    assert W[s] == S(lo);
    Unfold1(w, t);
    Replace(W, S, lo, Sched1(w, t));
  }

  lemma Unfold1(w: Words, t: nat)
    requires t >= 16
    ensures Sched1(w, t) == Mix1(Sched1(w, t - 3), Sched1(w, t - 8), Sched1(w, t - 14), Sched1(w, t - 16))
  {
  }

  /** Four octets as one word, the first one highest. */
  function Load4(a: bv8, b: bv8, c: bv8, d: bv8): bv32 {
    (d as bv32) | ((c as bv32) << 8) | ((b as bv32) << 16) | ((a as bv32) << 24)
  }

  lemma LoadForms(a: bv8, b: bv8, c: bv8, d: bv8)
    ensures Load4(a, b, c, d) == ((a as bv32) << 24) | ((b as bv32) << 16) | ((c as bv32) << 8) | (d as bv32)
  {
  }

  method Load(block: Block) returns (W: array<bv32>)
    ensures fresh(W) && W[..] == WordsOf(block)
  {
    hide Load4;
    W := new bv32[16](i requires 0 <= i < 16 =>
      Load4(block[4 * i], block[4 * i + 1], block[4 * i + 2], block[4 * i + 3]));
    forall i | 0 <= i < 16 ensures W[i] == WordAt(block, i) {
      LoadForms(block[4 * i], block[4 * i + 1], block[4 * i + 2], block[4 * i + 3]);
    }
  }

  /** The window starts out as the sixteen block words. */
  lemma Loaded(w: Words)
    ensures Rolling(w, Schedule1(w), 0) && Rolling(w, Schedule2(w), 0)
  {
  }

  /** H[0] += a, and so on. */
  function Accumulate1(H: State1, s: State1): State1 {
    State1(H.a + s.a, H.b + s.b, H.c + s.c, H.d + s.d, H.e + s.e)
  }

  lemma AccumulateForms(H: State1, s: State1)
    ensures Accumulate1(H, s) == Add1(H, s)
  {
  }

  function Accumulate2(H: State2, s: State2): State2 {
    State2(H.a + s.a, H.b + s.b, H.c + s.c, H.d + s.d, H.e + s.e, H.f + s.f, H.g + s.g, H.h + s.h)
  }

  lemma AccumulateForms2(H: State2, s: State2)
    ensures Accumulate2(H, s) == Add2(H, s)
  {
  }

  /** sha1: sixteen groups of the five renamed steps M11 .. M15. */
  method Sha1(H: State1, block: Block) returns (r: State1)
    ensures r == Compress1(H, block)
  {
    hide Rolling, WordsOf, Sched1, M1, Rotl30, Temp1, Step1, Accumulate1, Add1;
    ghost var w := WordsOf(block);
    var W := Load(block);
    Loaded(w);
    var a, b, c, d, e := H.a, H.b, H.c, H.d, H.e;
    var t := 0;
    while t < 80
      invariant 0 <= t <= 80 && t % 5 == 0
      invariant State1(a, b, c, d, e) == Run1(H, w, t)
      invariant Rolling(W[..], Schedule1(w), Oldest(t))
    {
      var x := Word1(W, t, w);
      M1IsStep(State1(a, b, c, d, e), t, x);
      e := M1(a, b, c, d, e, t, x);
      b := Rotl30(b);
      assert State1(e, a, b, c, d) == Run1(H, w, t + 1);

      x := Word1(W, t + 1, w);
      M1IsStep(State1(e, a, b, c, d), t + 1, x);
      d := M1(e, a, b, c, d, t + 1, x);
      a := Rotl30(a);
      assert State1(d, e, a, b, c) == Run1(H, w, t + 2);

      x := Word1(W, t + 2, w);
      M1IsStep(State1(d, e, a, b, c), t + 2, x);
      c := M1(d, e, a, b, c, t + 2, x);
      e := Rotl30(e);
      assert State1(c, d, e, a, b) == Run1(H, w, t + 3);

      x := Word1(W, t + 3, w);
      M1IsStep(State1(c, d, e, a, b), t + 3, x);
      b := M1(c, d, e, a, b, t + 3, x);
      d := Rotl30(d);
      assert State1(b, c, d, e, a) == Run1(H, w, t + 4);

      x := Word1(W, t + 4, w);
      M1IsStep(State1(b, c, d, e, a), t + 4, x);
      a := M1(b, c, d, e, a, t + 4, x);
      c := Rotl30(c);
      t := t + 5;
    }
    r := Accumulate1(H, State1(a, b, c, d, e));
    AccumulateForms(H, State1(a, b, c, d, e));
  }

  /** T1 = h + SIGMA1(e) + Ch(e, f, g) + K + w */
  function CodeT1(h: bv32, e: bv32, f: bv32, g: bv32, t: nat, w: bv32): bv32 {
    Sum5(h, BigSigma1(e), CodeCh(e, f, g), K2(t), w)
  }

  /** h = T1 + SIGMA0(a) + Ma(a, b, c) */
  function CodeT2(t1: bv32, a: bv32, b: bv32, c: bv32): bv32 {
    Sum3(t1, BigSigma0(a), CodeMa(a, b, c))
  }

  function Sum3(x: bv32, y: bv32, z: bv32): bv32 { x + y + z }

  lemma Sum3Forms(x: bv32, y: bv32, z: bv32)
    ensures Sum3(x, y, z) == NewA(x, y, z)
  {
    assert x + y + z == x + (y + z);
  }

  /** One renamed step of sha256 is one textbook step. */
  lemma M2IsStep(s: State2, t: nat, w: bv32)
    ensures
      var t1 := CodeT1(s.h, s.e, s.f, s.g, t, w);
      Step2(s, t, w) == State2(CodeT2(t1, s.a, s.b, s.c), s.a, s.b, s.c, Plus(s.d, t1), s.e, s.f, s.g)
  {
    hide BigSigma0, BigSigma1, CodeCh, Ch, CodeMa, Maj, K2, Sum5, Sum3, NewA, Plus;
    ChForms(s.e, s.f, s.g);
    MajForms(s.a, s.b, s.c);
    Sum3Forms(CodeT1(s.h, s.e, s.f, s.g, t, w), BigSigma0(s.a), Maj(s.a, s.b, s.c));
  }

  /** A2: W[s] += sigma1(W[s+14]) + W[s+9] + sigma0(W[s+1]) */
  function CodeMix2(w16: bv32, w2: bv32, w7: bv32, w15: bv32): bv32 {
    w16 + (SmallSigma1(w2) + w7 + SmallSigma0(w15))
  }

  lemma Mix2Forms(w16: bv32, w2: bv32, w7: bv32, w15: bv32)
    ensures CodeMix2(w16, w2, w7, w15) == Mix2(w2, w7, w15, w16)
  {
    hide SmallSigma0, SmallSigma1;
    var x, y := SmallSigma1(w2), SmallSigma0(w15);
    assert w16 + (x + w7 + y) == x + w7 + y + w16;
  }

  method Word2(W: array<bv32>, t: nat, ghost w: Words) returns (x: bv32)
    requires W.Length == 16 && Rolling(W[..], Schedule2(w), Oldest(t))
    modifies W
    ensures x == Sched2(w, t) && Rolling(W[..], Schedule2(w), Oldest(t + 1))
  {
    hide Rolling, CodeMix2, Sched2;
    if t < 16 {
      Entry(W[..], Schedule2(w), 0, 0, t);
      x := W[t];
    } else {
      Next2(W[..], w, t);
      var s := t % 16;
      x := CodeMix2(W[s], W[(s + 14) % 16], W[(s + 9) % 16], W[(s + 1) % 16]);
      ghost var before := W[..];
      W[s] := x;
      assert W[..] == before[s := x];
    }
  }

  lemma Next2(W: seq<bv32>, w: Words, t: nat)
    requires t >= 16 && Rolling(W, Schedule2(w), t - 16)
    ensures |W| == 16
    ensures
      var s := t % 16;
      var x := CodeMix2(W[s], W[(s + 14) % 16], W[(s + 9) % 16], W[(s + 1) % 16]);
      x == Sched2(w, t) && Rolling(W[s := x], Schedule2(w), t - 15)
  {
    hide CodeMix2, Mix2, Sched2, Rolling;
    var s, S, lo := t % 16, Schedule2(w), t - 16;
    SameSlot(t);
    Entry(W, S, lo, s, 0); Entry(W, S, lo, s, 14); Entry(W, S, lo, s, 9); Entry(W, S, lo, s, 1);
    Mix2Forms(W[s], W[(s + 14) % 16], W[(s + 9) % 16], W[(s + 1) % 16]);
    assert W[(s + 14) % 16] == Sched2(w, t - 2) && W[(s + 9) % 16] == Sched2(w, t - 7);
    assert W[(s + 1) % 16] == Sched2(w, t - 15);
    assert W[s] == S(lo);
    Unfold2(w, t);
    Replace(W, S, lo, Sched2(w, t));
  }

  lemma Unfold2(w: Words, t: nat)
    requires t >= 16
    ensures Sched2(w, t) == Mix2(Sched2(w, t - 2), Sched2(w, t - 7), Sched2(w, t - 15), Sched2(w, t - 16))
  {
  }

  /** M21 .. M24: four renamed steps; afterwards the registers play the roles e, f, g, h, a, b, c, d. */
  method FourSteps(W: array<bv32>, t: nat, s: State2, ghost H: State2, ghost w: Words) returns (r: State2)
    requires W.Length == 16 && Rolling(W[..], Schedule2(w), Oldest(t)) && s == Run2(H, w, t)
    modifies W
    ensures Rolling(W[..], Schedule2(w), Oldest(t + 4))
    ensures State2(r.e, r.f, r.g, r.h, r.a, r.b, r.c, r.d) == Run2(H, w, t + 4)
  {
    hide Rolling, Sched2, CodeT1, CodeT2, Plus, Step2;
    var a, b, c, d, e, f, g, h := s.a, s.b, s.c, s.d, s.e, s.f, s.g, s.h;
    var T1;
    var x := Word2(W, t, w);
    M2IsStep(State2(a, b, c, d, e, f, g, h), t, x);
    T1 := CodeT1(h, e, f, g, t, x);
    h := CodeT2(T1, a, b, c);
    d := Plus(d, T1);
    assert State2(h, a, b, c, d, e, f, g) == Run2(H, w, t + 1);

    x := Word2(W, t + 1, w);
    M2IsStep(State2(h, a, b, c, d, e, f, g), t + 1, x);
    T1 := CodeT1(g, d, e, f, t + 1, x);
    g := CodeT2(T1, h, a, b);
    c := Plus(c, T1);
    assert State2(g, h, a, b, c, d, e, f) == Run2(H, w, t + 2);

    x := Word2(W, t + 2, w);
    M2IsStep(State2(g, h, a, b, c, d, e, f), t + 2, x);
    T1 := CodeT1(f, c, d, e, t + 2, x);
    f := CodeT2(T1, g, h, a);
    b := Plus(b, T1);
    assert State2(f, g, h, a, b, c, d, e) == Run2(H, w, t + 3);

    x := Word2(W, t + 3, w);
    M2IsStep(State2(f, g, h, a, b, c, d, e), t + 3, x);
    T1 := CodeT1(e, b, c, d, t + 3, x);
    e := CodeT2(T1, f, g, h);
    a := Plus(a, T1);
    assert State2(e, f, g, h, a, b, c, d) == Run2(H, w, t + 4);
    r := State2(a, b, c, d, e, f, g, h);
  }

  /** sha256: eight groups of the eight renamed steps M21 .. M28; M25 .. M28 are M21 .. M24 with the halves
      exchanged. */
  method Sha256(H: State2, block: Block) returns (r: State2)
    ensures r == Compress2(H, block)
  {
    hide Rolling, WordsOf, Sched2, Step2, Accumulate2, Add2;
    ghost var w := WordsOf(block);
    var W := Load(block);
    Loaded(w);
    var s, t := H, 0;
    while t < 64
      invariant 0 <= t <= 64 && t % 8 == 0
      invariant s == Run2(H, w, t)
      invariant Rolling(W[..], Schedule2(w), Oldest(t))
    {
      var u := FourSteps(W, t, s, H, w);
      var v := FourSteps(W, t + 4, State2(u.e, u.f, u.g, u.h, u.a, u.b, u.c, u.d), H, w);
      s := State2(v.e, v.f, v.g, v.h, v.a, v.b, v.c, v.d);
      t := t + 8;
    }
    r := Accumulate2(H, s);
    AccumulateForms2(H, s);
  }
}
