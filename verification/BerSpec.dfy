/** The BER contents octets that asn1.c reads and writes, on plain numbers (ITU-T X.690 sections 8.1.3, 8.3, 8.19). */
module BerSpec {
  import opened OidOrder
  import opened Options

  type Byte = b: int | 0 <= b < 256

  const TWO31: int := 0x8000_0000
  const TWO32: int := 0x1_0000_0000
  const TWO63: int := 0x8000_0000_0000_0000
  const TWO64: int := 0x1_0000_0000_0000_0000

  // ----- integers

  /** CHECK_OVERFLOW_S on a 64-bit long. */
  function TruncS(x: int): int {
    if x > TWO31 - 1 then x % TWO32 else if x < -TWO31 then -(x % TWO32) else x
  }

  /** CHECK_OVERFLOW_U on a 64-bit unsigned long. */
  function TruncU(x: nat): nat {
    if x > TWO32 - 1 then x % TWO32 else x
  }

  /** The shortest two's complement form, most significant octet first. */
  function SignedBytes(v: int): (r: seq<Byte>)
    ensures |r| >= 1
    decreases if v < 0 then -v else v
  {
    if -128 <= v < 128 then [v % 256] else SignedBytes(v / 256) + [v % 256]
  }

  /** value = (value << 8) | octet, from a starting value. */
  function FoldBytes(start: int, s: seq<Byte>): int {
    if s == [] then start else FoldBytes(start, s[..|s| - 1]) * 256 + s[|s| - 1]
  }

  /** Two's complement value of a non-empty octet string. */
  function SignedValue(s: seq<Byte>): int
    requires s != []
  {
    FoldBytes(if s[0] >= 128 then -1 else 0, s)
  }

  /** Decoding undoes encoding. */
  lemma {:induction false} SignedRoundTrip(v: int)
    ensures SignedValue(SignedBytes(v)) == v
    ensures SignedBytes(v)[0] >= 128 <==> v < 0
    decreases if v < 0 then -v else v
  {
    var s := SignedBytes(v);
    if -128 <= v < 128 {
      assert s == [v % 256] && s[..0] == [];
      assert FoldBytes(-1, []) == -1 && FoldBytes(0, []) == 0;
    } else {
      SignedRoundTrip(v / 256);
      assert s[..|s| - 1] == SignedBytes(v / 256) && s[0] == SignedBytes(v / 256)[0];
      assert s[|s| - 1] == v % 256;
    }
  }

  /** Section 8.3.2 of X.690: the first nine bits are not all equal. */
  ghost predicate Minimal(s: seq<Byte>)
  {
    |s| >= 2 ==> !(s[0] == 0 && s[1] < 128) && !(s[0] == 255 && s[1] >= 128)
  }

  lemma {:induction false} SignedMinimal(v: int)
    ensures Minimal(SignedBytes(v))
    decreases if v < 0 then -v else v
  {
    if -128 <= v < 128 {
    } else {
      SignedMinimal(v / 256);
      if -128 <= v / 256 < 128 {
        assert SignedBytes(v) == [(v / 256) % 256, v % 256];
      } else {
        assert SignedBytes(v / 256) == SignedBytes(v / 256 / 256) + [v / 256 % 256];
      }
    }
  }

  lemma {:induction false} SignedLength(v: int, k: nat)
    requires k >= 1 && -128 * Pow256(k - 1) <= v < 128 * Pow256(k - 1)
    ensures |SignedBytes(v)| <= k
    decreases k
  {
    if v < -128 || v >= 128 { SignedLength(v / 256, k - 1); }
  }

  /** Octets of a 64-bit quantity, signed or unsigned. */
  lemma WordLength(v: int)
    requires -TWO64 <= v < TWO64
    ensures |SignedBytes(v)| <= 9
  {
    assert Pow256(8) == TWO64;
    SignedLength(v, 9);
  }

  lemma TruncTwice(v: int)
    ensures -0x1_0000_0000 < TruncS(v) < 0x1_0000_0000
    ensures TruncS(TruncS(v)) == v <==> -0x8000_0000 <= v < 0x1_0000_0000
  {
  }

  lemma HalfWordLength(v: int)
    requires -TWO32 < v < TWO32
    ensures |SignedBytes(v)| <= 5
  {
    assert Pow256(4) == TWO32;
    SignedLength(v, 5);
  }

  /** Contents of an INTEGER. */
  function IntContent(v: int): (r: seq<Byte>)
    ensures 1 <= |r| <= 5
  {
    TruncTwice(v);
    HalfWordLength(TruncS(v));
    SignedBytes(TruncS(v))
  }

  /** Contents of a Counter32, Gauge32 or TimeTicks. */
  function UnsignedContent(v: nat): (r: seq<Byte>)
    ensures 1 <= |r| <= 5
  {
    HalfWordLength(TruncU(v));
    SignedBytes(TruncU(v))
  }

  /** Contents of a Counter64 held in two longs. */
  function Counter64Content(high: nat, low: nat): (r: seq<Byte>)
    ensures 1 <= |r| <= 9
  {
    WordLength(TruncU(high) * TWO32 + TruncU(low));
    SignedBytes(TruncU(high) * TWO32 + TruncU(low))
  }

  // ----- lengths

  function NatBytes(n: nat): (r: seq<Byte>)
    ensures |r| >= 1
  {
    if n < 256 then [n] else NatBytes(n / 256) + [n % 256]
  }

  function LengthBytes(n: nat): (r: seq<Byte>)
    requires n < TWO64
    ensures |r| >= 1
  {
    if n < 128 then [n]
    else
      NatBytesLength(n, 8);
      [128 + |NatBytes(n)|] + NatBytes(n)
  }

  function Pow256(k: nat): (r: nat)
    ensures r > 0
  {
    if k == 0 then 1 else 256 * Pow256(k - 1)
  }

  lemma {:induction false} NatBytesLength(n: nat, k: nat)
    requires k >= 1 && (n < Pow256(k) || (k == 8 && n < TWO64))
    ensures |NatBytes(n)| <= k
    decreases k
  {
    if k == 8 && n < TWO64 {
      assert Pow256(8) == TWO64;
    }
    if k == 1 {
      assert Pow256(1) == 256;
    } else if n >= 256 {
      NatBytesLength(n / 256, k - 1);
    }
  }

  lemma {:induction false} NatRoundTrip(n: nat)
    ensures FoldBytes(0, NatBytes(n)) == n
  {
    var s := NatBytes(n);
    if n < 256 {
      assert s[..0] == [];
    } else {
      NatRoundTrip(n / 256);
      assert s[..|s| - 1] == NatBytes(n / 256);
    }
  }

  /** An Opaque may hold a 64-bit type: two octets of tag, then length and contents. */
  const OPAQUE: Byte := 0x44
  const OPAQUE_TAG1: Byte := 0x9F
  const OPAQUE_COUNTER64: Byte := 0x76
  const OPAQUE_U64: Byte := 0x7B

  /** The tags of a 64-bit counter that travels inside an Opaque. */
  predicate Special(tag: Byte) {
    tag == OPAQUE_COUNTER64 || tag == OPAQUE_U64
  }

  /** A complete tag-length-value encoding. */
  function Tlv(tag: Byte, content: seq<Byte>): (r: seq<Byte>)
    requires |content| < TWO64
    ensures |r| >= |content| + 2
  {
    [tag] + LengthBytes(|content|) + content
  }

  // ----- object identifiers

  /** All octets but the last of a subidentifier carry a continuation bit. */
  function Base128High(v: nat): (r: seq<Byte>)
    ensures |r| >= 1 && forall i | 0 <= i < |r| :: r[i] >= 128
  {
    if v < 128 then [v + 128] else Base128High(v / 128) + [v % 128 + 128]
  }

  function Base128(v: nat): (r: seq<Byte>)
    ensures |r| >= 1
    ensures r[|r| - 1] < 128 && forall i | 0 <= i < |r| - 1 :: r[i] >= 128
  {
    if v < 128 then [v] else Base128High(v / 128) + [v % 128]
  }

  function Subids(vs: seq<nat>): seq<Byte> {
    if vs == [] then [] else Base128(vs[0]) + Subids(vs[1..])
  }

  lemma {:induction false} SubidsSnoc(vs: seq<nat>, v: nat)
    ensures Subids(vs + [v]) == Subids(vs) + Base128(v)
  {
    if vs == [] {
      assert [v][1..] == [];
    } else {
      assert (vs + [v])[1..] == vs[1..] + [v];
      SubidsSnoc(vs[1..], v);
    }
  }

  /** Identifiers as the code holds them, each number in an unsigned long. */
  type Oid64 = o: Oid | forall x | x in o :: x < TWO64

  /** What both builders refuse. */
  predicate Refused(o: Oid64) {
    |o| > 0 && (o[0] > 2 || (|o| >= 2 && o[1] > 40 && o[0] < 2))
  }

  /** The first two subidentifiers share one number, computed in an unsigned long. */
  function FirstPair(o: Oid64): nat
    requires |o| >= 2
  {
    (o[0] * 40 + o[1]) % TWO64
  }

  function Truncated(o: Oid64): seq<nat> {
    seq(|o|, i requires 0 <= i < |o| => TruncU(o[i]))
  }

  /** The numbers encoded for an identifier of at least two subidentifiers. */
  function Numbers(o: Oid64): seq<nat>
    requires |o| >= 2
  {
    [FirstPair(o)] + Truncated(o[2..])
  }

  /** Subidentifier values that survive the encoding. */
  predicate InRange(o: Oid64)
    requires |o| >= 2
  {
    o[0] <= 2 && (o[0] < 2 ==> o[1] <= 39) && o[0] * 40 + o[1] < TWO32 && forall i | 2 <= i < |o| :: o[i] < TWO32
  }

  /** shift and add the low seven bits, in an unsigned long, until an octet without continuation bit or the end. */
  function TakeSub(s: seq<Byte>, acc: nat): (r: (nat, nat))
    requires s != []
    ensures 1 <= r.1 <= |s|
  {
    var v := (acc * 128 + s[0] % 128) % TWO64;
    if s[0] < 128 || |s| == 1 then (v, 1)
    else var t := TakeSub(s[1..], v); (t.0, t.1 + 1)
  }

  /** The subidentifier loop of asn_parse_objid, with room for n more numbers. */
  function TakeSubs(s: seq<Byte>, n: nat): Option<seq<nat>>
    decreases |s|
  {
    if s == [] then Some([])
    else if n == 0 then None
    else
      var t := TakeSub(s, 0);
      if s[t.1 - 1] >= 128 || t.0 >= TWO32 then None
      else match TakeSubs(s[t.1..], n - 1)
        case None => None
        case Some(vs) => Some([t.0] + vs)
  }

  /** Splitting the first number again. */
  function SplitFirst(vs: seq<nat>): seq<nat>
    requires vs != []
  {
    var x := vs[0];
    (if x < 40 then [0, x] else if x < 80 then [1, x - 40] else [2, x - 80]) + vs[1..]
  }

  /** The contents octets of an identifier, for a result array of n >= 2 entries. */
  function ParseOidContent(s: seq<Byte>, n: nat): Option<seq<nat>>
    requires n >= 2
  {
    if s == [] then Some([0])
    else match TakeSubs(s, n - 1)
      case None => None
      case Some(vs) => if vs == [] then None else Some(SplitFirst(vs))
  }

  /** One octet with a continuation bit. */
  lemma TakeStep(b: Byte, rest: seq<Byte>, acc: nat, v: nat)
    requires b >= 128 && rest != [] && v == acc * 128 + b % 128 && v < TWO64
    ensures TakeSub([b] + rest, acc) == (TakeSub(rest, v).0, TakeSub(rest, v).1 + 1)
  {
    assert ([b] + rest)[1..] == rest;
    assert v % TWO64 == v;
  }

  /** Reading the octets of a high part leaves its value in the accumulator. */
  lemma {:induction false} TakeHighFrom(v: nat, rest: seq<Byte>)
    requires rest != [] && v < TWO64
    ensures TakeSub(Base128High(v) + rest, 0) == (TakeSub(rest, v).0, TakeSub(rest, v).1 + |Base128High(v)|)
  {
    hide TakeSub;
    if v < 128 {
      TakeStep(v + 128, rest, 0, v);
    } else {
      var b: Byte := v % 128 + 128;
      var s := [b] + rest;
      assert Base128High(v) + rest == Base128High(v / 128) + s;
      TakeHighFrom(v / 128, s);
      TakeStep(b, rest, v / 128, v);
    }
  }

  /** The last octet of a subidentifier. */
  lemma TakeLast(b: Byte, rest: seq<Byte>, acc: nat, v: nat)
    requires b < 128 && v == acc * 128 + b && v < TWO64
    ensures TakeSub([b] + rest, acc) == (v, 1)
  {
    assert v % TWO64 == v;
  }

  /** A subidentifier is read back exactly. */
  lemma TakeBase128(v: nat, rest: seq<Byte>)
    requires v < TWO64
    ensures TakeSub(Base128(v) + rest, 0) == (v, |Base128(v)|)
  {
    hide TakeSub;
    if v < 128 {
      TakeLast(v, rest, 0, v);
    } else {
      var s := [v % 128] + rest;
      assert Base128(v) + rest == Base128High(v / 128) + s;
      TakeHighFrom(v / 128, s);
      TakeLast(v % 128, rest, v / 128, v);
    }
  }

  // ----- identifiers: what comes back

  const MAXSUBID: nat := 0xFFFF_FFFF

  ghost predicate Fits(vs: seq<nat>) {
    forall i | 0 <= i < |vs| :: vs[i] <= MAXSUBID
  }

  lemma FitsNone()
    ensures Fits([])
  {
  }

  lemma FitsCons(vs: seq<nat>)
    requires vs != []
    ensures Fits(vs) <==> vs[0] <= MAXSUBID && Fits(vs[1..])
  {
    if vs[0] <= MAXSUBID && Fits(vs[1..]) {
      forall i | 0 <= i < |vs| ensures vs[i] <= MAXSUBID {
        if i > 0 { assert vs[i] == vs[1..][i - 1]; }
      }
    }
  }

  /** One turn of the subidentifier loop. */
  lemma TakeSubsStep(v: nat, rest: seq<Byte>, n: nat)
    requires v < TWO64 && n > 0
    ensures TakeSubs(Base128(v) + rest, n) ==
            if v > MAXSUBID then None
            else match TakeSubs(rest, n - 1)
              case None => None
              case Some(vs) => Some([v] + vs)
  {
    hide TakeSub, Base128;
    var s := Base128(v) + rest;
    TakeBase128(v, rest);
    assert s[|Base128(v)|..] == rest;
    assert s[|Base128(v)| - 1] == Base128(v)[|Base128(v)| - 1];
  }

  /** The numbers come back exactly when they are few enough and none is above MAX_SUBID. */
  lemma {:induction false} TakeSubsOf(vs: seq<nat>, n: nat)
    requires forall i | 0 <= i < |vs| :: vs[i] < TWO64
    ensures TakeSubs(Subids(vs), n) == if |vs| <= n && Fits(vs) then Some(vs) else None
    decreases |vs|
  {
    hide Base128, TakeSub, Fits;
    if vs == [] {
      FitsNone();
    } else if n == 0 {
      assert Subids(vs) != [];
    } else {
      var rest := Subids(vs[1..]);
      assert Subids(vs) == Base128(vs[0]) + rest;
      hide TakeSubs, Subids;
      TakeSubsStep(vs[0], rest, n);
      TakeSubsOf(vs[1..], n - 1);
      assert vs == [vs[0]] + vs[1..];
      FitsCons(vs);
    }
  }

  /** Contents octets written by asn_realloc_rbuild_objid. */
  function ReverseContent(o: Oid64): seq<Byte>
    requires !Refused(o)
  {
    if |o| == 0 then [0, 0] else if |o| == 1 then [o[0]] else Subids(Numbers(o))
  }

  /** The first number as asn_build_objid writes it: sized after truncation, written without it. */
  function ForwardFirst(f: nat): seq<Byte> {
    var t := f % TWO32;
    Base128(if t < 0x1000_0000 then t else f % 0x8_0000_0000)
  }

  /** Contents octets written by asn_build_objid. */
  function ForwardContent(o: Oid64): seq<Byte>
    requires !Refused(o)
  {
    if |o| == 0 then [0] else if |o| == 1 then [o[0] * 40]
    else ForwardFirst(FirstPair(o)) + Subids(Truncated(o[2..]))
  }

  /** Truncation changes nothing exactly when nothing is out of range. */
  lemma TruncatedSame(o: Oid64)
    ensures Fits(Truncated(o))
    ensures Truncated(o) == o <==> Fits(o)
  {
    if Truncated(o) == o {
      forall i | 0 <= i < |o| ensures o[i] <= MAXSUBID { assert o[i] == Truncated(o)[i]; }
    }
  }

  /** What a decoder makes of a first number f followed by the rest of o. */
  lemma ParseNumbers(o: Oid64, f: nat, n: nat)
    requires 2 <= |o| <= n && f < TWO64
    ensures ParseOidContent(Base128(f) + Subids(Truncated(o[2..])), n) ==
            if f > MAXSUBID then None else Some(SplitFirst([f] + Truncated(o[2..])))
  {
    hide Base128, TakeSub, TakeSubs;
    var t := Truncated(o[2..]);
    var vs := [f] + t;
    TruncatedSame(o[2..]);
    assert vs[1..] == t;
    assert Subids(vs) == Base128(f) + Subids(t);
    forall i | 0 <= i < |vs| ensures vs[i] < TWO64 && (i > 0 ==> vs[i] <= MAXSUBID) {
      if i > 0 { assert vs[i] == t[i - 1]; }
    }
    assert Fits(vs) <==> f <= MAXSUBID by {
      if Fits(vs) { assert vs[0] <= MAXSUBID; }
    }
    TakeSubsOf(vs, n - 1);
  }

  /** A pair comes out of the splitting exactly when it is in canonical form and makes the number. */
  lemma SplitUnique(f: nat, p: nat, q: nat, a: nat, b: nat)
    requires a <= 2 && (p, q) == if f < 40 then (0, f) else if f < 80 then (1, f - 40) else (2, f - 80)
    ensures p == a && q == b <==> a * 40 + b == f && (a < 2 ==> b <= 39)
  {
  }

  /** The number written is the pair's own exactly when that fits 32 bits. */
  lemma PairFits(s: nat, first: nat, f: nat)
    requires first == s % TWO64 && f <= MAXSUBID && (f == first || (first > MAXSUBID && f == first % TWO32))
    requires s < 2 * TWO64
    ensures s == f <==> s < TWO32
  {
    assert s < TWO64 ==> first == s;
  }

  /** Two sequences with the same start. */
  lemma SameTails(p: seq<nat>, o: seq<nat>, t: seq<nat>)
    requires |o| >= 2 && |p| >= 2 && p[2..] == t
    ensures p == o <==> p[0] == o[0] && p[1] == o[1] && t == o[2..]
  {
    assert o == [o[0], o[1]] + o[2..];
    assert p == [p[0], p[1]] + t;
  }

  lemma TailFits(o: Oid64)
    requires |o| >= 2
    ensures Truncated(o[2..]) == o[2..] <==> forall i | 2 <= i < |o| :: o[i] < TWO32
  {
    TruncatedSame(o[2..]);
    if Fits(o[2..]) {
      forall i | 2 <= i < |o| ensures o[i] < TWO32 { assert o[i] == o[2..][i - 2]; }
    }
  }

  /** Splitting undoes pairing exactly for values in range. */
  lemma SplitPair(o: Oid64, f: nat)
    requires |o| >= 2 && !Refused(o) && f <= MAXSUBID
    requires f == FirstPair(o) || (FirstPair(o) > MAXSUBID && f == FirstPair(o) % TWO32)
    ensures SplitFirst([f] + Truncated(o[2..])) == o <==> InRange(o)
  {
    var t := Truncated(o[2..]);
    var p := SplitFirst([f] + t);
    assert ([f] + t)[0] == f && ([f] + t)[1..] == t;
    assert p[2..] == t;
    SplitUnique(f, p[0], p[1], o[0], o[1]);
    PairFits(o[0] * 40 + o[1], FirstPair(o), f);
    SameTails(p, o, t);
    TailFits(o);
    hide SplitFirst, Truncated, FirstPair;
  }

  /** Parsing undoes building exactly for values in range, whichever builder wrote the octets. */
  lemma OidRoundTrip(o: Oid64, n: nat)
    requires 2 <= |o| <= n && !Refused(o)
    ensures ParseOidContent(ReverseContent(o), n) == Some(o) <==> InRange(o)
    ensures ParseOidContent(ForwardContent(o), n) == Some(o) <==> InRange(o)
  {
    hide Base128, ParseOidContent, SplitFirst, InRange, FirstPair;
    var f := FirstPair(o);
    var g := if f % TWO32 < 0x1000_0000 then f % TWO32 else f % 0x8_0000_0000;
    assert Numbers(o)[1..] == Truncated(o[2..]);
    RoundTripVia(o, f, n);
    RoundTripVia(o, g, n);
  }

  lemma RoundTripVia(o: Oid64, g: nat, n: nat)
    requires 2 <= |o| <= n && !Refused(o)
    requires var f := FirstPair(o); g == f || g == if f % TWO32 < 0x1000_0000 then f % TWO32 else f % 0x8_0000_0000
    ensures ParseOidContent(Base128(g) + Subids(Truncated(o[2..])), n) == Some(o) <==> InRange(o)
  {
    hide Base128, ParseOidContent, SplitFirst, Subids, FirstPair, InRange, Truncated;
    PairInRange(o);
    PairCases(FirstPair(o), g);
    ParseNumbers(o, g, n);
    if g <= MAXSUBID { SplitPair(o, g); }
  }

  /** What the number of the first two subidentifiers can have become. */
  lemma PairCases(f: nat, g: nat)
    requires f < TWO64 && (g == f || g == if f % TWO32 < 0x1000_0000 then f % TWO32 else f % 0x8_0000_0000)
    ensures g <= MAXSUBID ==> g == f || (f > MAXSUBID && g == f % TWO32)
    ensures g < TWO64 && (g > MAXSUBID ==> f > MAXSUBID)
  {
    if g != f {
      if f % TWO32 >= 0x1000_0000 { WideRest(f, f / 0x8_0000_0000, g); }
    }
  }

  lemma WideRest(f: nat, q: nat, g: nat)
    requires f == q * 0x8_0000_0000 + g && g != f
    ensures f >= 0x8_0000_0000 && (g < TWO32 ==> f % TWO32 == g)
  {
    assert f == 8 * q * 0x1_0000_0000 + g;
  }

  lemma PairInRange(o: Oid64)
    requires |o| >= 2
    ensures FirstPair(o) < TWO64 && (InRange(o) ==> FirstPair(o) <= MAXSUBID)
  {
  }

  /** Octets determine an identifier that is in range. */
  lemma OidDistinct(a: Oid64, b: Oid64)
    requires |a| >= 2 && |b| >= 2 && InRange(a) && InRange(b)
    requires ReverseContent(a) == ReverseContent(b)
    ensures a == b
  {
    var n := |a| + |b|;
    OidRoundTrip(a, n);
    OidRoundTrip(b, n);
  }

  /** The guard admits a second subidentifier of 40, which is read back as a different identifier. */
  lemma FortyDecodesDifferently(x: nat)
    requires x < 2
    ensures !Refused([x, 40])
    ensures ParseOidContent(ReverseContent([x, 40]), 2) == Some([x + 1, 0])
  {
    var o: Oid64 := [x, 40];
    var f := x * 40 + 40;
    ParseNumbers(o, f, 2);
    assert o[2..] == [] && Truncated([]) == [];
    assert Numbers(o) == [f] && [f][1..] == [] && [f] + [] == [f];
    assert SplitFirst([f]) == [x + 1, 0];
  }

  lemma {:induction false} TakeSubsBound(s: seq<Byte>, n: nat)
    ensures TakeSubs(s, n).Some? ==> |TakeSubs(s, n).value| <= n && Fits(TakeSubs(s, n).value)
    ensures TakeSubs(s, n).Some? && s != [] ==> TakeSubs(s, n).value != []
    decreases |s|
  {
    if s != [] && n > 0 {
      var t := TakeSub(s, 0);
      TakeSubsBound(s[t.1..], n - 1);
    }
  }

  /** A successful parse never overruns the result array and yields 32-bit subidentifiers. */
  lemma ParseOidBound(s: seq<Byte>, n: nat)
    requires n >= 2
    ensures ParseOidContent(s, n).Some? ==>
              1 <= |ParseOidContent(s, n).value| <= n && Fits(ParseOidContent(s, n).value)
  {
    TakeSubsBound(s, n - 1);
  }

  /** Base 128 forms determine their number. */
  lemma Base128Injective(a: nat, b: nat, x: seq<Byte>, y: seq<Byte>)
    requires a < TWO64 && b < TWO64 && Base128(a) + x == Base128(b) + y
    ensures a == b
  {
    TakeBase128(a, x);
    TakeBase128(b, y);
  }

  /** When the two builders emit the same octets. */
  lemma BuildersAgree(o: Oid64)
    requires !Refused(o)
    ensures ForwardContent(o) == ReverseContent(o) <==>
            if |o| < 2 then o == [0]
            else FirstPair(o) < TWO32 || (FirstPair(o) < 0x8_0000_0000 && FirstPair(o) % TWO32 >= 0x1000_0000)
  {
    hide Base128;
    if |o| == 1 {
      assert o == [o[0]];
    } else if |o| >= 2 {
      var f := FirstPair(o);
      var g := if f % TWO32 < 0x1000_0000 then f % TWO32 else f % 0x8_0000_0000;
      var t := Subids(Truncated(o[2..]));
      assert Numbers(o)[1..] == Truncated(o[2..]);
      assert Subids(Numbers(o)) == Base128(f) + t;
      if ForwardContent(o) == ReverseContent(o) {
        Base128Injective(g, f, t, t);
      }
    }
  }

  /** The identifier 1 alone is 40 to one builder and 1 to the other. */
  lemma OneAloneDiffers()
    ensures ForwardContent([1]) == [40] && ReverseContent([1]) == [1]
  {
  }
}
