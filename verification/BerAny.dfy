/** What the parsers of asn1.c make of octets in any form, not only of those the builders write. */
module BerAny {
  import opened Options
  import opened BerSpec
  import opened BerParse

  // ----- lengths and headers

  /** Octets that say a length: one below 128, or up to eight that a first one announces, leading zeros or not. */
  ghost predicate LengthField(l: seq<Byte>, n: nat) {
    (|l| == 1 && l[0] == n && n < 128) || (2 <= |l| <= 9 && l[0] == 127 + |l| && n == FoldBytes(0, l[1..]))
  }

  /** Every length field is read as the length it says, unless that exceeds a long. */
  lemma LengthOfAny(before: seq<Byte>, l: seq<Byte>, n: nat, rest: seq<Byte>)
    requires LengthField(l, n)
    ensures LengthAt(before + l + rest, |before|) ==
            if n < 0x8000_0000_0000_0000 then Done(Length(n, |before| + |l|)) else Fail
  {
    var mem, at := before + l + rest, |before|;
    assert mem[at] == l[0];
    if |l| > 1 { assert mem[at + 1..at + |l|] == l[1..]; }
  }

  /** The indefinite form and more than eight octets are refused, whatever follows. */
  lemma LengthRefused(before: seq<Byte>, b: Byte, rest: seq<Byte>)
    requires b == 128 || b > 136
    ensures LengthAt(before + [b] + rest, |before|) == Fail
  {
    assert (before + [b] + rest)[|before|] == b;
  }

  /** The octets of LengthBytes say their length. */
  lemma ShortestField(n: nat)
    requires n < TWO64
    ensures LengthField(LengthBytes(n), n)
  {
    if n >= 128 {
      NatBytesLength(n, 8);
      NatRoundTrip(n);
    }
  }

  /** An object with a header of any form. */
  function Object(tag: Byte, l: seq<Byte>, c: seq<Byte>): seq<Byte> {
    [tag] + l + c
  }

  /** A header with any length field is taken exactly when its object fits the octets left and an int. */
  lemma HeaderOfAny(tag: Byte, l: seq<Byte>, n: nat, rest: seq<Byte>, dlen: nat)
    requires LengthField(l, n) && dlen <= |[tag] + l + rest|
    ensures HeaderAt([tag] + l + rest, dlen) ==
            if n <= 0x7FFF_FFFF && 1 + |l| + n <= dlen then Done(Header(tag, 1 + |l|, n)) else Fail
  {
    hide LengthAt, FoldBytes;
    LengthOfAny([tag], l, n, rest);
  }

  /** A long length cut short cannot be read. */
  lemma LengthCutShort(before: seq<Byte>, k: nat, c: seq<Byte>)
    requires 1 <= k <= 8 && |c| < k
    ensures LengthAt(before + [128 + k] + c, |before|) == Unreadable
  {
    assert (before + [128 + k] + c)[|before|] == 128 + k;
  }

  /** The four octets asn_build_sequence writes. */
  function SequenceHeader(tag: Byte, n: nat): seq<Byte> {
    [tag, 0x82, n / 256 % 256, n % 256]
  }

  /** They are read back exactly when the length fits its two octets. */
  lemma SequenceReadBack(tag: Byte, n: nat, c: seq<Byte>, dlen: nat)
    requires 4 + n <= dlen <= |SequenceHeader(tag, n) + c| && n <= 0x7FFF_FFFF
    ensures HeaderAt(SequenceHeader(tag, n) + c, dlen) == Done(Header(tag, 4, n)) <==> n <= 0xFFFF
  {
    var a, b := n / 256 % 256, n % 256;
    SixteenBits(n, n / 0x1_0000, n % 0x1_0000);
    hide HeaderAt;
    TwoOctetField(a, b);
    assert SequenceHeader(tag, n) + c == [tag] + [0x82, a, b] + c;
    HeaderOfAny(tag, [0x82, a, b], n % 0x1_0000, c, dlen);
  }

  lemma SixteenBits(n: nat, q: nat, r: nat)
    requires n == q * 0x1_0000 + r && r < 0x1_0000
    ensures n / 256 % 256 * 256 + n % 256 == r
  {
    assert n / 256 == q * 256 + r / 256 && n % 256 == r % 256;
  }

  lemma TwoOctetField(a: Byte, b: Byte)
    ensures LengthField([0x82, a, b], a * 256 + b)
  {
    TwoOctets(a, b);
    assert [0x82, a, b][1..] == [a, b];
  }

  lemma TwoOctets(a: Byte, b: Byte)
    ensures FoldBytes(0, [a, b]) == a * 256 + b
  {
    assert [a, b][..1] == [a] && [a][..0] == [];
    assert FoldBytes(0, [a]) == a;
  }

  // ----- values

  /** Where the contents stand, and what stands first there. */
  lemma BehindHeader(tag: Byte, l: seq<Byte>, c: seq<Byte>, rest: seq<Byte>, dlen: nat)
    requires LengthField(l, |c|) && |c| <= 0x7FFF_FFFF && |Object(tag, l, c)| <= dlen <= |Object(tag, l, c) + rest|
    ensures var start := 1 + |l|; var mem := Object(tag, l, c) + rest;
            HeaderAt(mem, dlen) == Done(Header(tag, start, |c|)) && mem[start..start + |c|] == c &&
            start + |c| == |Object(tag, l, c)| && (start >= |mem| <==> c + rest == []) &&
            (start < |mem| ==> mem[start] == (c + rest)[0])
  {
    hide LengthField, HeaderAt;
    var mem := Object(tag, l, c) + rest;
    assert mem == [tag] + l + (c + rest);
    HeaderOfAny(tag, l, |c|, c + rest, dlen);
    assert mem[1 + |l|..] == c + rest;
    assert mem[1 + |l|..1 + |l| + |c|] == c;
  }

  /** What asn_parse_int makes of any contents: the sign is that of the octet behind the length, whoever owns it. */
  lemma IntOfAny(tag: Byte, l: seq<Byte>, c: seq<Byte>, rest: seq<Byte>, dlen: nat)
    requires LengthField(l, |c|) && |c| <= 0x7FFF_FFFF && |Object(tag, l, c)| <= dlen <= |Object(tag, l, c) + rest|
    ensures IntAt(Object(tag, l, c) + rest, dlen) ==
            if |c| > 8 then Fail
            else if c + rest == [] then Unreadable
            else Done(Parsed(tag, TruncS(FoldBytes(if (c + rest)[0] >= 128 then -1 else 0, c)), |Object(tag, l, c)|))
  {
    hide FoldBytes, LengthField, HeaderAt, Object;
    BehindHeader(tag, l, c, rest, dlen);
  }

  lemma UnsignedOfAny(tag: Byte, l: seq<Byte>, c: seq<Byte>, rest: seq<Byte>, dlen: nat)
    requires LengthField(l, |c|) && |c| <= 0x7FFF_FFFF && |Object(tag, l, c)| <= dlen <= |Object(tag, l, c) + rest|
    ensures UnsignedAt(Object(tag, l, c) + rest, dlen) ==
            if |c| > 9 || (|c| == 9 && c[0] != 0) then Fail
            else if c + rest == [] then Unreadable
            else Done(Parsed(tag, TruncU(FoldBytes(if (c + rest)[0] >= 128 then TWO64 - 1 else 0, c) % TWO64),
                             |Object(tag, l, c)|))
  {
    hide FoldBytes, LengthField, HeaderAt, Object;
    BehindHeader(tag, l, c, rest, dlen);
  }

  lemma Counter64OfAny(tag: Byte, l: seq<Byte>, c: seq<Byte>, rest: seq<Byte>, dlen: nat)
    requires tag != 0x44 && LengthField(l, |c|) && |c| <= 0x7FFF_FFFF
    requires |Object(tag, l, c)| <= dlen <= |Object(tag, l, c) + rest|
    ensures Counter64At(Object(tag, l, c) + rest, dlen) ==
            if |c| > 9 || (|c| == 9 && c[0] != 0) then Fail
            else if c + rest == [] then Unreadable
            else Done(Parsed(tag, FoldBytes(if (c + rest)[0] >= 128 then 0x00FF_FFFF_00FF_FFFF else 0, c) % TWO64,
                             |Object(tag, l, c)|))
  {
    hide FoldBytes, LengthField, HeaderAt, Object;
    BehindHeader(tag, l, c, rest, dlen);
  }

  lemma StringOfAny(tag: Byte, l: seq<Byte>, c: seq<Byte>, size: nat, rest: seq<Byte>, dlen: nat)
    requires LengthField(l, |c|) && |c| <= 0x7FFF_FFFF && |Object(tag, l, c)| <= dlen <= |Object(tag, l, c) + rest|
    ensures StringAt(Object(tag, l, c) + rest, dlen, size) ==
            if |c| <= size then Done(Parsed(tag, c, |Object(tag, l, c)|)) else Fail
  {
    hide LengthField, HeaderAt, Object;
    BehindHeader(tag, l, c, rest, dlen);
  }

  /** An Opaque of more than twelve octets, or one that does not begin with 9f 76 or 9f 7b, is no counter. */
  lemma OpaqueStays(l: seq<Byte>, c: seq<Byte>, rest: seq<Byte>, dlen: nat)
    requires LengthField(l, |c|) && |c| <= 0x7FFF_FFFF && |Object(0x44, l, c)| <= dlen <= |Object(0x44, l, c) + rest|
    requires |c| > 12 || (|c| >= 1 && c[0] != 0x9F) || (|c| >= 2 && c[1] != 0x76 && c[1] != 0x7B)
    ensures Header64At(Object(0x44, l, c) + rest, dlen) == Done(Header(0x44, 1 + |l|, |c|))
  {
    hide LengthField, HeaderAt;
    BehindHeader(0x44, l, c, rest, dlen);
    assert (Object(0x44, l, c) + rest)[1 + |l|..] == c + rest;
    assert forall k | 0 <= k < |c| :: (Object(0x44, l, c) + rest)[1 + |l| + k] == (c + rest)[k] == c[k];
  }

  /** Any other is: the tag is the second octet, and any length field may follow. */
  lemma OpaqueUnwraps(l: seq<Byte>, tag: Byte, m: seq<Byte>, n: nat, d: seq<Byte>, rest: seq<Byte>, dlen: nat)
    requires (tag == 0x76 || tag == 0x7B) && LengthField(m, n) && 2 + |m| + |d| <= 12
    requires var c := [0x9F, tag] + m + d;
             LengthField(l, |c|) && |Object(0x44, l, c)| <= dlen <= |Object(0x44, l, c) + rest|
    ensures var start := 1 + |l| + 2 + |m|;
            Header64At(Object(0x44, l, [0x9F, tag] + m + d) + rest, dlen) ==
            if n <= 0x7FFF_FFFF && start + n <= dlen then Done(Header(tag, start, n)) else Fail
  {
    hide LengthField, HeaderAt, LengthAt;
    var c := [0x9F, tag] + m + d;
    var mem, k := Object(0x44, l, c) + rest, 1 + |l|;
    BehindHeader(0x44, l, c, rest, dlen);
    var before := [0x44] + l + [0x9F, tag];
    assert mem == before + m + (d + rest);
    assert mem[k] == before[k] == 0x9F && mem[k + 1] == before[k + 1] == tag;
    LengthOfAny(before, m, n, d + rest);
    FieldSizes(m, n);
    FieldSizes(l, |c|);
  }

  lemma FieldSizes(l: seq<Byte>, n: nat)
    requires LengthField(l, n)
    ensures 1 <= |l| <= 9
  {
  }

  // ----- truncation

  /** CHECK_OVERFLOW_S keeps what fits 32 bits; a larger value keeps its residue, a smaller one the residue of its
      negative. */
  lemma TruncatedSigned(v: int)
    ensures -0x8000_0000 <= v <= 0x7FFF_FFFF ==> TruncS(v) == v
    ensures v > 0x7FFF_FFFF ==> 0 <= TruncS(v) < 0x1_0000_0000 && (v - TruncS(v)) % 0x1_0000_0000 == 0
    ensures v < -0x8000_0000 ==> -0x1_0000_0000 < TruncS(v) <= 0 && (v + TruncS(v)) % 0x1_0000_0000 == 0
  {
    Residue(v, v / 0x1_0000_0000, v % 0x1_0000_0000);
  }

  lemma Residue(v: int, q: int, r: int)
    requires v == 0x1_0000_0000 * q + r
    ensures (v - r) % 0x1_0000_0000 == 0
  {
    assert v - r == 0x1_0000_0000 * q;
  }

  lemma TruncatedUnsigned(v: nat)
    ensures 0 <= TruncU(v) < 0x1_0000_0000 && (v - TruncU(v)) % 0x1_0000_0000 == 0
  {
    Residue(v, v / 0x1_0000_0000, v % 0x1_0000_0000);
  }

  // ----- object identifiers

  /** The number the low seven bits of some octets make. */
  ghost function Fold128(acc: nat, s: seq<Byte>): nat
    decreases |s|
  {
    if s == [] then acc else Fold128(acc * 128 + s[0] % 128, s[1..])
  }

  /** Octets with a continuation bit, and one without behind them. */
  ghost predicate Group(g: seq<Byte>) {
    g != [] && g[|g| - 1] < 128 && forall i | 0 <= i < |g| - 1 :: g[i] >= 128
  }

  /** Any group, leading zeros or not, is read as its number modulo 2^64. */
  lemma {:induction false} SubOfAny(g: seq<Byte>, rest: seq<Byte>, acc: nat, a: nat)
    requires Group(g) && acc == a % TWO64
    ensures TakeSub(g + rest, acc) == (Fold128(a, g) % TWO64, |g|)
    decreases |g|
  {
    var s := g + rest;
    SevenMore(a, s[0]);
    if |g| > 1 {
      assert s[1..] == g[1..] + rest;
      SubOfAny(g[1..], rest, (acc * 128 + s[0] % 128) % TWO64, a * 128 + s[0] % 128);
    } else {
      assert g[1..] == [];
    }
  }

  lemma SevenMore(a: nat, b: Byte)
    ensures (a % TWO64 * 128 + b % 128) % TWO64 == (a * 128 + b % 128) % TWO64
  {
    var q, r := a / 0x1_0000_0000_0000_0000, a % 0x1_0000_0000_0000_0000;
    assert a * 128 + b % 128 == (r * 128 + b % 128) + (q * 128) * 0x1_0000_0000_0000_0000;
    MoreWords(r * 128 + b % 128, q * 128);
  }

  /** Octets that all have a continuation bit are taken to the last. */
  lemma {:induction false} SubCut(s: seq<Byte>, acc: nat)
    requires s != [] && forall i | 0 <= i < |s| :: s[i] >= 128
    ensures TakeSub(s, acc).1 == |s|
    decreases |s|
  {
    if |s| > 1 { SubCut(s[1..], (acc * 128 + s[0] % 128) % TWO64); }
  }

  ghost function Concat(gs: seq<seq<Byte>>): seq<Byte> {
    if gs == [] then [] else gs[0] + Concat(gs[1..])
  }

  ghost function Values(gs: seq<seq<Byte>>): (r: seq<nat>)
    ensures |r| == |gs| && forall i | 0 <= i < |gs| :: r[i] == Fold128(0, gs[i]) % TWO64
  {
    seq(|gs|, i requires 0 <= i < |gs| => Fold128(0, gs[i]) % TWO64)
  }

  /** Groups of any form are read as their numbers exactly when there is room for all and each fits 32 bits; octets of a
      group that does not end make the whole fail. */
  lemma {:induction false} SubsOfAny(gs: seq<seq<Byte>>, tail: seq<Byte>, n: nat)
    requires forall i | 0 <= i < |gs| :: Group(gs[i])
    requires forall i | 0 <= i < |tail| :: tail[i] >= 128
    ensures TakeSubs(Concat(gs) + tail, n) ==
            if tail == [] && |gs| <= n && (forall i | 0 <= i < |gs| :: Values(gs)[i] <= 0xFFFF_FFFF)
            then Some(Values(gs)) else None
    decreases |gs|
  {
    hide TakeSub, Fold128;
    var s := Concat(gs) + tail;
    if gs == [] {
      assert s == tail;
      if tail != [] && n > 0 { SubCut(tail, 0); }
    } else {
      hide TakeSubs, Group;
      var g, later := gs[0], Concat(gs[1..]) + tail;
      assert s == g + later;
      if n > 0 {
        NextSub(g, later, n);
        SubsOfAny(gs[1..], tail, n - 1);
        FirstValue(gs);
      }
    }
  }

  /** One group more. */
  lemma NextSub(g: seq<Byte>, later: seq<Byte>, n: nat)
    requires Group(g) && n > 0
    ensures var v := Fold128(0, g) % TWO64;
            TakeSubs(g + later, n) ==
            if v > 0xFFFF_FFFF then None
            else match TakeSubs(later, n - 1) case None => None case Some(vs) => Some([v] + vs)
  {
    hide TakeSub, Fold128;
    var s := g + later;
    SubOfAny(g, later, 0, 0);
    assert s[|g| - 1] == g[|g| - 1] && s[|g|..] == later;
  }

  lemma FirstValue(gs: seq<seq<Byte>>)
    requires gs != []
    ensures Values(gs) == [Fold128(0, gs[0]) % TWO64] + Values(gs[1..])
    ensures forall i | 1 <= i < |gs| :: Values(gs)[i] == Values(gs[1..])[i - 1]
  {
    hide Fold128;
  }

  /** The first number is split so that forty times the first part plus the second makes it again, the first at most
      2 and the second below 40 under 0 and 1; the others follow. */
  lemma SplitLaw(vs: seq<nat>)
    requires vs != []
    ensures var r := SplitFirst(vs);
            |r| == |vs| + 1 && r[2..] == vs[1..] && r[0] * 40 + r[1] == vs[0] && r[0] <= 2 && (r[0] < 2 ==> r[1] < 40)
  {
  }

  /** What asn_parse_objid makes of any contents. */
  lemma ObjidOfAny(tag: Byte, l: seq<Byte>, gs: seq<seq<Byte>>, tail: seq<Byte>, size: nat, rest: seq<Byte>, dlen: nat)
    requires forall i | 0 <= i < |gs| :: Group(gs[i])
    requires forall i | 0 <= i < |tail| :: tail[i] >= 128
    requires var c := Concat(gs) + tail;
             c != [] && LengthField(l, |c|) && |c| <= 0x7FFF_FFFF &&
             |Object(tag, l, c)| <= dlen <= |Object(tag, l, c) + rest| && size >= 2
    ensures var e := Object(tag, l, Concat(gs) + tail);
            ObjidAt(e + rest, dlen, size) ==
            if tail == [] && |gs| < size && (forall i | 0 <= i < |gs| :: Values(gs)[i] <= 0xFFFF_FFFF)
            then Done(Parsed(tag, SplitFirst(Values(gs)), |e|)) else Fail
  {
    hide LengthField, HeaderAt, Object, TakeSubs, SplitFirst;
    BehindHeader(tag, l, Concat(gs) + tail, rest, dlen);
    SubsOfAny(gs, tail, size - 1);
    assert tail == [] && gs == [] ==> Concat(gs) + tail == [];
  }

  /** An array of one entry is too small for any contents; one of none is overrun by a first number that ends and fits
      32 bits. */
  lemma SmallArray(tag: Byte, l: seq<Byte>, gs: seq<seq<Byte>>, tail: seq<Byte>, size: nat, rest: seq<Byte>, dlen: nat)
    requires forall i | 0 <= i < |gs| :: Group(gs[i])
    requires forall i | 0 <= i < |tail| :: tail[i] >= 128
    requires var c := Concat(gs) + tail;
             c != [] && LengthField(l, |c|) && |c| <= 0x7FFF_FFFF &&
             |Object(tag, l, c)| <= dlen <= |Object(tag, l, c) + rest| && size < 2
    ensures ObjidAt(Object(tag, l, Concat(gs) + tail) + rest, dlen, size) ==
            if size == 1 || gs == [] || Values(gs)[0] > 0xFFFF_FFFF then Fail else Unreadable
  {
    hide LengthField, HeaderAt, Object, TakeSub, Fold128;
    var c := Concat(gs) + tail;
    BehindHeader(tag, l, c, rest, dlen);
    if gs == [] {
      assert c == tail;
      SubCut(c, 0);
    } else {
      var g := gs[0];
      assert c == g + (Concat(gs[1..]) + tail);
      SubOfAny(g, Concat(gs[1..]) + tail, 0, 0);
      assert c[|g| - 1] == g[|g| - 1];
    }
  }

  /** An identifier without contents is read as 0, for which two entries are written. */
  lemma NoContents(tag: Byte, l: seq<Byte>, size: nat, rest: seq<Byte>, dlen: nat)
    requires LengthField(l, 0) && |Object(tag, l, [])| <= dlen <= |Object(tag, l, []) + rest|
    ensures ObjidAt(Object(tag, l, []) + rest, dlen, size) ==
            if size >= 2 then Done(Parsed(tag, [0], |Object(tag, l, [])|)) else Unreadable
  {
    hide LengthField, HeaderAt, Object, TakeSubs;
    BehindHeader(tag, l, [], rest, dlen);
  }
}
