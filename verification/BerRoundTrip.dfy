/** What the builders write, the parsers of asn1.c read back. */
module BerRoundTrip {
  import opened BerSpec
  import opened BerParse
  import opened BerAny
  import opened BerReverse
  import BerForward

  // ----- one object

  lemma LengthReadBack(n: nat, before: seq<Byte>, rest: seq<Byte>)
    requires n < TWO63
    ensures LengthAt(before + LengthBytes(n) + rest, |before|) == Done(Length(n, |before| + |LengthBytes(n)|))
  {
    var l := LengthBytes(n);
    var mem, at := before + l + rest, |before|;
    assert mem[at] == l[0];
    if n >= 128 {
      NatBytesLength(n, 8);
      NatRoundTrip(n);
      var k := |NatBytes(n)|;
      assert mem[at + 1..at + 1 + k] == NatBytes(n);
    }
  }

  /** A header in front of its contents is read back, and the contents are where it says. */
  lemma HeaderReadBack(tag: Byte, c: seq<Byte>, rest: seq<Byte>, dlen: nat)
    requires |c| <= 0x7FFF_FFFF && |Tlv(tag, c)| <= dlen <= |Tlv(tag, c) + rest|
    ensures var start := 1 + |LengthBytes(|c|)|;
            HeaderAt(Tlv(tag, c) + rest, dlen) == Done(Header(tag, start, |c|)) &&
            (Tlv(tag, c) + rest)[start..start + |c|] == c && start + |c| == |Tlv(tag, c)|
  {
    var l := LengthBytes(|c|);
    var mem := Tlv(tag, c) + rest;
    assert mem == [tag] + l + (c + rest);
    LengthReadBack(|c|, [tag], c + rest);
    NatBytesLength(|c|, 8);
    assert |l| <= 9;
    assert mem[1 + |l|..1 + |l| + |c|] == c;
  }

  /** An integer comes back exactly when it fits 32 bits, signed or unsigned. */
  lemma IntReadBack(tag: Byte, v: int, rest: seq<Byte>, dlen: nat)
    requires |Tlv(tag, IntContent(v))| <= dlen <= |Tlv(tag, IntContent(v)) + rest|
    ensures IntAt(Tlv(tag, IntContent(v)) + rest, dlen) ==
            Done(Parsed(tag, TruncS(TruncS(v)), |Tlv(tag, IntContent(v))|))
    ensures TruncS(TruncS(v)) == v <==> -TWO31 <= v < TWO32
  {
    hide SignedBytes, FoldBytes, LengthBytes, LengthAt, HeaderAt;
    TruncTwice(v);
    var c := IntContent(v);
    HeaderReadBack(tag, c, rest, dlen);
    var start := 1 + |LengthBytes(|c|)|;
    assert (Tlv(tag, c) + rest)[start] == (Tlv(tag, c) + rest)[start..start + |c|][0];
    SignedRoundTrip(TruncS(v));
  }

  /** 2^32 comes back as 0. */
  lemma WideIntLost(tag: Byte)
    ensures var e := Tlv(tag, IntContent(TWO32)); IntAt(e, |e|) == Done(Parsed(tag, 0, |e|))
  {
    var e := Tlv(tag, IntContent(TWO32));
    assert e + [] == e;
    IntReadBack(tag, TWO32, [], |e|);
  }

  /** An unsigned value comes back exactly when it fits 32 bits. */
  lemma UnsignedReadBack(tag: Byte, v: nat, rest: seq<Byte>, dlen: nat)
    requires |Tlv(tag, UnsignedContent(v))| <= dlen <= |Tlv(tag, UnsignedContent(v)) + rest|
    ensures UnsignedAt(Tlv(tag, UnsignedContent(v)) + rest, dlen)
            == Done(Parsed(tag, TruncU(v), |Tlv(tag, UnsignedContent(v))|))
    ensures TruncU(v) == v <==> v < TWO32
  {
    hide SignedBytes, FoldBytes, LengthBytes, LengthAt, HeaderAt;
    var w, c := TruncU(v), UnsignedContent(v);
    HeaderReadBack(tag, c, rest, dlen);
    var start := 1 + |LengthBytes(|c|)|;
    assert (Tlv(tag, c) + rest)[start] == (Tlv(tag, c) + rest)[start..start + |c|][0];
    SignedRoundTrip(w);
    assert w % TWO64 == w;
  }

  /** A Counter64 comes back as the 64-bit number its truncated halves make. */
  lemma Counter64ReadBack(tag: Byte, high: nat, low: nat, rest: seq<Byte>, dlen: nat)
    requires |Tlv(tag, Counter64Content(high, low))| <= dlen <= |Tlv(tag, Counter64Content(high, low)) + rest|
    ensures Counter64At(Tlv(tag, Counter64Content(high, low)) + rest, dlen)
            == Done(Parsed(tag, TruncU(high) * TWO32 + TruncU(low), |Tlv(tag, Counter64Content(high, low))|))
  {
    hide SignedBytes, FoldBytes, LengthBytes, LengthAt, HeaderAt;
    var v, c := TruncU(high) * TWO32 + TruncU(low), Counter64Content(high, low);
    HeaderReadBack(tag, c, rest, dlen);
    var start := 1 + |LengthBytes(|c|)|;
    assert (Tlv(tag, c) + rest)[start] == (Tlv(tag, c) + rest)[start..start + |c|][0];
    SignedRoundTrip(v);
    if |c| == 9 { NineOctets(v); }
    assert v % TWO64 == v;
  }

  /** Nine octets are needed only for a leading zero. */
  lemma NineOctets(v: nat)
    requires v < TWO64 && |SignedBytes(v)| == 9
    ensures SignedBytes(v)[0] == 0
  {
    hide SignedBytes;
    var c := SignedBytes(v);
    SignedRoundTrip(v);
    BerForward.FoldHead(c);
    assert Pow256(8) == TWO64;
  }

  // ----- contents of any form, and octets that are not theirs

  /** When a header cannot be read: nothing there, no length octet, or a long length cut short. */
  lemma HeaderUnreadable(mem: seq<Byte>, dlen: nat)
    requires dlen <= |mem|
    ensures HeaderAt(mem, dlen) == Unreadable <==>
            |mem| < 2 || (129 <= mem[1] <= 136 && |mem| < 2 + (mem[1] - 128))
  {
  }

  /** When asn_parse_int reads beyond its memory: in the header, or behind an object without contents. */
  lemma IntUnreadable(mem: seq<Byte>, dlen: nat)
    requires dlen <= |mem|
    ensures var h := HeaderAt(mem, dlen);
            IntAt(mem, dlen) == Unreadable <==>
            h == Unreadable || (h.Done? && h.value.len == 0 && h.value.start == |mem|)
    ensures var h := HeaderAt(mem, dlen);
            UnsignedAt(mem, dlen) == Unreadable <==>
            h == Unreadable || (h.Done? && h.value.len == 0 && h.value.start == |mem|)
  {
    hide LengthAt;
  }

  /** A length runs out of memory: not even its first octet is there, or not all that this one announces. */
  ghost predicate LengthCut(mem: seq<Byte>, at: nat) {
    at >= |mem| || (129 <= mem[at] <= 136 && at + 1 + (mem[at] - 128) > |mem|)
  }

  /** asn_parse_unsigned_int64 also looks for the two octets of a special tag in a short Opaque, and for the length
      behind them, whether or not the Opaque is long enough to hold these. */
  lemma Counter64Unreadable(mem: seq<Byte>, dlen: nat)
    requires dlen <= |mem|
    ensures var h := Header64At(mem, dlen);
            Counter64At(mem, dlen) == Unreadable <==>
            h == Unreadable || (h.Done? && h.value.len == 0 && h.value.start == |mem|)
    ensures Header64At(mem, dlen) == Unreadable <==>
            var h := HeaderAt(mem, dlen);
            h == Unreadable || (h.Done? && h.value.tag == OPAQUE && h.value.len <= 12 &&
                                var k := h.value.start;
                                k == |mem| || (mem[k] == OPAQUE_TAG1 &&
                                               (k + 1 == |mem| || (Special(mem[k + 1]) && LengthCut(mem, k + 2)))))
  {
    hide HeaderAt, FoldBytes;
  }

  // ----- memory that does not matter

  lemma LengthStays(mem: seq<Byte>, r: seq<Byte>, at: nat)
    requires LengthAt(mem, at) != Unreadable
    ensures LengthAt(mem + r, at) == LengthAt(mem, at)
  {
    hide FoldBytes;
    if mem[at] >= 128 {
      var n := mem[at] - 128;
      if at + 1 + n <= |mem| { assert (mem + r)[at + 1..at + 1 + n] == mem[at + 1..at + 1 + n]; }
    }
  }

  /** A header read inside some memory is the same header in more memory. */
  lemma HeaderStays(mem: seq<Byte>, r: seq<Byte>, dlen: nat)
    requires dlen <= |mem|
    ensures HeaderAt(mem, dlen) != Unreadable ==> HeaderAt(mem + r, dlen) == HeaderAt(mem, dlen)
    ensures Header64At(mem, dlen) != Unreadable ==> Header64At(mem + r, dlen) == Header64At(mem, dlen)
  {
    hide LengthAt;
    if HeaderAt(mem, dlen) != Unreadable {
      LengthStays(mem, r, 1);
      var h := HeaderAt(mem, dlen);
      if Header64At(mem, dlen) != Unreadable && h.Done? && LengthAt(mem, h.value.start + 2) != Unreadable {
        LengthStays(mem, r, h.value.start + 2);
      }
    }
  }

  lemma BehindMemory(mem: seq<Byte>, r: seq<Byte>, a: nat, b: nat)
    requires a <= b <= |mem|
    ensures (mem + r)[a..b] == mem[a..b]
  {
  }

  /** So are the values. */
  lemma ValueStays(mem: seq<Byte>, r: seq<Byte>, dlen: nat)
    requires dlen <= |mem|
    ensures IntAt(mem, dlen) != Unreadable ==> IntAt(mem + r, dlen) == IntAt(mem, dlen)
    ensures UnsignedAt(mem, dlen) != Unreadable ==> UnsignedAt(mem + r, dlen) == UnsignedAt(mem, dlen)
    ensures Counter64At(mem, dlen) != Unreadable ==> Counter64At(mem + r, dlen) == Counter64At(mem, dlen)
  {
    hide HeaderAt, Header64At, FoldBytes;
    HeaderStays(mem, r, dlen);
    var h, g := HeaderAt(mem, dlen), Header64At(mem, dlen);
    if h.Done? { BehindMemory(mem, r, h.value.start, h.value.start + h.value.len); }
    if g.Done? { BehindMemory(mem, r, g.value.start, g.value.start + g.value.len); }
  }

  /** Whether what lies behind a parser's memory can change its answer: exactly when it reads there. */
  lemma IntOwnMemory(mem: seq<Byte>, dlen: nat)
    requires dlen <= |mem|
    ensures (forall r: seq<Byte> :: IntAt(mem + r, dlen) == IntAt(mem, dlen)) <==> IntAt(mem, dlen) != Unreadable
  {
    hide IntAt;
    forall r: seq<Byte> | IntAt(mem, dlen) != Unreadable ensures IntAt(mem + r, dlen) == IntAt(mem, dlen) {
      ValueStays(mem, r, dlen);
    }
    Enough(mem, dlen);
  }

  lemma UnsignedOwnMemory(mem: seq<Byte>, dlen: nat)
    requires dlen <= |mem|
    ensures (forall r: seq<Byte> :: UnsignedAt(mem + r, dlen) == UnsignedAt(mem, dlen))
            <==> UnsignedAt(mem, dlen) != Unreadable
  {
    hide UnsignedAt;
    forall r: seq<Byte> | UnsignedAt(mem, dlen) != Unreadable
      ensures UnsignedAt(mem + r, dlen) == UnsignedAt(mem, dlen)
    {
      ValueStays(mem, r, dlen);
    }
    Enough(mem, dlen);
  }

  lemma Counter64OwnMemory(mem: seq<Byte>, dlen: nat)
    requires dlen <= |mem|
    ensures (forall r: seq<Byte> :: Counter64At(mem + r, dlen) == Counter64At(mem, dlen))
            <==> Counter64At(mem, dlen) != Unreadable
  {
    hide Counter64At;
    forall r: seq<Byte> | Counter64At(mem, dlen) != Unreadable
      ensures Counter64At(mem + r, dlen) == Counter64At(mem, dlen)
    {
      ValueStays(mem, r, dlen);
    }
    Enough(mem, dlen);
  }

  /** With enough octets behind it no parser runs out of memory. */
  lemma Enough(mem: seq<Byte>, dlen: nat)
    requires dlen <= |mem|
    ensures exists r: seq<Byte> :: IntAt(mem + r, dlen) != Unreadable && UnsignedAt(mem + r, dlen) != Unreadable &&
                                   Counter64At(mem + r, dlen) != Unreadable
  {
    hide HeaderAt, Header64At, IntAt, UnsignedAt, Counter64At;
    var r: seq<Byte> := seq(16, _ => 0);
    var more := mem + r;
    assert forall k | |mem| <= k < |more| :: more[k] == 0;
    HeaderUnreadable(more, dlen);
    IntUnreadable(more, dlen);
    Counter64Unreadable(more, dlen);
  }

  /** The value of an INTEGER depends on foreign octets if and only if it has no contents. */
  lemma IntReadsOwn(tag: Byte, c: seq<Byte>)
    requires |c| <= 8
    ensures var e := Tlv(tag, c);
            (forall r: seq<Byte>, s: seq<Byte> | r != [] && s != [] :: IntAt(e + r, |e|) == IntAt(e + s, |e|))
              <==> c != []
  {
    hide IntAt, FoldBytes, LengthBytes;
    var e := Tlv(tag, c);
    forall r: seq<Byte> | r != []
      ensures IntAt(e + r, |e|) == Done(Parsed(tag, TruncS(FoldBytes(if (c + r)[0] >= 128 then -1 else 0, c)), |e|))
    {
      ShortestField(|c|);
      IntOfAny(tag, LengthBytes(|c|), c, r, |e|);
    }
    if c == [] {
      var lo: seq<Byte>, hi: seq<Byte> := [0], [128];
      NoOctets(c);
      assert c + lo == lo && c + hi == hi;
      assert IntAt(e + lo, |e|) != IntAt(e + hi, |e|);
    }
  }

  lemma NoOctets(c: seq<Byte>)
    requires c == []
    ensures forall start :: FoldBytes(start, c) == start
  {
  }

  /** The same for an unsigned value. */
  lemma UnsignedReadsOwn(tag: Byte, c: seq<Byte>)
    requires |c| <= 8 || (|c| == 9 && c[0] == 0)
    ensures var e := Tlv(tag, c);
            (forall r: seq<Byte>, s: seq<Byte> | r != [] && s != [] ::
              UnsignedAt(e + r, |e|) == UnsignedAt(e + s, |e|)) <==> c != []
  {
    hide UnsignedAt, FoldBytes, LengthBytes;
    var e := Tlv(tag, c);
    forall r: seq<Byte> | r != []
      ensures UnsignedAt(e + r, |e|) ==
              Done(Parsed(tag, TruncU(FoldBytes(if (c + r)[0] >= 128 then TWO64 - 1 else 0, c) % TWO64), |e|))
    {
      ShortestField(|c|);
      UnsignedOfAny(tag, LengthBytes(|c|), c, r, |e|);
    }
    if c == [] {
      var lo: seq<Byte>, hi: seq<Byte> := [0], [128];
      NoOctets(c);
      assert c + lo == lo && c + hi == hi;
      assert UnsignedAt(e + lo, |e|) != UnsignedAt(e + hi, |e|);
    }
  }

  /** The same for a 64-bit counter. */
  lemma Counter64ReadsOwn(tag: Byte, c: seq<Byte>)
    requires tag != OPAQUE && (|c| <= 8 || (|c| == 9 && c[0] == 0))
    ensures var e := Tlv(tag, c);
            (forall r: seq<Byte>, s: seq<Byte> | r != [] && s != [] ::
              Counter64At(e + r, |e|) == Counter64At(e + s, |e|)) <==> c != []
  {
    hide Counter64At, FoldBytes, LengthBytes;
    var e := Tlv(tag, c);
    forall r: seq<Byte> | r != []
      ensures Counter64At(e + r, |e|) ==
              Done(Parsed(tag, FoldBytes(if (c + r)[0] >= 128 then START64 else 0, c) % TWO64, |e|))
    {
      ShortestField(|c|);
      Counter64OfAny(tag, LengthBytes(|c|), c, r, |e|);
    }
    if c == [] {
      var lo: seq<Byte>, hi: seq<Byte> := [0], [128];
      NoOctets(c);
      assert c + lo == lo && c + hi == hi;
      assert Counter64At(e + lo, |e|) != Counter64At(e + hi, |e|);
    }
  }

  /** The two octets 02 00 followed by b. */
  lemma EmptyIntReadsOn(b: Byte)
    ensures IntAt([2, 0, b], 2) == Done(Parsed(2, if b >= 128 then -1 else 0, 2))
    ensures IntAt([2, 0], 2) == Unreadable
  {
    assert Object(INTEGER, [0], []) + [b] == [INTEGER, 0, b] && Object(INTEGER, [0], []) + [] == [INTEGER, 0];
    IntOfAny(INTEGER, [0], [], [b], 2);
    IntOfAny(INTEGER, [0], [], [], 2);
    var none: seq<Byte> := [];
    assert none + [b] == [b] && none + none == none;
    NoOctets([]);
  }

  /** A counter inside an Opaque comes back under its special tag. */
  lemma WrappedReadBack(tag: Byte, c: seq<Byte>, rest: seq<Byte>, dlen: nat)
    requires Special(tag) && |c| <= 9
    requires |Tlv(OPAQUE, Wrapped(tag, c))| <= dlen <= |Tlv(OPAQUE, Wrapped(tag, c)) + rest|
    ensures var e := Tlv(OPAQUE, Wrapped(tag, c));
            Header64At(e + rest, dlen) == Done(Header(tag, 5, |c|)) && (e + rest)[5..5 + |c|] == c && |e| == 5 + |c|
  {
    hide HeaderAt, LengthAt;
    var w := Wrapped(tag, c);
    var mem := Tlv(OPAQUE, w) + rest;
    HeaderReadBack(OPAQUE, w, rest, dlen);
    WrappedForm(tag, c);
    assert mem == [OPAQUE, |c| + 3, OPAQUE_TAG1, tag] + LengthBytes(|c|) + (c + rest);
    LengthReadBack(|c|, [OPAQUE, |c| + 3, OPAQUE_TAG1, tag], c + rest);
  }

  /** Whatever the tag, parsing undoes building. */
  lemma Counter64ObjectReadBack(tag: Byte, high: nat, low: nat, rest: seq<Byte>, dlen: nat)
    requires |Counter64Object(tag, high, low)| <= dlen <= |Counter64Object(tag, high, low) + rest|
    ensures Counter64At(Counter64Object(tag, high, low) + rest, dlen)
            == Done(Parsed(tag, TruncU(high) * TWO32 + TruncU(low), |Counter64Object(tag, high, low)|))
    ensures TruncU(high) * TWO32 + TruncU(low) == high * TWO32 + low <==> high < TWO32 && low < TWO32
  {
    hide SignedBytes, FoldBytes, LengthBytes, LengthAt, HeaderAt, Header64At, Tlv;
    SameHalves(high, low);
    if Special(tag) {
      var v, c := TruncU(high) * TWO32 + TruncU(low), Counter64Content(high, low);
      WrappedReadBack(tag, c, rest, dlen);
      var mem := Counter64Object(tag, high, low) + rest;
      assert mem[5] == mem[5..5 + |c|][0];
      SignedRoundTrip(v);
      if |c| == 9 { NineOctets(v); }
      assert v % TWO64 == v;
    } else {
      Counter64ReadBack(tag, high, low, rest, dlen);
    }
  }

  lemma SameHalves(high: nat, low: nat)
    ensures TruncU(high) * TWO32 + TruncU(low) == high * TWO32 + low <==> high < TWO32 && low < TWO32
  {
    assert TruncU(high) <= high && TruncU(low) <= low;
  }

  /** With the first bit set the code starts from halves that lack their top octet, so the value is the two's
      complement one modulo 2^64 exactly for contents of at least five octets. */
  lemma Counter64Negative(c: seq<Byte>)
    requires c != [] && c[0] >= 128
    ensures FoldBytes(START64, c) % TWO64 == SignedValue(c) % TWO64 <==> |c| >= 5
  {
    FoldFrom(c);
    var p := Pow256(|c|);
    StartGap(|c|);
    GapMod(SignedValue(c), (START64 + 1) * p);
  }

  lemma {:induction false} FoldFrom(s: seq<Byte>)
    ensures FoldBytes(START64, s) == FoldBytes(-1, s) + (START64 + 1) * Pow256(|s|)
    decreases |s|
  {
    if s != [] { FoldFrom(s[..|s| - 1]); }
  }

  /** 0x00FFFFFF01000000 times 256^n is a multiple of 2^64 exactly from n = 5 on. */
  lemma {:induction false} StartGap(n: nat)
    ensures (START64 + 1) * Pow256(n) % TWO64 == 0 <==> n >= 5
  {
    if n < 5 {
      StartSmall(n);
    } else if n == 5 {
      assert Pow256(5) == 0x100_0000_0000;
      Multiple((START64 + 1) * Pow256(5), 0xFFFF_FF01);
    } else {
      StartGap(n - 1);
      var x := (START64 + 1) * Pow256(n - 1);
      assert (START64 + 1) * Pow256(n) == 256 * x;
      Multiple(256 * x, 256 * (x / 0x1_0000_0000_0000_0000));
    }
  }

  lemma Multiple(x: int, q: int)
    requires x == q * 0x1_0000_0000_0000_0000
    ensures x % 0x1_0000_0000_0000_0000 == 0
  {
  }

  lemma StartSmall(n: nat)
    requires n < 5
    ensures (START64 + 1) * Pow256(n) % TWO64 != 0
  {
    assert Pow256(0) == 1 && Pow256(1) == 256 && Pow256(2) == 0x1_0000;
    assert Pow256(3) == 0x100_0000 && Pow256(4) == 0x1_0000_0000;
    assert START64 + 1 == 0xFF_FFFF_0100_0000;
    assert 0xFF_FFFF_0100_0000 * 256 == 0xFFFF_FF01_0000_0000;
    assert 0xFF_FFFF_0100_0000 * 0x1_0000 == 0xFF * 0x1_0000_0000_0000_0000 + 0xFFFF_0100_0000_0000;
    assert 0xFF_FFFF_0100_0000 * 0x100_0000 == 0xFFFF * 0x1_0000_0000_0000_0000 + 0xFF01_0000_0000_0000;
    assert 0xFF_FFFF_0100_0000 * 0x1_0000_0000 == 0xFF_FFFF * 0x1_0000_0000_0000_0000 + 0x0100_0000_0000_0000;
  }

  lemma GapMod(a: int, d: int)
    ensures (a + d) % TWO64 == a % TWO64 <==> d % TWO64 == 0
  {
  }

  lemma StringReadBack(tag: Byte, s: seq<Byte>, size: nat, rest: seq<Byte>, dlen: nat)
    requires |s| <= 0x7FFF_FFFF && |Tlv(tag, s)| <= dlen <= |Tlv(tag, s) + rest|
    ensures StringAt(Tlv(tag, s) + rest, dlen, size) == if |s| <= size then Done(Parsed(tag, s, |Tlv(tag, s)|))
            else Fail
  {
    HeaderReadBack(tag, s, rest, dlen);
  }

  /** An identifier of at least two subidentifiers comes back exactly when it is in range. */
  lemma ObjidReadBack(tag: Byte, o: Oid64, size: nat, rest: seq<Byte>, dlen: nat)
    requires 2 <= |o| <= size && !Refused(o) && |ReverseContent(o)| <= 0x7FFF_FFFF
    requires |Tlv(tag, ReverseContent(o))| <= dlen <= |Tlv(tag, ReverseContent(o)) + rest|
    ensures ObjidAt(Tlv(tag, ReverseContent(o)) + rest, dlen, size) ==
            Done(Parsed(tag, o, |Tlv(tag, ReverseContent(o))|))
            <==> InRange(o)
  {
    hide ReverseContent, InRange, ParseOidContent, LengthBytes, LengthAt, HeaderAt;
    HeaderReadBack(tag, ReverseContent(o), rest, dlen);
    OidRoundTrip(o, size);
  }

  /** Forward and reverse builders write the same object whenever they agree on the contents, up to 0xFFFF octets. */
  lemma ForwardIsReverse(tag: Byte, c: seq<Byte>)
    requires |c| < TWO64
    ensures BerForward.ForwardTlv(tag, c) == Tlv(tag, c) <==> |c| <= 0xFFFF
  {
    var f, l := BerForward.ForwardLength(|c|), LengthBytes(|c|);
    BerForward.ForwardLengthExact(|c|);
    hide LengthBytes;
    if BerForward.ForwardTlv(tag, c) == Tlv(tag, c) {
      assert |f| == |l|;
      assert f == BerForward.ForwardTlv(tag, c)[1..1 + |f|];
      assert l == Tlv(tag, c)[1..1 + |l|];
    }
  }

  /** Contents of 0x10000 octets: the forward length field says 0. */
  lemma LongContentsDiffer(tag: Byte, c: seq<Byte>)
    requires |c| == 0x1_0000
    ensures BerForward.ForwardTlv(tag, c) != Tlv(tag, c) && BerForward.ForwardLength(|c|) == [0x82, 0, 0]
  {
    ForwardIsReverse(tag, c);
  }

  /** For every identifier a forward builder takes, the two builders emit the same object exactly when they agree on
      the contents; so they do for every identifier in range. */
  lemma ObjidObjectsAgree(tag: Byte, o: Oid64)
    requires !Refused(o) && |o| <= 128
    ensures |ForwardContent(o)| <= 0xFFFF && |ReverseContent(o)| <= 0xFFFF
    ensures BerForward.ForwardTlv(tag, ForwardContent(o)) == Tlv(tag, ReverseContent(o)) <==>
            if |o| < 2 then o == [0]
            else FirstPair(o) < TWO32 || (FirstPair(o) < 0x8_0000_0000 && FirstPair(o) % TWO32 >= 0x1000_0000)
    ensures 2 <= |o| && InRange(o) ==> BerForward.ForwardTlv(tag, ForwardContent(o)) == Tlv(tag, ReverseContent(o))
  {
    hide ForwardContent, ReverseContent, LengthBytes, BerForward.ForwardTlv, Tlv;
    var f, r := ForwardContent(o), ReverseContent(o);
    ContentBound(o);
    ForwardIsReverse(tag, f);
    BuildersAgree(o);
    SameTlv(tag, f, r);
    if 2 <= |o| { PairInRange(o); }
  }

  lemma SameTlv(tag: Byte, c: seq<Byte>, d: seq<Byte>)
    requires |c| <= 0xFFFF && |d| <= 0xFFFF
    ensures Tlv(tag, c) == Tlv(tag, d) <==> c == d
  {
    hide HeaderAt, LengthBytes, Tlv;
    var e, g := Tlv(tag, c), Tlv(tag, d);
    assert e + [] == e && g + [] == g;
    HeaderReadBack(tag, c, [], |e|);
    HeaderReadBack(tag, d, [], |g|);
  }

  // ----- lists of values

  datatype Value =
    | Integer(v: int)
    | Unsigned(tag: Byte, u: nat)
    | Counter64(high: nat, low: nat)
    | OctetString(s: seq<Byte>)
    | ObjectId(o: Oid64)

  const INTEGER: Byte := 0x02
  const STRING: Byte := 0x04
  const OBJID: Byte := 0x06
  const COUNTER: Byte := 0x41
  const GAUGE: Byte := 0x42
  const TICKS: Byte := 0x43
  const COUNTER64: Byte := 0x46

  /** Values the types of the standard allow, small enough for the result buffers of the parser. */
  ghost predicate Sound(v: Value, strsize: nat, oidsize: nat) {
    match v
    case Integer(i) => -TWO31 <= i < TWO32
    case Unsigned(tag, u) => tag in {COUNTER, GAUGE, TICKS} && u < TWO32
    case Counter64(high, low) => high < TWO32 && low < TWO32
    case OctetString(s) => |s| <= strsize && |s| <= 0x7FFF_FFFF
    case ObjectId(o) => 2 <= |o| <= oidsize && InRange(o) && |ReverseContent(o)| <= 0x7FFF_FFFF
  }

  ghost predicate AllSound(vs: seq<Value>, strsize: nat, oidsize: nat) {
    forall i | 0 <= i < |vs| :: Sound(vs[i], strsize, oidsize)
  }

  /** Arguments a caller in C can pass and the builders do not refuse. */
  ghost predicate Encodable(v: Value) {
    (v.Integer? ==> -TWO63 <= v.v < TWO63) &&
    (v.Unsigned? ==> v.u < TWO64) &&
    (v.Counter64? ==> v.high < TWO64 && v.low < TWO64) &&
    (v.OctetString? ==> |v.s| < TWO64) &&
    (v.ObjectId? ==> Addressable(v.o) && !Refused(v.o) && |ReverseContent(v.o)| < TWO64)
  }

  function Encode(v: Value): (r: seq<Byte>)
    requires Encodable(v)
    ensures |r| >= 2
  {
    match v
    case Integer(i) => Tlv(INTEGER, IntContent(i))
    case Unsigned(tag, u) => Tlv(tag, UnsignedContent(u))
    case Counter64(high, low) => Tlv(COUNTER64, Counter64Content(high, low))
    case OctetString(s) => Tlv(STRING, s)
    case ObjectId(o) => Tlv(OBJID, ReverseContent(o))
  }

  /** The tags of the standard: 2, 4 and 6, and 41, 42, 43 and 46 for the application types of RFC 2578. */
  lemma EncodeTag(v: Value, strsize: nat, oidsize: nat)
    requires Encodable(v)
    ensures Encode(v)[0] == match v
                            case Integer(_) => 0x02
                            case Unsigned(tag, _) => tag
                            case Counter64(_, _) => 0x46
                            case OctetString(_) => 0x04
                            case ObjectId(_) => 0x06
    ensures v.Unsigned? ==> (Sound(v, strsize, oidsize) <==> v.tag in {0x41, 0x42, 0x43} && v.u < 0x1_0000_0000)
  {
    hide IntContent, UnsignedContent, Counter64Content, ReverseContent;
  }

  /** One value, its parser chosen by its tag. */
  function ValueAt(mem: seq<Byte>, dlen: nat, strsize: nat, oidsize: nat): (r: Outcome<Parsed<Value>>)
    requires 0 < dlen <= |mem|
    ensures r.Done? ==> 2 <= r.value.used <= dlen
  {
    if mem[0] == INTEGER then
      match IntAt(mem, dlen)
      case Fail => Fail
      case Unreadable => Unreadable
      case Done(p) => Done(Parsed(p.tag, Integer(p.value), p.used))
    else if mem[0] in {COUNTER, GAUGE, TICKS} then
      match UnsignedAt(mem, dlen)
      case Fail => Fail
      case Unreadable => Unreadable
      case Done(p) => Done(Parsed(p.tag, Unsigned(p.tag, p.value), p.used))
    else if mem[0] == COUNTER64 then
      match Counter64At(mem, dlen)
      case Fail => Fail
      case Unreadable => Unreadable
      case Done(p) => Done(Parsed(p.tag, Counter64(p.value / TWO32, p.value % TWO32), p.used))
    else if mem[0] == STRING then
      match StringAt(mem, dlen, strsize)
      case Fail => Fail
      case Unreadable => Unreadable
      case Done(p) => Done(Parsed(p.tag, OctetString(p.value), p.used))
    else if mem[0] == OBJID then
      match ObjidAt(mem, dlen, oidsize)
      case Fail => Fail
      case Unreadable => Unreadable
      case Done(p) => Done(Parsed(p.tag, ObjectId(p.value), p.used))
    else Fail
  }

  ghost predicate AllEncodable(vs: seq<Value>) {
    forall i | 0 <= i < |vs| :: Encodable(vs[i])
  }

  function EncodeAll(vs: seq<Value>): seq<Byte>
    requires AllEncodable(vs)
  {
    if vs == [] then [] else Encode(vs[0]) + EncodeAll(vs[1..])
  }

  /** Contents too long for a header are not read at all. */
  lemma HeaderTooLong(tag: Byte, c: seq<Byte>, rest: seq<Byte>, dlen: nat)
    requires 0x7FFF_FFFF < |c| < TWO64 && |Tlv(tag, c)| <= dlen <= |Tlv(tag, c) + rest|
    ensures HeaderAt(Tlv(tag, c) + rest, dlen) == Fail
  {
    hide LengthAt, LengthBytes;
    assert Tlv(tag, c) + rest == [tag] + LengthBytes(|c|) + (c + rest);
    if |c| < TWO63 { LengthReadBack(|c|, [tag], c + rest); } else { LengthTooLong(|c|, [tag], c + rest); }
  }

  lemma LengthTooLong(n: nat, before: seq<Byte>, rest: seq<Byte>)
    requires TWO63 <= n < TWO64
    ensures LengthAt(before + LengthBytes(n) + rest, |before|) == Fail
  {
    hide FoldBytes, NatBytes;
    NatBytesLength(n, 8);
    NatRoundTrip(n);
    var l, k, at := LengthBytes(n), |NatBytes(n)|, |before|;
    var mem := before + l + rest;
    assert mem[at] == l[0] == 128 + k;
    assert mem[at + 1..at + 1 + k] == l[1..] == NatBytes(n);
  }

  lemma StringLost(tag: Byte, s: seq<Byte>, size: nat, rest: seq<Byte>, dlen: nat)
    requires (|s| > size || |s| > 0x7FFF_FFFF) && |s| < TWO64
    requires |Tlv(tag, s)| <= dlen <= |Tlv(tag, s) + rest|
    ensures StringAt(Tlv(tag, s) + rest, dlen, size) == Fail
  {
    hide HeaderAt;
    if |s| > 0x7FFF_FFFF { HeaderTooLong(tag, s, rest, dlen); } else { StringReadBack(tag, s, size, rest, dlen); }
  }

  /** An identifier that is too short, too long for the result array or the header, or out of range, is not read
      back. */
  lemma ObjidLost(tag: Byte, o: Oid64, size: nat, rest: seq<Byte>, dlen: nat)
    requires !Refused(o) && |ReverseContent(o)| < TWO64
    requires |Tlv(tag, ReverseContent(o))| <= dlen <= |Tlv(tag, ReverseContent(o)) + rest|
    ensures var r := ObjidAt(Tlv(tag, ReverseContent(o)) + rest, dlen, size);
            r.Done? && r.value.value == o ==> 2 <= |o| <= size && |ReverseContent(o)| <= 0x7FFF_FFFF && InRange(o)
  {
    hide InRange, HeaderAt, LengthBytes, TakeSubs, Subids;
    var c := ReverseContent(o);
    if |c| > 0x7FFF_FFFF {
      HeaderTooLong(tag, c, rest, dlen);
    } else if |o| < 2 {
      HeaderReadBack(tag, c, rest, dlen);
    } else if |o| <= size {
      hide ReverseContent, ParseOidContent, Tlv;
      ObjidUsed(tag, o, size, rest, dlen);
      ObjidReadBack(tag, o, size, rest, dlen);
    }
  }

  /** Whatever identifier is read, its tag and its length are those of the object. */
  lemma ObjidUsed(tag: Byte, o: Oid64, size: nat, rest: seq<Byte>, dlen: nat)
    requires !Refused(o) && |ReverseContent(o)| <= 0x7FFF_FFFF
    requires |Tlv(tag, ReverseContent(o))| <= dlen <= |Tlv(tag, ReverseContent(o)) + rest|
    ensures var e := Tlv(tag, ReverseContent(o)); var r := ObjidAt(e + rest, dlen, size);
            r.Done? ==> r.value.tag == tag && r.value.used == |e|
  {
    hide ReverseContent, ParseOidContent, HeaderAt, LengthBytes;
    HeaderReadBack(tag, ReverseContent(o), rest, dlen);
  }

  /** One value comes back exactly when it is sound, and then exactly its octets are used. */
  lemma ValueReadBack(v: Value, strsize: nat, oidsize: nat, rest: seq<Byte>, dlen: nat)
    requires Encodable(v) && |Encode(v)| <= dlen <= |Encode(v) + rest|
    ensures var r := ValueAt(Encode(v) + rest, dlen, strsize, oidsize);
            (r.Done? && r.value.value == v <==> Sound(v, strsize, oidsize)) &&
            (Sound(v, strsize, oidsize) ==> r.value.used == |Encode(v)|)
  {
    hide LengthBytes, IntAt, UnsignedAt, Counter64At, StringAt, ObjidAt, IntContent, UnsignedContent, Counter64Content,
      ReverseContent, InRange, TruncS, TruncU;
    assert (Encode(v) + rest)[0] == Encode(v)[0];
    match v
    case Integer(i) => IntReadBack(INTEGER, i, rest, dlen);
    case Unsigned(tag, u) => UnsignedReadBack(tag, u, rest, dlen);
    case Counter64(high, low) =>
      Counter64ReadBack(COUNTER64, high, low, rest, dlen);
      HalvesBack(high, low);
    case OctetString(s) =>
      if |s| <= strsize && |s| <= 0x7FFF_FFFF {
        StringReadBack(STRING, s, strsize, rest, dlen);
      } else {
        StringLost(STRING, s, strsize, rest, dlen);
      }
    case ObjectId(o) =>
      ObjidLost(OBJID, o, oidsize, rest, dlen);
      if 2 <= |o| <= oidsize && |ReverseContent(o)| <= 0x7FFF_FFFF { ObjidReadBack(OBJID, o, oidsize, rest, dlen); }
  }

  lemma HalvesBack(high: nat, low: nat)
    ensures var n := TruncU(high) * TWO32 + TruncU(low);
            n / TWO32 == high && n % TWO32 == low <==> high < TWO32 && low < TWO32
  {
    var a, b := TruncU(high), TruncU(low);
    assert a < TWO32 && b < TWO32;
    assert (a * TWO32 + b) / TWO32 == a && (a * TWO32 + b) % TWO32 == b;
  }

  /** Values are read while octets are left. */
  function ListAt(mem: seq<Byte>, dlen: nat, strsize: nat, oidsize: nat): Outcome<seq<Value>>
    requires dlen <= |mem|
    decreases dlen
  {
    if dlen == 0 then Done([])
    else match ValueAt(mem, dlen, strsize, oidsize)
      case Fail => Fail
      case Unreadable => Unreadable
      case Done(p) =>
        match ListAt(mem[p.used..], dlen - p.used, strsize, oidsize)
        case Fail => Fail
        case Unreadable => Unreadable
        case Done(vs) => Done([p.value] + vs)
  }

  /** A whole list comes back exactly when all its values are sound, whatever follows it in memory. */
  lemma {:induction false} ListReadBack(vs: seq<Value>, strsize: nat, oidsize: nat, rest: seq<Byte>)
    requires AllEncodable(vs)
    ensures ListAt(EncodeAll(vs) + rest, |EncodeAll(vs)|, strsize, oidsize) == Done(vs)
            <==> AllSound(vs, strsize, oidsize)
    decreases |vs|
  {
    hide Encode, ValueAt, Sound, Encodable;
    if vs != [] {
      var e, later := Encode(vs[0]), EncodeAll(vs[1..]);
      var mem := EncodeAll(vs) + rest;
      assert mem == e + (later + rest);
      ValueReadBack(vs[0], strsize, oidsize, later + rest, |EncodeAll(vs)|);
      SoundSplits(vs, strsize, oidsize);
      var p := ValueAt(mem, |EncodeAll(vs)|, strsize, oidsize);
      if Sound(vs[0], strsize, oidsize) {
        assert mem[|e|..] == later + rest;
        ListReadBack(vs[1..], strsize, oidsize, rest);
        FirstThenRest(vs[0], ListAt(later + rest, |later|, strsize, oidsize), vs);
      } else if p.Done? {
        FirstThenRest(p.value.value, ListAt(mem[p.value.used..], |EncodeAll(vs)| - p.value.used, strsize, oidsize), vs);
      }
    }
  }

  lemma SoundSplits(vs: seq<Value>, strsize: nat, oidsize: nat)
    requires vs != []
    ensures AllSound(vs, strsize, oidsize) <==> Sound(vs[0], strsize, oidsize) && AllSound(vs[1..], strsize, oidsize)
  {
    hide Sound;
    if Sound(vs[0], strsize, oidsize) && AllSound(vs[1..], strsize, oidsize) {
      forall i | 0 <= i < |vs| ensures Sound(vs[i], strsize, oidsize) {
        if i > 0 { assert vs[i] == vs[1..][i - 1]; }
      }
    }
  }

  /** A list read value by value is the wanted one exactly when its first value and the rest are. */
  lemma FirstThenRest(v: Value, later: Outcome<seq<Value>>, vs: seq<Value>)
    requires vs != []
    ensures Joined([v], later) == Done(vs) <==> v == vs[0] && later == Done(vs[1..])
  {
    assert vs == [vs[0]] + vs[1..];
    if later.Done? {
      var t := [v] + later.value;
      assert t[0] == v && t[1..] == later.value;
    }
  }

  // ----- the list theorem on the methods

  method BuildValue(p: Packet, r: bool, v: Value) returns (ok: bool)
    requires p.Valid() && Encodable(v)
    modifies p, p.pkt
    ensures p.Valid() && (p.pkt == old(p.pkt) || fresh(p.pkt)) && (!r ==> p.pkt == old(p.pkt))
    ensures Prepended(old(p.Out()), old(p.Room()), p.Out(), r, p.Grows(), ok, Encode(v))
  {
    hide Prepended, Tlv, IntContent, UnsignedContent, Counter64Content, ReverseContent, Refused;
    match v
    case Integer(i) => ok := p.BuildInt(r, INTEGER, i);
    case Unsigned(tag, u) => ok := p.BuildUnsigned(r, tag, u);
    case Counter64(high, low) => ok := p.BuildCounter64(r, COUNTER64, high, low);
    case OctetString(s) => ok := p.BuildString(r, STRING, s);
    case ObjectId(o) => ok := p.BuildObjid(r, OBJID, o);
  }

  /** The octets of some last values are no more than those of all. */
  lemma {:induction false} EncodeSuffix(vs: seq<Value>, i: nat)
    requires AllEncodable(vs) && i <= |vs|
    ensures |EncodeAll(vs[i..])| <= |EncodeAll(vs)|
    decreases i
  {
    if i > 0 {
      EncodeSuffix(vs[1..], i - 1);
      assert vs[1..][i - 1..] == vs[i..];
    } else {
      assert vs[0..] == vs;
    }
  }

  /** A list is built back to front. */
  method BuildList(p: Packet, r: bool, vs: seq<Value>) returns (ok: bool)
    requires p.Valid() && AllEncodable(vs)
    modifies p, p.pkt
    ensures p.Valid() && (p.pkt == old(p.pkt) || fresh(p.pkt)) && (!r ==> p.pkt == old(p.pkt))
    ensures Prepended(old(p.Out()), old(p.Room()), p.Out(), r, p.Grows(), ok, EncodeAll(vs))
  {
    hide Prepended, Encode, Encodable, Packet.Out;
    ghost var was, room := p.Out(), p.Room();
    var i := |vs|;
    assert EncodeAll(vs[i..]) == [];
    Nothing(was, room, r, p.Grows());
    ok := true;
    while i > 0
      invariant p.Valid() && (p.pkt == old(p.pkt) || fresh(p.pkt)) && (!r ==> p.pkt == old(p.pkt))
      invariant 0 <= i <= |vs| && ok && Prepended(was, room, p.Out(), r, p.Grows(), true, EncodeAll(vs[i..]))
    {
      ghost var mid, left, e := p.Out(), p.Room(), EncodeAll(vs[i..]);
      Grown(was, room, mid, r, p.Grows(), e);
      ok := BuildValue(p, r, vs[i - 1]);
      Then(was, room, mid, left, p.Out(), r, p.Grows(), ok, e, Encode(vs[i - 1]));
      assert vs[i - 1..][1..] == vs[i..];
      i := i - 1;
      if !ok {
        EncodeSuffix(vs, i);
        Fails(was, room, p.Out(), r, p.Grows(), EncodeAll(vs[i..]), EncodeAll(vs));
        return;
      }
    }
    assert vs[0..] == vs;
  }

  method ParseValue(mem: seq<Byte>, dlen: nat, strsize: nat, oidsize: nat) returns (r: Outcome<Parsed<Value>>)
    requires 0 < dlen <= |mem|
    ensures r == ValueAt(mem, dlen, strsize, oidsize)
  {
    hide IntAt, UnsignedAt, Counter64At, StringAt, ObjidAt;
    if mem[0] == INTEGER {
      var p := ParseInt(mem, dlen);
      r := match p case Fail => Fail case Unreadable => Unreadable
           case Done(x) => Done(Parsed(x.tag, Integer(x.value), x.used));
    } else if mem[0] in {COUNTER, GAUGE, TICKS} {
      var p := ParseUnsigned(mem, dlen);
      r := match p case Fail => Fail case Unreadable => Unreadable
           case Done(x) => Done(Parsed(x.tag, Unsigned(x.tag, x.value), x.used));
    } else if mem[0] == COUNTER64 {
      var p := ParseCounter64(mem, dlen);
      r := match p case Fail => Fail case Unreadable => Unreadable
           case Done(x) => Done(Parsed(x.tag, Counter64(x.value.0, x.value.1), x.used));
    } else if mem[0] == STRING {
      var str := new Byte[strsize];
      var p := ParseString(mem, dlen, str);
      r := match p case Fail => Fail case Unreadable => Unreadable
           case Done(x) => Done(Parsed(x.tag, OctetString(str[..x.value]), x.used));
    } else if mem[0] == OBJID {
      var objid := new nat[oidsize];
      var p := ParseObjid(mem, dlen, objid);
      r := match p case Fail => Fail case Unreadable => Unreadable
           case Done(x) => Done(Parsed(x.tag, ObjectId(objid[..x.value]), x.used));
    } else {
      r := Fail;
    }
  }

  ghost function Joined(read: seq<Value>, later: Outcome<seq<Value>>): Outcome<seq<Value>> {
    match later
    case Fail => Fail
    case Unreadable => Unreadable
    case Done(vs) => Done(read + vs)
  }

  lemma JoinedStep(read: seq<Value>, v: Value, later: Outcome<seq<Value>>)
    ensures Joined(read + [v], later) == Joined(read, Joined([v], later))
    ensures Joined([], later) == later
  {
    if later.Done? {
      assert (read + [v]) + later.value == read + ([v] + later.value);
      assert [] + later.value == later.value;
    }
  }

  method ParseList(mem: seq<Byte>, dlen: nat, strsize: nat, oidsize: nat) returns (r: Outcome<seq<Value>>)
    requires dlen <= |mem|
    ensures r == ListAt(mem, dlen, strsize, oidsize)
  {
    hide ValueAt;
    var at: nat, left: nat, read := 0, dlen, [];
    assert mem[0..] == mem;
    JoinedStep([], Integer(0), ListAt(mem, dlen, strsize, oidsize));
    while left > 0
      invariant 0 <= at && 0 <= left && at + left == dlen
      invariant ListAt(mem, dlen, strsize, oidsize) == Joined(read, ListAt(mem[at..], left, strsize, oidsize))
      decreases left
    {
      var p := ParseValue(mem[at..], left, strsize, oidsize);
      match p {
        case Fail => return Fail;
        case Unreadable => return Unreadable;
        case Done(x) =>
          assert mem[at..][x.used..] == mem[at + x.used..];
          ghost var later := ListAt(mem[at + x.used..], left - x.used, strsize, oidsize);
          assert ListAt(mem[at..], left, strsize, oidsize) == Joined([x.value], later);
          JoinedStep(read, x.value, later);
          read := read + [x.value];
          at, left := at + x.used, left - x.used;
      }
    }
    assert read + [] == read;
    return Done(read);
  }

  /** A list of values built into a packet, with reallocation wherever it is needed, stands in front of what the packet
      held before, and parsing exactly the octets written reads it back if and only if all values are sound. Nothing
      but want of room stops the build: it succeeds when the buffer can grow, and without reallocation exactly when
      there is room for the encoding. */
  method BuildAndParse(p: Packet, r: bool, vs: seq<Value>, strsize: nat, oidsize: nat)
    returns (ok: bool, back: Outcome<seq<Value>>)
    requires p.Valid() && AllEncodable(vs)
    modifies p, p.pkt
    ensures p.Valid()
    ensures Prepended(old(p.Out()), old(p.Room()), p.Out(), r, p.Grows(), ok, EncodeAll(vs))
    ensures EndsWith(p.Out(), old(p.Out())) && (r && p.Grows() ==> ok)
    ensures ok ==> p.Out() == EncodeAll(vs) + old(p.Out())
    ensures ok ==> back == ListAt(p.Out(), |p.Out()| - |old(p.Out())|, strsize, oidsize)
    ensures ok ==> (back == Done(vs) <==> AllSound(vs, strsize, oidsize))
  {
    hide AllSound, AllEncodable, EncodeAll, ListAt, Prepended, Packet.Out;
    ghost var was, room := p.Out(), p.Room();
    var before := p.offset;
    OutSize(p);
    ok := BuildList(p, r, vs);
    PrependedSays(was, room, p.Out(), r, p.Grows(), ok, EncodeAll(vs));
    back := Fail;
    if ok {
      OutSize(p);
      back := ParsePacket(p, p.offset - before, strsize, oidsize);
      ListReadBack(vs, strsize, oidsize, was);
    }
  }

  lemma OutSize(p: Packet)
    requires p.Valid()
    ensures |p.Out()| == p.offset
  {
  }

  lemma PrependedSays(was: seq<Byte>, room: nat, now: seq<Byte>, r: bool, grows: bool, ok: bool, e: seq<Byte>)
    requires Prepended(was, room, now, r, grows, ok, e)
    ensures EndsWith(now, was) && (r && grows ==> ok) && (ok ==> now == e + was && |now| == |e| + |was|)
  {
  }

  /** The first octets of a packet, parsed. */
  method ParsePacket(p: Packet, n: nat, strsize: nat, oidsize: nat) returns (r: Outcome<seq<Value>>)
    requires p.Valid() && n <= |p.Out()|
    ensures r == ListAt(p.Out(), n, strsize, oidsize)
  {
    hide ListAt;
    r := ParseList(p.pkt[p.pkt.Length - p.offset..], n, strsize, oidsize);
  }
}
