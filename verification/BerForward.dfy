/** The forward builders of asn1.c: they fill a buffer from a position, within a number of octets left. */
module BerForward {
  import opened Sequences
  import opened Options
  import opened BerSpec
  import opened BerAny

  /** Null is the NULL return; otherwise the position after the object and the octets then left. */
  datatype Built = Null | Built(next: nat, dlen: nat)

  /** The length field as asn_build_length writes it. */
  function ForwardLength(n: nat): (r: seq<Byte>)
    ensures 1 <= |r| <= 3
  {
    if n < 0x80 then [n] else if n <= 0xFF then [0x81, n] else [0x82, n / 256 % 256, n % 256]
  }

  function ForwardTlv(tag: Byte, content: seq<Byte>): seq<Byte> {
    [tag] + ForwardLength(|content|) + content
  }

  /** The comment on the last branch names its limit: it is exact. */
  lemma ForwardLengthExact(n: nat)
    requires n < TWO64
    ensures ForwardLength(n) == LengthBytes(n) <==> n <= 0xFFFF
  {
    assert NatBytes(n % 256) == [n % 256];
    if n <= 0xFFFF && n > 0xFF {
      assert NatBytes(n) == NatBytes(n / 256) + [n % 256] == [n / 256, n % 256];
    } else if n > 0xFFFF {
      assert |NatBytes(n / 256)| >= 2;
    }
  }

  // ----- eight octets of a machine word

  function LowOctets(u: nat, n: nat): (r: seq<Byte>)
    ensures |r| == n
  {
    if n == 0 then [] else LowOctets(u / 256, n - 1) + [u % 256]
  }

  lemma {:induction false} LowOctetsValue(u: nat, n: nat)
    requires u < Pow256(n)
    ensures FoldBytes(0, LowOctets(u, n)) == u
    decreases n
  {
    if n > 0 {
      LowOctetsValue(u / 256, n - 1);
      assert LowOctets(u, n)[..n - 1] == LowOctets(u / 256, n - 1);
    }
  }

  lemma {:induction false} FoldFromMinusOne(s: seq<Byte>)
    ensures FoldBytes(-1, s) == FoldBytes(0, s) - Pow256(|s|)
    decreases |s|
  {
    if s != [] { FoldFromMinusOne(s[..|s| - 1]); }
  }

  /** Dropping the first octet, and what the first octet weighs. */
  lemma {:induction false} FoldHead(s: seq<Byte>)
    requires s != []
    ensures FoldBytes(0, s) == s[0] * Pow256(|s| - 1) + FoldBytes(0, s[1..])
    ensures 0 <= FoldBytes(0, s[1..]) < Pow256(|s| - 1)
    decreases |s|
  {
    if |s| == 1 {
      assert s[..0] == [] && s[1..] == [];
    } else {
      var t := s[..|s| - 1];
      FoldHead(t);
      assert s[1..][..|s| - 2] == t[1..] && s[1..][|s| - 2] == s[|s| - 1];
      Distribute(s[0], Pow256(|s| - 2));
    }
  }

  lemma Distribute(a: nat, p: nat)
    ensures a * p * 256 == a * (256 * p)
  {
  }

  /** A word seen as eight octets: its first octet, its first nine bits, and a shift by eight. */
  lemma WordParts(s: seq<Byte>, u: nat)
    requires |s| == 8 && u == FoldBytes(0, s)
    ensures u < TWO64
    ensures u / 0x100_0000_0000_0000 == s[0]
    ensures u / 0x80_0000_0000_0000 == (s[0] as int) * 2 + s[1] / 128
    ensures u * 256 % TWO64 == FoldBytes(0, s[1..] + [0])
  {
    assert Pow256(7) == 0x100_0000_0000_0000;
    assert Pow256(6) == 0x1_0000_0000_0000;
    FoldHead(s);
    FoldHead(s[1..]);
    var t := FoldBytes(0, s[1..]);
    assert s[1..][0] == s[1];
    assert (s[1..] + [0])[..7] == s[1..];
    var r := FoldBytes(0, s[1..][1..]);
    WordArith(u, s[0], s[1], t, r);
  }

  lemma WordArith(u: nat, a: Byte, b: Byte, t: nat, r: nat)
    requires u == a * 0x100_0000_0000_0000 + t && t == b * 0x1_0000_0000_0000 + r && r < 0x1_0000_0000_0000
    ensures u / 0x100_0000_0000_0000 == a && u < 0x1_0000_0000_0000_0000
    ensures u / 0x80_0000_0000_0000 == (a as int) * 2 + b / 128
    ensures u * 256 % 0x1_0000_0000_0000_0000 == t * 256
  {
    var c: int, d: int := b / 128, b % 128;
    assert u == ((a as int) * 2 + c) * 0x80_0000_0000_0000 + (d * 0x1_0000_0000_0000 + r);
    assert u * 256 == a * 0x1_0000_0000_0000_0000 + t * 256;
  }

  /** The octets of a word in two's complement. */
  lemma WordSigned(v: int, u: nat)
    requires -TWO63 <= v < TWO63 && u == v % TWO64
    ensures SignedValue(LowOctets(u, 8)) == v
  {
    assert Pow256(8) == TWO64;
    var s := LowOctets(u, 8);
    LowOctetsValue(u, 8);
    WordParts(s, u);
    FoldFromMinusOne(s);
    hide FoldBytes, LowOctets, Pow256;
    SignOfWord(v, u);
  }

  lemma SignOfWord(v: int, u: nat)
    requires -0x8000_0000_0000_0000 <= v < 0x8000_0000_0000_0000 && u == v % 0x1_0000_0000_0000_0000
    ensures u == if v < 0 then v + 0x1_0000_0000_0000_0000 else v
    ensures u / 0x100_0000_0000_0000 >= 128 <==> v < 0
  {
  }

  // ----- the shortest form

  /** A minimal form is the only one its value has. */
  lemma {:induction false} MinimalUnique(s: seq<Byte>)
    requires s != [] && Minimal(s)
    ensures SignedBytes(SignedValue(s)) == s
    decreases |s|
  {
    var t, b := s[..|s| - 1], s[|s| - 1];
    if t == [] {
      assert FoldBytes(-1, []) == -1 && FoldBytes(0, []) == 0;
      assert s == [b];
    } else {
      MinimalUnique(t);
      var w := SignedValue(t);
      assert SignedValue(s) == w * 256 + b;
      if |t| == 1 {
        assert t[..0] == [];
        assert FoldBytes(-1, []) == -1 && FoldBytes(0, []) == 0;
      }
      assert s == t + [b];
    }
  }

  /** Dropping a first octet that repeats the sign keeps the value. */
  lemma DropSign(s: seq<Byte>)
    requires |s| >= 2 && !Minimal(s)
    ensures SignedValue(s[1..]) == SignedValue(s)
  {
    FoldHead(s);
    FoldFromMinusOne(s);
    FoldFromMinusOne(s[1..]);
    assert Pow256(|s|) == 256 * Pow256(|s| - 1);
  }

  function ZeroOctets(n: nat): (r: seq<Byte>)
    ensures |r| == n
  {
    seq(n, i => 0)
  }

  /** Strip octets that repeat the sign: a copy of the word is shifted up while its first nine bits are equal. */
  method Shrink(word: nat, ghost b: seq<Byte>) returns (u: nat, size: nat)
    requires |b| == 8 && word == FoldBytes(0, b)
    ensures 1 <= size <= 8
    ensures b[8 - size..] == SignedBytes(SignedValue(b))
    ensures u == FoldBytes(0, b[8 - size..] + ZeroOctets(8 - size))
  {
    hide SignedBytes, FoldBytes;
    u, size := word, 8;
    assert b[0..] + ZeroOctets(0) == b && b[0..] == b;
    var go := true;
    while go
      invariant 1 <= size <= 8
      invariant SignedValue(b[8 - size..]) == SignedValue(b)
      invariant u == FoldBytes(0, b[8 - size..] + ZeroOctets(8 - size))
      invariant !go ==> Minimal(b[8 - size..])
      decreases size, go
    {
      ghost var s := b[8 - size..] + ZeroOctets(8 - size);
      WordParts(s, u);
      var top := u / 0x80_0000_0000_0000;
      go := (top == 0 || top == 0x1FF) && size > 1;
      if go {
        assert !Minimal(b[8 - size..]);
        DropSign(b[8 - size..]);
        assert b[8 - size..][1..] == b[8 - (size - 1)..];
        assert s[1..] + [0] == b[8 - (size - 1)..] + ZeroOctets(8 - (size - 1));
        u := u * 256 % TWO64;
        size := size - 1;
      }
    }
    MinimalUnique(b[8 - size..]);
  }

  /** Write the first octets of a word, most significant first. */
  method EmitWord(buf: array<Byte>, data: nat, word: nat, size: nat, ghost s: seq<Byte>)
    requires size <= 8 && |s| == 8 && word == FoldBytes(0, s) && data + size <= buf.Length
    modifies buf
    ensures buf[data..data + size] == s[..size]
    ensures buf[..data] == old(buf[..data]) && buf[data + size..] == old(buf[data + size..])
  {
    hide FoldBytes;
    var u: nat, i := word, 0;
    ghost var t := s;
    while i < size
      invariant 0 <= i <= size
      invariant |t| == 8 && u == FoldBytes(0, t) && t[..8 - i] == s[i..]
      invariant buf[data..data + i] == s[..i]
      invariant buf[..data] == old(buf[..data]) && buf[data + i..] == old(buf[data + i..])
    {
      WordParts(t, u);
      assert t[..8 - i][0] == s[i..][0];
      ghost var done := buf[data..data + i];
      buf[data + i] := u / 0x100_0000_0000_0000;
      assert buf[data..data + i + 1] == done + [s[i]];
      u := u * 256 % TWO64;
      assert t[..8 - i][1..] == s[i..][1..];
      t := t[1..] + [0];
      assert t[..8 - (i + 1)] == s[i + 1..];
      i := i + 1;
    }
  }

  // ----- headers

  /** Octets outside [data, data + dlen) are never written. */
  twostate predicate Inside(buf: array<Byte>, data: nat, dlen: nat)
    requires data + dlen <= buf.Length
    reads buf
  {
    buf[..data] == old(buf[..data]) && buf[data + dlen..] == old(buf[data + dlen..])
  }

  method BuildLength(buf: array<Byte>, data: nat, dlen: nat, len: nat) returns (r: Built)
    requires data + dlen <= buf.Length
    modifies buf
    ensures Inside(buf, data, dlen)
    ensures r.Built? <==> dlen >= |ForwardLength(len)|
    ensures r.Built? ==> r == Built(data + |ForwardLength(len)|, dlen - |ForwardLength(len)|)
                         && buf[data..r.next] == ForwardLength(len)
  {
    var k;
    if len < 0x80 {
      if dlen < 1 { return Null; }
      buf[data] := len;
      k := 1;
    } else if len <= 0xFF {
      if dlen < 2 { return Null; }
      buf[data], buf[data + 1] := 0x81, len;
      k := 2;
    } else {
      if dlen < 3 { return Null; }
      buf[data], buf[data + 1], buf[data + 2] := 0x82, len / 256 % 256, len % 256;
      k := 3;
    }
    assert buf[data..data + k] == ForwardLength(len);
    return Built(data + k, dlen - k);
  }

  method BuildHeader(buf: array<Byte>, data: nat, dlen: nat, tag: Byte, len: nat) returns (r: Built)
    requires data + dlen <= buf.Length
    modifies buf
    ensures Inside(buf, data, dlen)
    ensures r.Built? <==> dlen >= 1 + |ForwardLength(len)|
    ensures r.Built? ==> r == Built(data + 1 + |ForwardLength(len)|, dlen - 1 - |ForwardLength(len)|)
                         && buf[data..r.next] == [tag] + ForwardLength(len)
  {
    if dlen < 1 { return Null; }
    buf[data] := tag;
    r := BuildLength(buf, data + 1, dlen - 1, len);
    if r.Built? {
      assert buf[data] == buf[..data + 1][data] == tag;
      assert buf[data..r.next] == [tag] + buf[data + 1..r.next];
    }
    assert buf[..data] == buf[..data + 1][..data];
  }

  /** asn_build_sequence: always the same four octets, whatever the length. */
  method BuildSequence(buf: array<Byte>, data: nat, dlen: nat, tag: Byte, len: nat) returns (r: Built)
    requires data + dlen <= buf.Length
    modifies buf
    ensures Inside(buf, data, dlen)
    ensures r.Built? <==> dlen >= 4
    ensures r.Built? ==> r == Built(data + 4, dlen - 4) && buf[data..r.next] == SequenceHeader(tag, len)
  {
    if dlen < 4 { return Null; }
    buf[data], buf[data + 1] := tag, 0x82;
    buf[data + 2], buf[data + 3] := len / 256 % 256, len % 256;
    assert buf[data..data + 4] == SequenceHeader(tag, len);
    return Built(data + 4, dlen - 4);
  }

  /** What a forward length field says to a parser: the length, or its low sixteen bits. */
  lemma ForwardLengthSays(n: nat)
    ensures LengthField(ForwardLength(n), if n <= 0xFFFF then n else n % 0x1_0000)
  {
    if 0x80 <= n <= 0xFF {
      assert [0x81, n][1..] == [n] && [n][..0] == [];
      assert FoldBytes(0, [n]) == n;
    } else if n > 0xFF {
      SixteenBits(n, n / 0x1_0000, n % 0x1_0000);
      TwoOctetField(n / 256 % 256, n % 256);
    }
  }

  // ----- objects

  method BuildInt(buf: array<Byte>, data: nat, dlen: nat, tag: Byte, v: int) returns (r: Built)
    requires data + dlen <= buf.Length && -TWO63 <= v < TWO63
    modifies buf
    ensures Inside(buf, data, dlen)
    ensures var e := ForwardTlv(tag, IntContent(v));
            (r.Built? <==> dlen >= |e|) && (r.Built? ==> r == Built(data + |e|, dlen - |e|) && buf[data..r.next] == e)
  {
    var integer := v;
    if integer > TWO31 - 1 {
      integer := integer % TWO32;
    } else if integer < -TWO31 {
      integer := 0 - integer % TWO32;
    }
    var word := integer % TWO64;
    WordSigned(integer, word);
    r := BuildShrunk(buf, data, dlen, tag, word, integer);
  }

  /** A second piece goes behind a first one, inside the same room. */
  lemma Appended(was: seq<Byte>, now: seq<Byte>, data: nat, at: nat, end: nat, room: nat, head: seq<Byte>, s: seq<Byte>)
    requires |was| == |now| && data <= at <= end <= room <= |was|
    requires now[..at] == was[..at] && now[end..] == was[end..]
    requires was[data..at] == head && now[at..end] == s
    ensures now[data..end] == head + s
    ensures now[..data] == was[..data] && now[room..] == was[room..]
  {
    assert now[data..at] == now[..at][data..] == was[..at][data..] == head;
    assert now[data..end] == now[data..at] + now[at..end];
    assert now[..data] == now[..at][..data] == was[..at][..data];
    assert now[room..] == now[end..][room - end..] == was[end..][room - end..];
  }

  /** A header and then the first octets of a word. */
  method BuildOctets(buf: array<Byte>, data: nat, dlen: nat, tag: Byte, word: nat, size: nat, ghost s: seq<Byte>)
    returns (r: Built)
    requires data + dlen <= buf.Length && size <= 8 && |s| == 8 && word == FoldBytes(0, s)
    modifies buf
    ensures Inside(buf, data, dlen)
    ensures var e := ForwardTlv(tag, s[..size]);
            (r.Built? <==> dlen >= |e|) && (r.Built? ==> r == Built(data + |e|, dlen - |e|) && buf[data..r.next] == e)
  {
    hide FoldBytes;
    r := BuildHeader(buf, data, dlen, tag, size);
    if r.Null? || r.dlen < size { return Null; }
    ghost var was := buf[..];
    var at := r.next;
    EmitWord(buf, at, word, size, s);
    Appended(was, buf[..], data, at, at + size, data + dlen, [tag] + ForwardLength(size), s[..size]);
    return Built(at + size, r.dlen - size);
  }

  /** The part the signed and unsigned builders share. */
  method BuildShrunk(buf: array<Byte>, data: nat, dlen: nat, tag: Byte, word: nat, ghost v: int) returns (r: Built)
    requires data + dlen <= buf.Length && word < TWO64
    requires SignedValue(LowOctets(word, 8)) == v
    modifies buf
    ensures Inside(buf, data, dlen)
    ensures var e := ForwardTlv(tag, SignedBytes(v));
            (r.Built? <==> dlen >= |e|) && (r.Built? ==> r == Built(data + |e|, dlen - |e|) && buf[data..r.next] == e)
  {
    hide SignedBytes, FoldBytes, SignedValue, LowOctets, ForwardTlv;
    ghost var b := LowOctets(word, 8);
    LowOctetsValue8(word);
    var u, size := Shrink(word, b);
    ghost var s := b[8 - size..] + ZeroOctets(8 - size);
    assert s[..size] == b[8 - size..];
    r := BuildOctets(buf, data, dlen, tag, u, size, s);
  }

  lemma LowOctetsValue8(word: nat)
    requires word < TWO64
    ensures FoldBytes(0, LowOctets(word, 8)) == word
  {
    assert Pow256(8) == TWO64;
    LowOctetsValue(word, 8);
  }

  method BuildUnsigned(buf: array<Byte>, data: nat, dlen: nat, tag: Byte, v: nat) returns (r: Built)
    requires data + dlen <= buf.Length && v < TWO64
    modifies buf
    ensures Inside(buf, data, dlen)
    ensures var e := ForwardTlv(tag, UnsignedContent(v));
            (r.Built? <==> dlen >= |e|) && (r.Built? ==> r == Built(data + |e|, dlen - |e|) && buf[data..r.next] == e)
  {
    var integer := v;
    if integer > TWO32 - 1 { integer := integer % TWO32; }
    r := BuildWord(buf, data, dlen, tag, integer);
  }

  /** asn_build_unsigned_int after truncation, for any word: a zero octet goes before a set first bit. */
  method BuildWord(buf: array<Byte>, data: nat, dlen: nat, tag: Byte, word: nat) returns (r: Built)
    requires data + dlen <= buf.Length && word < TWO64
    modifies buf
    ensures Inside(buf, data, dlen)
    ensures var e := ForwardTlv(tag, SignedBytes(word));
            (r.Built? <==> dlen >= |e|) && (r.Built? ==> r == Built(data + |e|, dlen - |e|) && buf[data..r.next] == e)
  {
    hide SignedBytes, FoldBytes;
    if word / 0x100_0000_0000_0000 < 128 {
      WordSigned(word, word);
      r := BuildShrunk(buf, data, dlen, tag, word, word);
    } else {
      ghost var b := LowOctets(word, 8);
      NullByteForm(word);
      r := BuildHeader(buf, data, dlen, tag, 9);
      if r.Null? || r.dlen < 9 { return Null; }
      ghost var was := buf[..];
      EmitNull(buf, r.next, word, b);
      Appended(was, buf[..], data, r.next, r.next + 9, data + dlen, [tag] + ForwardLength(9), [0] + b);
      return Built(r.next + 9, r.dlen - 9);
    }
  }

  /** A zero octet and then the eight of a word. */
  method EmitNull(buf: array<Byte>, at: nat, word: nat, ghost b: seq<Byte>)
    requires at + 9 <= buf.Length && |b| == 8 && word == FoldBytes(0, b)
    modifies buf
    ensures buf[..][at..at + 9] == [0] + b
    ensures buf[..][..at] == old(buf[..])[..at] && buf[..][at + 9..] == old(buf[..])[at + 9..]
  {
    hide FoldBytes;
    ghost var was := buf[..];
    buf[at] := 0;
    assert buf[..at] == was[..at] && buf[at + 9..] == was[at + 9..];
    EmitWord(buf, at + 1, word, 8, b);
    assert buf[..at] == buf[..at + 1][..at] && buf[at] == buf[..at + 1][at] == 0;
    assert buf[..][at..at + 9] == [0] + buf[at + 1..at + 9];
  }

  lemma NullByteForm(word: nat)
    requires word < TWO64 && word / 0x100_0000_0000_0000 >= 128
    ensures SignedBytes(word) == [0] + LowOctets(word, 8)
    ensures FoldBytes(0, LowOctets(word, 8)) == word
  {
    hide SignedBytes;
    var b := LowOctets(word, 8);
    assert Pow256(8) == TWO64;
    LowOctetsValue(word, 8);
    WordParts(b, word);
    var s: seq<Byte> := [0] + b;
    FoldHead(s);
    assert s[1..] == b;
    MinimalUnique(s);
  }

  lemma Pasted(was: seq<Byte>, now: seq<Byte>, at: nat, s: seq<Byte>)
    requires at + |s| <= |was| && now == was[..at] + s + was[at + |s|..]
    ensures now[..at] == was[..at] && now[at..at + |s|] == s && now[at + |s|..] == was[at + |s|..]
  {
  }

  /** asn_build_string; no octets are given for a null string, and zeros are written then. */
  method BuildString(buf: array<Byte>, data: nat, dlen: nat, tag: Byte, str: Option<seq<Byte>>, strlen: nat)
    returns (r: Built)
    requires data + dlen <= buf.Length && (str.Some? ==> |str.value| == strlen)
    modifies buf
    ensures Inside(buf, data, dlen)
    ensures var e := ForwardTlv(tag, if str.Some? then str.value else ZeroOctets(strlen));
            (r.Built? <==> dlen >= |e|) && (r.Built? ==> r == Built(data + |e|, dlen - |e|) && buf[data..r.next] == e)
  {
    r := BuildHeader(buf, data, dlen, tag, strlen);
    if r.Null? || r.dlen < strlen { return Null; }
    var content := if str.Some? then str.value else ZeroOctets(strlen);
    var at := r.next;
    ghost var was := buf[..];
    CopyInto(buf, at, content);
    Pasted(was, buf[..], at, content);
    Appended(was, buf[..], data, at, at + strlen, data + dlen, [tag] + ForwardLength(strlen), content);
    return Built(at + strlen, r.dlen - strlen);
  }

  // ----- object identifiers

  /** The sizing ladder, applied after truncation. */
  function SizeOf(v: nat): (n: nat)
    ensures 1 <= n <= 5
  {
    if v < 0x80 then 1 else if v < 0x4000 then 2 else if v < 0x20_0000 then 3 else if v < 0x1000_0000 then 4 else 5
  }

  /** The switch that writes a subidentifier in n octets. */
  function SubOctets(v: nat, n: nat): (r: seq<Byte>)
    requires 1 <= n <= 5
    ensures |r| == n
  {
    if n == 1 then [v % 256]
    else if n == 2 then [v / 128 % 128 + 128, v % 128]
    else if n == 3 then [v / 0x4000 % 128 + 128, v / 128 % 128 + 128, v % 128]
    else if n == 4 then [v / 0x20_0000 % 128 + 128, v / 0x4000 % 128 + 128, v / 128 % 128 + 128, v % 128]
    else [v / 0x1000_0000 % 128 + 128, v / 0x20_0000 % 128 + 128, v / 0x4000 % 128 + 128, v / 128 % 128 + 128, v % 128]
  }

  /** A number below 2^35 in the octets its size asks for is its base 128 form. */
  lemma SubOctetsBase128(v: nat)
    requires v < 0x8_0000_0000
    ensures SubOctets(v, SizeOf(v)) == Base128(v)
  {
    Groups(v);
    var a := v / 128;
    var b := a / 128;
    var c := b / 128;
    HighForms(a, b, c);
    if v >= 0x80 { assert Base128(v) == Base128High(a) + [v % 128]; }
  }

  /** The high octets of a subidentifier of up to five octets. */
  lemma HighForms(a: nat, b: nat, c: nat)
    requires b == a / 128 && c == b / 128 && c / 128 < 128
    ensures a < 128 ==> Base128High(a) == [a % 128 + 128]
    ensures b < 128 <= a ==> Base128High(a) == [b % 128 + 128, a % 128 + 128]
    ensures c < 128 <= b ==> Base128High(a) == [c % 128 + 128, b % 128 + 128, a % 128 + 128]
    ensures c >= 128 ==> Base128High(a) == [c / 128 % 128 + 128, c % 128 + 128, b % 128 + 128, a % 128 + 128]
  {
    if a >= 128 {
      assert Base128High(a) == Base128High(b) + [a % 128 + 128];
      if b >= 128 {
        assert Base128High(b) == Base128High(c) + [b % 128 + 128];
        if c >= 128 {
          assert Base128High(c) == Base128High(c / 128) + [c % 128 + 128];
        }
      }
    }
  }

  lemma Groups(v: nat)
    ensures v / 128 / 128 == v / 0x4000 && v / 128 / 128 / 128 == v / 0x20_0000
    ensures v / 128 / 128 / 128 / 128 == v / 0x1000_0000
  {
  }

  /** Sized after truncation but written without it, a first number takes these octets. */
  lemma SubOctetsFirst(f: nat)
    ensures SubOctets(f, SizeOf(f % TWO32)) == ForwardFirst(f)
  {
    hide SubOctets, SizeOf, Base128;
    var t := f % TWO32;
    if t < 0x1000_0000 {
      SmallFirst(f, t);
      SubOctetsBase128(t);
    } else {
      LargeFirst(f, t, f % 0x8_0000_0000);
      SubOctetsBase128(f % 0x8_0000_0000);
    }
  }

  lemma SmallFirst(f: nat, t: nat)
    requires t == f % 0x1_0000_0000 && t < 0x1000_0000
    ensures SubOctets(f, SizeOf(t)) == SubOctets(t, SizeOf(t))
  {
    LowGroups(f, f / 0x1_0000_0000, t);
  }

  lemma LargeFirst(f: nat, t: nat, g: nat)
    requires t == f % 0x1_0000_0000 && g == f % 0x8_0000_0000 && t >= 0x1000_0000
    ensures SizeOf(t) == 5 == SizeOf(g) && SubOctets(f, 5) == SubOctets(g, 5)
  {
    var q := f / 0x8_0000_0000;
    LowGroups(f, q * 8, g);
    TopGroup(f, q, g);
    LowWord(f, q, t, g);
  }

  lemma LowGroups(f: nat, q: nat, t: nat)
    requires f == q * 0x1_0000_0000 + t
    ensures f % 256 == t % 256 && f % 128 == t % 128 && f / 128 % 128 == t / 128 % 128
    ensures f / 0x4000 % 128 == t / 0x4000 % 128 && f / 0x20_0000 % 128 == t / 0x20_0000 % 128
  {
    assert f / 128 == q * 0x200_0000 + t / 128;
    assert f / 0x4000 == q * 0x4_0000 + t / 0x4000;
    assert f / 0x20_0000 == q * 0x800 + t / 0x20_0000;
    SameGroup(f, t, q * 0x200_0000);
    SameGroup(f / 128, t / 128, q * 0x4_0000);
    SameGroup(f / 0x4000, t / 0x4000, q * 0x800);
    SameGroup(f / 0x20_0000, t / 0x20_0000, q * 0x10);
    SameOctet(f, t, q * 0x100_0000);
  }

  lemma SameGroup(x: nat, y: nat, k: nat)
    requires x == k * 128 + y
    ensures x % 128 == y % 128
  {
  }

  lemma SameOctet(x: nat, y: nat, k: nat)
    requires x == k * 256 + y
    ensures x % 256 == y % 256
  {
  }

  lemma LowWord(f: nat, q: nat, t: nat, g: nat)
    requires f == q * 0x8_0000_0000 + g && t == f % 0x1_0000_0000
    ensures t <= g
  {
    assert f == (q * 8) * 0x1_0000_0000 + g;
    assert t == g % 0x1_0000_0000;
  }

  lemma TopGroup(f: nat, q: nat, t: nat)
    requires f == q * 0x8_0000_0000 + t
    ensures f / 0x1000_0000 % 128 == t / 0x1000_0000 % 128
  {
    assert f / 0x1000_0000 == q * 128 + t / 0x1000_0000;
  }

  /** One subidentifier: sized after truncation, written as it is. */
  function Piece(v: nat): seq<Byte> {
    SubOctets(v, SizeOf(v % TWO32))
  }

  function PiecesOf(vals: seq<nat>): seq<Byte> {
    if vals == [] then [] else PiecesOf(vals[..|vals| - 1]) + Piece(vals[|vals| - 1])
  }

  lemma PiecesSnoc(vals: seq<nat>, v: nat)
    ensures PiecesOf(vals + [v]) == PiecesOf(vals) + Piece(v)
  {
    assert (vals + [v])[..|vals|] == vals;
  }

  lemma PiecesEmpty(vals: seq<nat>)
    ensures PiecesOf(vals[..0]) == []
  {
  }

  lemma {:induction false} PiecesPrefix(vals: seq<nat>, i: nat)
    requires i <= |vals|
    ensures |PiecesOf(vals[..i])| <= |PiecesOf(vals)|
    decreases |vals|
  {
    if i < |vals| {
      PiecesPrefix(vals[..|vals| - 1], i);
      assert vals[..|vals| - 1][..i] == vals[..i];
    } else {
      assert vals[..i] == vals;
    }
  }

  /** The numbers the loops run over. */
  function ForwardNumbers(o: Oid64): (r: seq<nat>)
    requires !Refused(o)
    ensures |r| == if |o| < 2 then 1 else |o| - 1
  {
    if |o| == 0 then [0] else if |o| == 1 then [o[0] * 40] else [FirstPair(o)] + Truncated(o[2..])
  }

  /** What one more turn of the output loop adds. */
  lemma PiecesNext(vals: seq<nat>, i: nat)
    requires 1 <= i <= |vals|
    ensures var v := vals[i - 1];
            PiecesOf(vals[..i]) == PiecesOf(vals[..i - 1]) + SubOctets(v, SizeOf(v % TWO32))
    ensures |PiecesOf(vals[..i])| <= |PiecesOf(vals)|
  {
    hide SubOctets, SizeOf, PiecesOf;
    PiecesPrefix(vals, i);
    PiecesSnoc(vals[..i - 1], vals[i - 1]);
    assert vals[..i] == vals[..i - 1] + [vals[i - 1]];
  }

  lemma TruncatedIs(x: nat)
    ensures TruncU(x) == if x > MAXSUBID then x % TWO32 else x
  {
  }

  lemma {:induction false} PiecesSubids(f: nat, t: seq<nat>)
    requires Fits(t)
    ensures PiecesOf([f] + t) == ForwardFirst(f) + Subids(t)
    decreases |t|
  {
    hide SubOctets, SizeOf, Base128, ForwardFirst, PiecesOf;
    SubOctetsFirst(f);
    if t == [] {
      PiecesEmpty([]);
      PiecesSnoc([], f);
      assert [] + [f] == [f] + t;
    } else {
      var u, v := t[..|t| - 1], t[|t| - 1];
      PiecesSubids(f, u);
      SubidsSnoc(u, v);
      assert u + [v] == t && ([f] + u) + [v] == [f] + t;
      PiecesSnoc([f] + u, v);
      SubOctetsBase128(v);
      assert v % TWO32 == v;
    }
  }

  lemma AllPieces(o: Oid64)
    requires !Refused(o)
    ensures PiecesOf(ForwardNumbers(o)) == ForwardContent(o)
  {
    hide Base128, PiecesOf, Subids, Fits;
    if |o| < 2 {
      var f := if |o| == 0 then 0 else o[0] * 40;
      SmallPiece(f);
    } else {
      TruncatedSame(o[2..]);
      PiecesSubids(FirstPair(o), Truncated(o[2..]));
    }
  }

  lemma SmallPiece(f: nat)
    requires f < 128
    ensures PiecesOf([f]) == [f]
  {
    PiecesSnoc([], f);
    assert [] + [f] == [f];
  }

  /** CHECK_OVERFLOW_U and the ladder, on one subidentifier. */
  method SizeOne(val: nat) returns (n: nat)
    ensures n == SizeOf(val % TWO32)
  {
    var t := if val > MAXSUBID then val % TWO32 else val;
    n := if t < 0x80 then 1 else if t < 0x4000 then 2 else if t < 0x20_0000 then 3 else if t < 0x1000_0000 then 4
      else 5;
  }

  /** The first loop: how many octets each subidentifier takes, and all of them. */
  method SizeAll(o: Oid64, first: nat, sizes: array<nat>, n: nat, ghost vals: seq<nat>) returns (asnlength: nat)
    requires n == |vals| + 1 <= sizes.Length && n >= 2 && (n > 2 ==> n <= |o|)
    requires vals[0] == first && forall k | 2 <= k < n :: vals[k - 1] == TruncU(o[k])
    modifies sizes
    ensures asnlength == |PiecesOf(vals)|
    ensures forall k | 1 <= k < n :: sizes[k] == SizeOf(vals[k - 1] % TWO32)
  {
    hide SubOctets, SizeOf;
    var i := 1;
    asnlength := 0;
    while i < n
      invariant 1 <= i <= n
      invariant asnlength == |PiecesOf(vals[..i - 1])|
      invariant forall k | 1 <= k < i :: sizes[k] == SizeOf(vals[k - 1] % TWO32)
    {
      var val := if i == 1 then first else o[i];
      var size := SizeOne(val);
      assert size == SizeOf(vals[i - 1] % TWO32);
      sizes[i] := size;
      PiecesSnoc(vals[..i - 1], vals[i - 1]);
      assert vals[..i] == vals[..i - 1] + [vals[i - 1]];
      asnlength := asnlength + size;
      i := i + 1;
    }
    assert vals[..i - 1] == vals;
  }

  method EmitSub(buf: array<Byte>, data: nat, v: nat, n: nat)
    requires 1 <= n <= 5 && data + n <= buf.Length
    modifies buf
    ensures buf[data..data + n] == SubOctets(v, n)
    ensures buf[..data] == old(buf[..data]) && buf[data + n..] == old(buf[data + n..])
  {
    if n == 1 {
      buf[data] := v % 256;
    } else if n == 2 {
      buf[data], buf[data + 1] := v / 128 % 128 + 128, v % 128;
    } else if n == 3 {
      buf[data], buf[data + 1], buf[data + 2] := v / 0x4000 % 128 + 128, v / 128 % 128 + 128, v % 128;
    } else {
      EmitLong(buf, data, v, n);
      return;
    }
    assert buf[data..data + n] == SubOctets(v, n);
  }

  /** Four octets or five. */
  method EmitLong(buf: array<Byte>, data: nat, v: nat, n: nat)
    requires 4 <= n <= 5 && data + n <= buf.Length
    modifies buf
    ensures buf[data..data + n] == SubOctets(v, n)
    ensures buf[..data] == old(buf[..data]) && buf[data + n..] == old(buf[data + n..])
  {
    if n == 4 {
      buf[data], buf[data + 1] := v / 0x20_0000 % 128 + 128, v / 0x4000 % 128 + 128;
      buf[data + 2], buf[data + 3] := v / 128 % 128 + 128, v % 128;
    } else {
      buf[data], buf[data + 1] := v / 0x1000_0000 % 128 + 128, v / 0x20_0000 % 128 + 128;
      buf[data + 2], buf[data + 3], buf[data + 4] := v / 0x4000 % 128 + 128, v / 128 % 128 + 128, v % 128;
    }
    assert buf[data..data + n] == SubOctets(v, n);
  }

  /** Behind at, the octets of piece have been written over was, up to data. */
  ghost predicate Written(now: seq<Byte>, was: seq<Byte>, at: nat, data: nat, piece: seq<Byte>) {
    && at <= data <= |was| == |now| && now[at..data] == piece
    && now[..at] == was[..at] && now[data..] == was[data..]
  }

  lemma WrittenNone(was: seq<Byte>, at: nat)
    requires at <= |was|
    ensures Written(was, was, at, at, [])
  {
  }

  /** One turn of the second loop. */
  method EmitNext(buf: array<Byte>, at: nat, data: nat, v: nat, n: nat, ghost was: seq<Byte>, ghost piece: seq<Byte>)
    requires 1 <= n <= 5 && data + n <= buf.Length && Written(buf[..], was, at, data, piece)
    modifies buf
    ensures Written(buf[..], was, at, data + n, piece + SubOctets(v, n))
  {
    hide SubOctets;
    ghost var before := buf[..];
    EmitSub(buf, data, v, n);
    Appended(before, buf[..], at, data, data + n, data + n, piece, SubOctets(v, n));
    assert was[data + n..] == was[data..][n..];
    assert before[data + n..] == before[data..][n..];
  }

  /** The second loop: write every subidentifier. */
  method EmitAll(buf: array<Byte>, at: nat, o: Oid64, first: nat, sizes: array<nat>, n: nat, ghost vals: seq<nat>)
    requires n == |vals| + 1 <= sizes.Length && n >= 2 && (n > 2 ==> n <= |o|)
    requires vals[0] == first && forall k | 2 <= k < n :: vals[k - 1] == TruncU(o[k])
    requires forall k | 1 <= k < n :: sizes[k] == SizeOf(vals[k - 1] % TWO32)
    requires at + |PiecesOf(vals)| <= buf.Length && buf as object != sizes
    modifies buf
    ensures Written(buf[..], old(buf[..]), at, at + |PiecesOf(vals)|, PiecesOf(vals))
  {
    hide SubOctets, SizeOf, PiecesOf, TruncU, Written;
    var i, data := 1, at;
    ghost var was := buf[..];
    PiecesEmpty(vals);
    WrittenNone(was, at);
    while i < n
      invariant 1 <= i <= n && data == at + |PiecesOf(vals[..i - 1])|
      invariant Written(buf[..], was, at, data, PiecesOf(vals[..i - 1]))
    {
      PiecesNext(vals, i);
      var val := first;
      if i != 1 {
        val := o[i];
        if val > MAXSUBID { val := val % TWO32; }
        TruncatedIs(o[i]);
      }
      var size := sizes[i];
      EmitNext(buf, at, data, val, size, was, PiecesOf(vals[..i - 1]));
      data := data + size;
      i := i + 1;
    }
    assert vals[..i - 1] == vals;
  }

  /** asn_build_objid. */
  method BuildObjid(buf: array<Byte>, data: nat, dlen: nat, tag: Byte, o: Oid64) returns (r: Built)
    requires data + dlen <= buf.Length
    modifies buf
    ensures Inside(buf, data, dlen)
    ensures r.Built? <==> !Refused(o) && |o| <= 128 && dlen >= |ForwardTlv(tag, ForwardContent(o))|
    ensures r.Built? ==> var e := ForwardTlv(tag, ForwardContent(o));
                         r == Built(data + |e|, dlen - |e|) && buf[data..r.next] == e
  {
    hide TruncU, Refused, ForwardContent, PiecesOf;
    var start := FirstValue(o);
    if start.None? { return Null; }
    var n := if |o| < 2 then 2 else |o|;
    if n > 128 { return Null; }
    AllPieces(o);
    r := BuildPieces(buf, data, dlen, tag, o, start.value, n, ForwardNumbers(o));
  }

  /** The number the first loop starts with, or a refusal. */
  method FirstValue(o: Oid64) returns (val: Option<nat>)
    ensures val.None? <==> Refused(o)
    ensures val.Some? ==> ForwardNumbers(o)[0] == val.value
                          && forall k | 2 <= k < |o| :: ForwardNumbers(o)[k - 1] == TruncU(o[k])
  {
    hide TruncU;
    if |o| == 0 {
      return Some(0);
    } else if o[0] > 2 {
      return None;
    } else if |o| == 1 {
      return Some(o[0] * 40);
    } else {
      if o[1] > 40 && o[0] < 2 { return None; }
      forall k | 2 <= k < |o| ensures ForwardNumbers(o)[k - 1] == TruncU(o[k]) {
        assert ForwardNumbers(o)[k - 1] == Truncated(o[2..])[k - 2] == TruncU(o[2..][k - 2]);
      }
      return Some((o[0] * 40 + o[1]) % TWO64);
    }
  }

  /** Both loops and the header between them. */
  method BuildPieces(buf: array<Byte>, data: nat, dlen: nat, tag: Byte, o: Oid64, first: nat, n: nat,
                     ghost vals: seq<nat>)
    returns (r: Built)
    requires data + dlen <= buf.Length
    requires n == |vals| + 1 <= 128 && n >= 2 && (n > 2 ==> n <= |o|)
    requires vals[0] == first && forall k | 2 <= k < n :: vals[k - 1] == TruncU(o[k])
    modifies buf
    ensures Inside(buf, data, dlen)
    ensures var e := ForwardTlv(tag, PiecesOf(vals));
            (r.Built? <==> dlen >= |e|) && (r.Built? ==> r == Built(data + |e|, dlen - |e|) && buf[data..r.next] == e)
  {
    hide PiecesOf, SizeOf, TruncU;
    var sizes := new nat[128];
    var asnlength := SizeAll(o, first, sizes, n, vals);
    r := BuildHeader(buf, data, dlen, tag, asnlength);
    if r.Null? || r.dlen < asnlength { return Null; }
    ghost var was := buf[..];
    var at := r.next;
    EmitAll(buf, at, o, first, sizes, n, vals);
    Appended(was, buf[..], data, at, at + asnlength, data + dlen, [tag] + ForwardLength(asnlength), PiecesOf(vals));
    return Built(at + asnlength, r.dlen - asnlength);
  }
}
