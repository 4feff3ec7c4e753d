/** The parsers of asn1.c: loops over memory, each equal to a function of the octets read. */
module BerParse {
  import opened Options
  import opened BerSpec

  /** Unreadable: the parser goes beyond the memory it was given, reading octets or writing its result. */
  datatype Outcome<+T> = Done(value: T) | Fail | Unreadable

  datatype Length = Length(len: nat, next: nat)
  datatype Header = Header(tag: Byte, start: nat, len: nat)
  datatype Parsed<+T> = Parsed(tag: Byte, value: T, used: nat)

  // ----- what each parser computes

  /** A length field at a position: its value and the position after it. */
  function LengthAt(mem: seq<Byte>, at: nat): Outcome<Length> {
    if at >= |mem| then Unreadable
    else if mem[at] < 128 then Done(Length(mem[at], at + 1))
    else
      var n := mem[at] - 128;
      if n == 0 || n > 8 then Fail
      else if at + 1 + n > |mem| then Unreadable
      else
        var v := FoldBytes(0, mem[at + 1..at + 1 + n]);
        if v < 0 || v >= TWO63 then Fail else Done(Length(v, at + 1 + n))
  }

  /** Tag and length, checked against the octets that are left. */
  function HeaderAt(mem: seq<Byte>, dlen: nat): (r: Outcome<Header>)
    requires dlen <= |mem|
    ensures r.Done? ==> 2 <= r.value.start && r.value.start + r.value.len <= dlen && r.value.len <= 0x7FFF_FFFF
  {
    if mem == [] then Unreadable
    else match LengthAt(mem, 1)
      case Fail => Fail
      case Unreadable => Unreadable
      case Done(l) =>
        if l.len > 0x7FFF_FFFF || l.next > 0x7FFF_FFFF || l.len + l.next > dlen then Fail
        else Done(Header(mem[0], l.next, l.len))
  }

  /** asn_parse_int: the sign comes from the octet after the length, even when the contents are empty. */
  function IntAt(mem: seq<Byte>, dlen: nat): Outcome<Parsed<int>>
    requires dlen <= |mem|
  {
    match HeaderAt(mem, dlen)
    case Fail => Fail
    case Unreadable => Unreadable
    case Done(h) =>
      if h.len > 8 then Fail
      else if h.start >= |mem| then Unreadable
      else Done(Parsed(h.tag, TruncS(FoldBytes(if mem[h.start] >= 128 then -1 else 0, mem[h.start..h.start + h.len])),
                       h.start + h.len))
  }

  /** asn_parse_unsigned_int. */
  function UnsignedAt(mem: seq<Byte>, dlen: nat): Outcome<Parsed<nat>>
    requires dlen <= |mem|
  {
    match HeaderAt(mem, dlen)
    case Fail => Fail
    case Unreadable => Unreadable
    case Done(h) =>
      if h.len > 9 || (h.len == 9 && mem[h.start] != 0) then Fail
      else if h.start >= |mem| then Unreadable
      else Done(Parsed(h.tag, TruncU(FoldBytes(if mem[h.start] >= 128 then TWO64 - 1 else 0,
                                               mem[h.start..h.start + h.len]) % TWO64),
                       h.start + h.len))
  }

  /** The header asn_parse_unsigned_int64 goes by: a short Opaque that starts with one of the two special tags is
      unwrapped, and its inner length is held against the octets left in the same way. */
  function Header64At(mem: seq<Byte>, dlen: nat): (r: Outcome<Header>)
    requires dlen <= |mem|
    ensures r.Done? ==> 2 <= r.value.start && r.value.start + r.value.len <= dlen && r.value.len <= 0x7FFF_FFFF
  {
    match HeaderAt(mem, dlen)
    case Fail => Fail
    case Unreadable => Unreadable
    case Done(h) =>
      if h.tag != OPAQUE || h.len > 12 then Done(h)
      else if h.start >= |mem| then Unreadable
      else if mem[h.start] != OPAQUE_TAG1 then Done(h)
      else if h.start + 1 >= |mem| then Unreadable
      else if !Special(mem[h.start + 1]) then Done(h)
      else match LengthAt(mem, h.start + 2)
        case Fail => Fail
        case Unreadable => Unreadable
        case Done(l) =>
          if l.len > 0x7FFF_FFFF || l.next > 0x7FFF_FFFF || l.len + l.next > dlen then Fail
          else Done(Header(mem[h.start + 1], l.next, l.len))
  }

  /** The halves a set first bit starts from, as one number. */
  const START64: nat := 0x00FF_FFFF_00FF_FFFF

  /** asn_parse_unsigned_int64, on the 64-bit number high * 2^32 + low. */
  function Counter64At(mem: seq<Byte>, dlen: nat): Outcome<Parsed<nat>>
    requires dlen <= |mem|
  {
    match Header64At(mem, dlen)
    case Fail => Fail
    case Unreadable => Unreadable
    case Done(h) =>
      if h.len > 9 || (h.len == 9 && mem[h.start] != 0) then Fail
      else if h.start >= |mem| then Unreadable
      else Done(Parsed(h.tag, FoldBytes(if mem[h.start] >= 128 then START64 else 0,
                                        mem[h.start..h.start + h.len]) % TWO64,
                       h.start + h.len))
  }

  /** asn_parse_string, for a result buffer of a given size. */
  function StringAt(mem: seq<Byte>, dlen: nat, size: nat): Outcome<Parsed<seq<Byte>>>
    requires dlen <= |mem|
  {
    match HeaderAt(mem, dlen)
    case Fail => Fail
    case Unreadable => Unreadable
    case Done(h) =>
      if h.len > size then Fail
      else Done(Parsed(h.tag, mem[h.start..h.start + h.len], h.start + h.len))
  }

  /** asn_parse_objid, for a result array of a given size. One entry is too small for any contents, and none makes the
      count wrap, so that the first good number is written beyond the array. */
  function ObjidAt(mem: seq<Byte>, dlen: nat, size: nat): (r: Outcome<Parsed<seq<nat>>>)
    requires dlen <= |mem|
    ensures r.Done? ==> 1 <= |r.value.value| <= size && Fits(r.value.value) && 2 <= r.value.used <= dlen
  {
    match HeaderAt(mem, dlen)
    case Fail => Fail
    case Unreadable => Unreadable
    case Done(h) =>
      var c := mem[h.start..h.start + h.len];
      if size < 2 then
        if c == [] then Unreadable
        else if size == 1 || FirstBad(c) then Fail
        else Unreadable
      else
        ParseOidBound(c, size);
        match ParseOidContent(c, size)
        case None => Fail
        case Some(o) => Done(Parsed(h.tag, o, h.start + h.len))
  }

  /** The first number is cut short or too large. */
  predicate FirstBad(c: seq<Byte>)
    requires c != []
  {
    var t := TakeSub(c, 0);
    c[t.1 - 1] >= 128 || t.0 >= TWO32
  }

  // ----- arithmetic of the loops

  lemma FoldSnoc(start: int, s: seq<Byte>, b: Byte)
    ensures FoldBytes(start, s + [b]) == FoldBytes(start, s) * 256 + b
  {
    assert (s + [b])[..|s|] == s;
  }

  lemma {:induction false} FoldBound(s: seq<Byte>)
    ensures 0 <= FoldBytes(0, s) < Pow256(|s|)
    decreases |s|
  {
    if s != [] { FoldBound(s[..|s| - 1]); }
  }

  /** Up to eight octets never leave the range of a long. */
  lemma {:induction false} SignedRange(s: seq<Byte>)
    requires s != []
    ensures -128 * Pow256(|s| - 1) <= SignedValue(s) < 128 * Pow256(|s| - 1)
    decreases |s|
  {
    if |s| > 1 {
      SignedRange(s[..|s| - 1]);
    } else {
      assert s[..0] == [];
      assert FoldBytes(-1, []) == -1 && FoldBytes(0, []) == 0;
    }
  }

  lemma ShiftInWord(a: int, b: Byte)
    ensures (a % 0x1_0000_0000_0000_0000 * 256 + b) % 0x1_0000_0000_0000_0000 == (a * 256 + b) % 0x1_0000_0000_0000_0000
  {
    var q := a / 0x1_0000_0000_0000_0000;
    var m := a % 0x1_0000_0000_0000_0000;
    assert a * 256 + b == (m * 256 + b) + (q * 256) * 0x1_0000_0000_0000_0000;
    MoreWords(m * 256 + b, q * 256);
  }

  lemma MoreWords(x: int, k: int)
    ensures (x + k * 0x1_0000_0000_0000_0000) % 0x1_0000_0000_0000_0000 == x % 0x1_0000_0000_0000_0000
  {
  }

  /** Two 32-bit halves shifted together are one 64-bit shift. */
  lemma ShiftHalves(high: nat, low: nat, b: Byte)
    requires high < 0x1_0000_0000 && low < 0x1_0000_0000
    ensures (high % 0x100_0000 * 256 + low / 0x100_0000) * 0x1_0000_0000 + (low % 0x100_0000 * 256 + b)
            == ((high * 0x1_0000_0000 + low) * 256 + b) % 0x1_0000_0000_0000_0000
  {
    var n := (high % 0x100_0000 * 256 + low / 0x100_0000) * 0x1_0000_0000 + (low % 0x100_0000 * 256 + b);
    assert (high * 0x1_0000_0000 + low) * 256 + b == n + (high / 0x100_0000) * 0x1_0000_0000_0000_0000;
    assert 0 <= n < 0x1_0000_0000_0000_0000;
  }

  /** The same, for halves that hold a number modulo 2^64. */
  method ShiftIn(high: nat, low: nat, b: Byte, ghost was: int) returns (h: nat, l: nat)
    requires high < TWO32 && low < TWO32 && high * TWO32 + low == was % TWO64
    ensures h < TWO32 && l < TWO32 && h * TWO32 + l == (was * 256 + b) % TWO64
  {
    ShiftHalves(high, low, b);
    ShiftInWord(was, b);
    h := high % 0x100_0000 * 256 + low / 0x100_0000;
    l := low % 0x100_0000 * 256 + b;
  }

  lemma FoldNone(mem: seq<Byte>, a: nat, start: int)
    requires a <= |mem|
    ensures FoldBytes(start, mem[a..a]) == start
  {
  }

  lemma SliceFold(mem: seq<Byte>, a: nat, i: nat, start: int)
    requires a <= i < |mem|
    ensures FoldBytes(start, mem[a..i + 1]) == FoldBytes(start, mem[a..i]) * 256 + mem[i]
  {
    assert mem[a..i + 1] == mem[a..i] + [mem[i]];
    FoldSnoc(start, mem[a..i], mem[i]);
  }

  // ----- the loops

  method ParseLength(mem: seq<Byte>, at: nat) returns (r: Outcome<Length>)
    ensures r == LengthAt(mem, at)
  {
    if at >= |mem| { return Unreadable; }
    var b := mem[at];
    if b < 128 { return Done(Length(b, at + 1)); }
    var n := b - 128;
    if n == 0 || n > 8 { return Fail; }
    var v := ReadLong(mem, at + 1, n);
    if v.None? { return Unreadable; }
    LongRange(mem, at + 1, n);
    if v.value >= TWO63 { return Fail; }
    return Done(Length(v.value, at + 1 + n));
  }

  /** The octets of a long length, shifted into an unsigned long. */
  method ReadLong(mem: seq<Byte>, from: nat, n: nat) returns (v: Option<nat>)
    requires n <= 8 && from <= |mem|
    ensures v.None? <==> from + n > |mem|
    ensures v.Some? ==> v.value == FoldBytes(0, mem[from..from + n])
  {
    hide FoldBytes, Pow256;
    var data, k, len: nat := from, n, 0;
    FoldNone(mem, from, 0);
    while k > 0
      invariant 0 <= k <= n && data == from + n - k <= |mem|
      invariant len == FoldBytes(0, mem[from..data])
    {
      if data >= |mem| { return None; }
      SliceFold(mem, from, data, 0);
      LongRange(mem, from, data + 1 - from);
      len := (len * 256 + mem[data]) % TWO64;
      data, k := data + 1, k - 1;
    }
    return Some(len);
  }

  /** Eight octets fit an unsigned long. */
  lemma LongRange(mem: seq<Byte>, from: nat, n: nat)
    requires n <= 8 && from + n <= |mem|
    ensures 0 <= FoldBytes(0, mem[from..from + n]) < TWO64
  {
    hide FoldBytes, Pow256;
    FoldBound(mem[from..from + n]);
    PowMonotone(n, 8);
  }

  lemma {:induction false} PowMonotone(a: nat, b: nat)
    requires a <= b
    ensures Pow256(a) <= Pow256(b)
    ensures b <= 8 ==> Pow256(a) <= TWO64
  {
    assert Pow256(8) == TWO64;
    if a < b { PowMonotone(a, b - 1); }
  }

  method ParseHeader(mem: seq<Byte>, dlen: nat) returns (r: Outcome<Header>)
    requires dlen <= |mem|
    ensures r == HeaderAt(mem, dlen)
  {
    if |mem| == 0 { return Unreadable; }
    var l := ParseLength(mem, 1);
    match l {
      case Fail => return Fail;
      case Unreadable => return Unreadable;
      case Done(x) =>
        if x.len > 0x7FFF_FFFF || x.next > 0x7FFF_FFFF || x.len + x.next > dlen { return Fail; }
        return Done(Header(mem[0], x.next, x.len));
    }
  }

  /** Nothing the loop of asn_parse_int computes leaves the range of a long. */
  lemma StaysLong(mem: seq<Byte>, a: nat, i: nat)
    requires a <= i <= |mem| && a < |mem| && i - a <= 8
    ensures -TWO63 <= FoldBytes(if mem[a] >= 128 then -1 else 0, mem[a..i]) < TWO63
  {
    if i == a {
      FoldNone(mem, a, -1);
      FoldNone(mem, a, 0);
    } else {
      SignedRange(mem[a..i]);
      PowMonotone(i - a - 1, 7);
      assert Pow256(7) == 0x100_0000_0000_0000;
    }
  }

  method ParseInt(mem: seq<Byte>, dlen: nat) returns (r: Outcome<Parsed<int>>)
    requires dlen <= |mem|
    ensures r == IntAt(mem, dlen)
  {
    hide HeaderAt, FoldBytes;
    var hr := ParseHeader(mem, dlen);
    if hr.Fail? { return Fail; }
    if hr.Unreadable? { return Unreadable; }
    var h := hr.value;
    if h.len > 8 { return Fail; }
    if h.start >= |mem| { return Unreadable; }
    var start := if mem[h.start] >= 128 then -1 else 0;
    FoldNone(mem, h.start, start);
    var value, i := start, h.start;
    while i < h.start + h.len
      invariant h.start <= i <= h.start + h.len
      invariant value == FoldBytes(start, mem[h.start..i]) && -TWO63 <= value < TWO63
    {
      SliceFold(mem, h.start, i, start);
      StaysLong(mem, h.start, i + 1);
      value := value * 256 + mem[i];
      i := i + 1;
    }
    if value > TWO31 - 1 {
      value := value % TWO32;
    } else if value < -TWO31 {
      value := 0 - value % TWO32;
    }
    return Done(Parsed(h.tag, value, i));
  }

  method ParseUnsigned(mem: seq<Byte>, dlen: nat) returns (r: Outcome<Parsed<nat>>)
    requires dlen <= |mem|
    ensures r == UnsignedAt(mem, dlen)
  {
    hide HeaderAt, FoldBytes;
    var hr := ParseHeader(mem, dlen);
    if hr.Fail? { return Fail; }
    if hr.Unreadable? { return Unreadable; }
    var h := hr.value;
    if h.len > 9 || (h.len == 9 && mem[h.start] != 0) { return Fail; }
    if h.start >= |mem| { return Unreadable; }
    var start := if mem[h.start] >= 128 then TWO64 - 1 else 0;
    FoldNone(mem, h.start, start);
    var value, i := start, h.start;
    while i < h.start + h.len
      invariant h.start <= i <= h.start + h.len
      invariant value == FoldBytes(start, mem[h.start..i]) % TWO64
    {
      SliceFold(mem, h.start, i, start);
      ShiftInWord(FoldBytes(start, mem[h.start..i]), mem[i]);
      value := (value * 256 + mem[i]) % TWO64;
      i := i + 1;
    }
    if value > TWO32 - 1 { value := value % TWO32; }
    return Done(Parsed(h.tag, value, i));
  }

  /** The unwrapping branch of asn_parse_unsigned_int64. */
  method ParseHeader64(mem: seq<Byte>, dlen: nat) returns (r: Outcome<Header>)
    requires dlen <= |mem|
    ensures r == Header64At(mem, dlen)
  {
    hide HeaderAt, LengthAt;
    r := ParseHeader(mem, dlen);
    if r.Done? && r.value.tag == OPAQUE && r.value.len <= 12 {
      var at := r.value.start;
      if at >= |mem| { return Unreadable; }
      if mem[at] == OPAQUE_TAG1 {
        if at + 1 >= |mem| { return Unreadable; }
        if Special(mem[at + 1]) {
          var l := ParseLength(mem, at + 2);
          match l {
            case Fail => return Fail;
            case Unreadable => return Unreadable;
            case Done(x) =>
              if x.len > 0x7FFF_FFFF || x.next > 0x7FFF_FFFF || x.len + x.next > dlen { return Fail; }
              return Done(Header(mem[at + 1], x.next, x.len));
          }
        }
      }
    }
  }

  method ParseCounter64(mem: seq<Byte>, dlen: nat) returns (r: Outcome<Parsed<(nat, nat)>>)
    requires dlen <= |mem|
    ensures r.Fail? <==> Counter64At(mem, dlen).Fail?
    ensures r.Unreadable? <==> Counter64At(mem, dlen).Unreadable?
    ensures r.Done? ==> var p := Counter64At(mem, dlen).value; var (high, low) := r.value.value;
                        p == Parsed(r.value.tag, high * TWO32 + low, r.value.used) && high < TWO32 && low < TWO32
  {
    hide Header64At, FoldBytes;
    var hr := ParseHeader64(mem, dlen);
    if hr.Fail? { return Fail; }
    if hr.Unreadable? { return Unreadable; }
    var h := hr.value;
    if h.len > 9 || (h.len == 9 && mem[h.start] != 0) { return Fail; }
    if h.start >= |mem| { return Unreadable; }
    var low: nat, high: nat := 0, 0;
    if mem[h.start] >= 128 { low, high := 0xFF_FFFF, 0xFF_FFFF; }
    ghost var start := high * TWO32 + low;
    FoldNone(mem, h.start, start);
    var i := h.start;
    while i < h.start + h.len
      invariant h.start <= i <= h.start + h.len
      invariant high < TWO32 && low < TWO32
      invariant high * TWO32 + low == FoldBytes(start, mem[h.start..i]) % TWO64
    {
      SliceFold(mem, h.start, i, start);
      high, low := ShiftIn(high, low, mem[i], FoldBytes(start, mem[h.start..i]));
      i := i + 1;
    }
    return Done(Parsed(h.tag, (high, low), i));
  }

  method ParseString(mem: seq<Byte>, dlen: nat, str: array<Byte>) returns (r: Outcome<Parsed<nat>>)
    requires dlen <= |mem|
    modifies str
    ensures var p := StringAt(mem, dlen, str.Length);
            (r.Fail? <==> p.Fail?) && (r.Unreadable? <==> p.Unreadable?) &&
            (r.Done? ==> r.value.value <= str.Length &&
                         p.value == Parsed(r.value.tag, str[..r.value.value], r.value.used))
    ensures r.Done? && r.value.value < str.Length ==> str[r.value.value] == 0
    ensures !r.Done? ==> str[..] == old(str[..])
  {
    var hr := ParseHeader(mem, dlen);
    if hr.Fail? { return Fail; }
    if hr.Unreadable? { return Unreadable; }
    var h := hr.value;
    if h.len > str.Length { return Fail; }
    var content := mem[h.start..h.start + h.len];
    forall i | 0 <= i < h.len { str[i] := content[i]; }
    if str.Length > h.len { str[h.len] := 0; }
    assert str[..h.len] == content;
    return Done(Parsed(h.tag, h.len, h.start + h.len));
  }

  /** The inner loop of asn_parse_objid. */
  method ParseSub(s: seq<Byte>, at: nat) returns (sub: nat, next: nat)
    requires at < |s|
    ensures (sub, next - at) == TakeSub(s[at..], 0) && at < next <= |s|
  {
    sub, next := 0, at;
    var more := true;
    while more
      invariant at <= next <= |s| && (more ==> next < |s|) && (!more ==> at < next)
      invariant TakeSub(s[at..], 0) == if !more then (sub, next - at)
                                       else (TakeSub(s[next..], sub).0, TakeSub(s[next..], sub).1 + (next - at))
      decreases |s| - next, more
    {
      assert s[next..][0] == s[next] && s[next..][1..] == s[next + 1..];
      sub := (sub * 128 + s[next] % 128) % TWO64;
      next := next + 1;
      more := s[next - 1] >= 128 && next < |s|;
    }
  }

  /** What the outer loop has read, put before what is still to come. */
  function Before(read: seq<nat>, later: Option<seq<nat>>): Option<seq<nat>> {
    match later
    case None => None
    case Some(vs) => Some(read + vs)
  }

  lemma BeforeStep(read: seq<nat>, v: nat, later: Option<seq<nat>>)
    ensures Before(read + [v], later) == Before(read, Before([v], later))
  {
    if later.Some? { assert (read + [v]) + later.value == read + ([v] + later.value); }
  }

  lemma BeforeNothing(later: Option<seq<nat>>)
    ensures Before([], later) == later
  {
    if later.Some? { assert [] + later.value == later.value; }
  }

  /** One turn of the outer loop. */
  lemma TurnOf(s: seq<Byte>, n: nat, sub: nat, len: nat)
    requires s != [] && n > 0 && (sub, len) == TakeSub(s, 0)
    ensures TakeSubs(s, n) == if s[len - 1] >= 128 || sub > MAXSUBID then None
            else Before([sub], TakeSubs(s[len..], n - 1))
    ensures s[len - 1] >= 128 ==> len == |s|
  {
    SubStops(s);
  }

  /** The outer loop: numbers go to objid[1..], the first of them still combined. */
  method ParseSubs(s: seq<Byte>, objid: array<nat>) returns (count: Option<nat>)
    requires objid.Length >= 2
    modifies objid
    ensures count.Some? ==> 1 <= count.value <= objid.Length
    ensures TakeSubs(s, objid.Length - 1) == if count.None? then None else Some(objid[1..count.value])
    ensures s == [] ==> objid[..] == old(objid[..])
  {
    hide TakeSub, TakeSubs;
    var p, oidp := 0, 1;
    BeforeNothing(TakeSubs(s, objid.Length - 1));
    assert objid[1..1] == [] && s[0..] == s;
    while p < |s| && oidp < objid.Length
      invariant 0 <= p <= |s| && 1 <= oidp <= objid.Length
      invariant TakeSubs(s, objid.Length - 1) == Before(objid[1..oidp], TakeSubs(s[p..], objid.Length - oidp))
      invariant p == 0 ==> objid[..] == old(objid[..])
      decreases |s| - p
    {
      ghost var read, left := objid[1..oidp], objid.Length - oidp;
      var sub, next := ParseSub(s, p);
      NextTurn(s, p, next, left, sub);
      if next == |s| && s[next - 1] >= 128 { return None; }
      if sub > MAXSUBID { return None; }
      BeforeStep(read, sub, TakeSubs(s[next..], left - 1));
      objid[oidp] := sub;
      assert objid[1..oidp + 1] == read + [sub];
      p, oidp := next, oidp + 1;
    }
    NoSubs(s[p..], objid.Length - oidp);
    NoRoom(s[p..]);
    if p != |s| { return None; }
    assert objid[1..oidp] + [] == objid[1..oidp];
    return Some(oidp);
  }

  lemma NextTurn(s: seq<Byte>, p: nat, next: nat, left: nat, sub: nat)
    requires p < next <= |s| && left > 0 && (sub, next - p) == TakeSub(s[p..], 0)
    ensures TakeSubs(s[p..], left) ==
            if s[next - 1] >= 128 || sub > MAXSUBID then None else Before([sub], TakeSubs(s[next..], left - 1))
    ensures s[next - 1] >= 128 ==> next == |s|
  {
    hide TakeSub, TakeSubs;
    assert s[p..][next - p..] == s[next..] && s[p..][next - p - 1] == s[next - 1];
    TurnOf(s[p..], left, sub, next - p);
  }

  lemma NoRoom(s: seq<Byte>)
    ensures s != [] ==> TakeSubs(s, 0) == None
  {
  }

  /** Short of the end, a subidentifier stops at an octet without continuation bit. */
  lemma {:induction false} SubStops(s: seq<Byte>)
    requires s != []
    ensures forall acc: nat | TakeSub(s, acc).1 < |s| :: s[TakeSub(s, acc).1 - 1] < 128
    decreases |s|
  {
    if s[0] >= 128 && |s| > 1 {
      SubStops(s[1..]);
      forall acc: nat | TakeSub(s, acc).1 < |s| ensures s[TakeSub(s, acc).1 - 1] < 128 {
        var v := (acc * 128 + s[0] % 128) % TWO64;
        assert TakeSub(s, acc).1 == TakeSub(s[1..], v).1 + 1;
        assert s[1..][TakeSub(s[1..], v).1 - 1] == s[TakeSub(s, acc).1 - 1];
      }
    }
  }

  /** The first number, left in objid[1], becomes the first two subidentifiers. */
  method SplitInPlace(objid: array<nat>)
    requires objid.Length >= 2
    modifies objid
    ensures objid[..2] == SplitFirst([old(objid[1])])
    ensures objid[2..] == old(objid[2..])
  {
    var sub := objid[1];
    if sub == 0x2B {
      objid[0], objid[1] := 1, 3;
    } else if sub < 40 {
      objid[0], objid[1] := 0, sub;
    } else if sub < 80 {
      objid[0], objid[1] := 1, sub - 40;
    } else {
      objid[0], objid[1] := 2, sub - 80;
    }
  }

  lemma NoSubs(s: seq<Byte>, n: nat)
    ensures s == [] ==> TakeSubs(s, n) == Some([])
  {
  }

  lemma SplitWhole(was: seq<nat>, now: seq<nat>, n: nat, vs: seq<nat>)
    requires |was| == |now| && 2 <= n <= |was| && was[1..n] == vs
    requires now[..2] == SplitFirst([was[1]]) && now[2..] == was[2..]
    ensures now[..n] == SplitFirst(vs)
  {
    assert vs[0] == was[1] && [was[1]][1..] == [];
    assert now[2..n] == now[2..][..n - 2] == was[2..][..n - 2] == vs[1..];
    assert now[..n] == now[..2] + now[2..n];
  }

  method ParseObjid(mem: seq<Byte>, dlen: nat, objid: array<nat>) returns (r: Outcome<Parsed<nat>>)
    requires dlen <= |mem|
    modifies objid
    ensures var p := ObjidAt(mem, dlen, objid.Length);
            (r.Fail? <==> p.Fail?) && (r.Unreadable? <==> p.Unreadable?) &&
            (r.Done? ==> r.value.value <= objid.Length &&
                         p.value == Parsed(r.value.tag, objid[..r.value.value], r.value.used))
  {
    hide HeaderAt, TakeSubs, TakeSub, ParseOidContent;
    var hr := ParseHeader(mem, dlen);
    if hr.Fail? { return Fail; }
    if hr.Unreadable? { return Unreadable; }
    var h := hr.value;
    var content := mem[h.start..h.start + h.len];
    if objid.Length < 2 {
      if h.len == 0 { return Unreadable; }
      if objid.Length == 1 { return Fail; }
      var sub, next := ParseSub(content, 0);
      assert content[0..] == content;
      return if content[next - 1] >= 128 || sub > MAXSUBID then Fail else Unreadable;
    }
    var n := ParseContent(content, objid);
    if n.None? { return Fail; }
    return Done(Parsed(h.tag, n.value, h.start + h.len));
  }

  /** The contents, with room for two numbers at least. */
  method ParseContent(content: seq<Byte>, objid: array<nat>) returns (n: Option<nat>)
    requires objid.Length >= 2
    modifies objid
    ensures n.Some? ==> n.value <= objid.Length
    ensures ParseOidContent(content, objid.Length) == if n.None? then None else Some(objid[..n.value])
  {
    hide TakeSubs;
    if content == [] { objid[0], objid[1] := 0, 0; }
    NoSubs(content, objid.Length - 1);
    n := ParseSubs(content, objid);
    if n.None? { return; }
    ghost var vs := objid[1..n.value];
    TakeSubsBound(content, objid.Length - 1);
    ghost var was := objid[..];
    SplitInPlace(objid);
    if content == [] {
      assert objid[..n.value] == [0];
    } else {
      SplitWhole(was, objid[..], n.value, vs);
    }
  }
}
