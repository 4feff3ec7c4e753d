/** The reverse builders of asn1.c: octets are put before those already written, in a buffer that may be reallocated. */
module BerReverse {
  import opened BerSpec

  ghost predicate EndsWith(s: seq<Byte>, t: seq<Byte>) {
    |t| <= |s| && s[|s| - |t|..] == t
  }

  /** What a builder of the octets e does to a packet holding was, with room left: all of e goes in front, or the call
      fails for want of room; what was there stays the end of the packet either way. */
  ghost predicate Prepended(was: seq<Byte>, room: nat, now: seq<Byte>, r: bool, grows: bool, ok: bool, e: seq<Byte>) {
    EndsWith(now, was) &&
    (ok ==> now == e + was) &&
    (r && grows ==> ok) &&
    (!r ==> (ok <==> room >= |e|))
  }

  lemma Nothing(was: seq<Byte>, room: nat, r: bool, grows: bool)
    ensures Prepended(was, room, was, r, grows, true, [])
  {
    assert [] + was == was;
  }

  /** One builder after another that succeeded. */
  lemma Then(was: seq<Byte>, room: nat, mid: seq<Byte>, left: nat, now: seq<Byte>, r: bool, grows: bool, ok: bool,
             e: seq<Byte>, f: seq<Byte>)
    requires Prepended(was, room, mid, r, grows, true, e) && (!r ==> left == room - |e|)
    requires Prepended(mid, left, now, r, grows, ok, f)
    ensures Prepended(was, room, now, r, grows, ok, f + e)
  {
    assert f + (e + was) == (f + e) + was;
    assert now[|now| - |was|..] == now[|now| - |mid|..][|mid| - |was|..];
  }

  /** A failure on the way is a failure of the whole. */
  lemma Fails(was: seq<Byte>, room: nat, now: seq<Byte>, r: bool, grows: bool, e: seq<Byte>, whole: seq<Byte>)
    requires Prepended(was, room, now, r, grows, false, e) && |e| <= |whole|
    ensures Prepended(was, room, now, r, grows, false, whole)
  {
  }

  lemma Grown(was: seq<Byte>, room: nat, now: seq<Byte>, r: bool, grows: bool, e: seq<Byte>)
    requires Prepended(was, room, now, r, grows, true, e)
    ensures |now| == |e| + |was|
  {
  }

  lemma Kept(was: seq<Byte>, room: nat, now: seq<Byte>, r: bool, grows: bool, ok: bool, e: seq<Byte>)
    requires Prepended(was, room, now, r, grows, ok, e)
    ensures EndsWith(now, was)
  {
  }

  // ----- growth

  /** snmp_realloc's rule: by 256 octets, then to the double, then by 8192. */
  function SnmpRealloc(n: nat): nat {
    if n <= 255 then n + 256 else if n <= 8191 then n * 2 else n + 8192
  }

  // ----- Counter64 objects

  /** Special tag and inner length in front of contents. */
  function Wrapped(tag: Byte, c: seq<Byte>): (r: seq<Byte>)
    requires |c| <= 9
    ensures |r| == |c| + 3
  {
    [OPAQUE_TAG1, tag, |c|] + c
  }

  function Counter64Object(tag: Byte, high: nat, low: nat): seq<Byte> {
    var c := Counter64Content(high, low);
    if Special(tag) then Tlv(OPAQUE, Wrapped(tag, c)) else Tlv(tag, c)
  }

  lemma WrappedForm(tag: Byte, c: seq<Byte>)
    requires |c| <= 9
    ensures Tlv(OPAQUE, Wrapped(tag, c)) == [OPAQUE, |c| + 3, OPAQUE_TAG1, tag, |c|] + c
  {
  }

  // ----- what the octet loops keep

  /** The sign that stays when a number is shifted away. */
  function Sign(v: int): int {
    if v < 0 then -1 else 0
  }

  /** Octets w are out and integer is left: what is still to come, in front of w, completes the shortest form of v. */
  ghost predicate Pushed(v: int, integer: int, w: seq<Byte>) {
    w != [] && Sign(integer) == Sign(v) &&
    SignedBytes(v) == (if integer == Sign(v) && (w[0] >= 128 <==> v < 0) then [] else SignedBytes(integer)) + w
  }

  lemma PushStep(v: int, integer: int, w: seq<Byte>, b: Byte)
    requires Sign(integer) == Sign(v) && b == integer % 256
    requires SignedBytes(v) == SignedBytes(integer) + w || (Pushed(v, integer, w) && integer != Sign(v))
    ensures Pushed(v, integer / 256, [b] + w)
    ensures |w| < |SignedBytes(v)|
  {
    if -128 <= integer < 128 {
      assert integer / 256 == Sign(v) && (b >= 128 <==> v < 0);
      assert SignedBytes(integer) + w == [] + ([b] + w);
    } else {
      assert SignedBytes(integer) + w == SignedBytes(integer / 256) + ([b] + w);
    }
  }

  lemma PushFirst(v: int, b: Byte)
    requires b == v % 256
    ensures Pushed(v, v / 256, [b])
  {
    assert SignedBytes(v) + [] == SignedBytes(v) && [b] + [] == [b];
    PushStep(v, v, [], b);
  }

  /** The first octet of a number, and the number shifted. */
  method SplitOff(v: int) returns (q: int, b: Byte)
    ensures Pushed(v, q, [b]) && Sign(q) == Sign(v)
  {
    q, b := v / 256, v % 256;
    PushFirst(v, b);
  }

  lemma PushEnds(v: int, w: seq<Byte>, b: Byte)
    requires w != [] && Pushed(v, Sign(v), w) && b == if v < 0 then 0xFF else 0
    ensures SignedBytes(v) == if w[0] >= 128 <==> v < 0 then w else [b] + w
  {
    assert [] + w == w;
  }

  /** What counts of a high half when count octets of the low half are out. */
  function Scale(count: nat): nat
    requires 1 <= count <= 4
  {
    if count == 1 then 0x100_0000 else if count == 2 then 0x1_0000 else if count == 3 then 0x100 else 1
  }

  lemma HalfStep(high: nat, low: nat, count: nat)
    requires 1 <= count < 4
    ensures (high * Scale(count) + low) / 256 == high * Scale(count + 1) + low / 256
    ensures (high * Scale(count) + low) % 256 == low % 256
    ensures low < Scale(count) ==> low / 256 < Scale(count + 1)
  {
  }

  lemma HalfFirst(high: nat, low: nat)
    ensures (high * 0x1_0000_0000 + low) / 256 == high * Scale(1) + low / 256
    ensures (high * 0x1_0000_0000 + low) % 256 == low % 256
    ensures low < 0x1_0000_0000 ==> low / 256 < Scale(1)
  {
  }

  /** The first octet of a low half, and the half shifted. */
  method SplitHalf(high: nat, low: nat) returns (b: Byte, rest: nat)
    requires low < TWO32
    ensures rest < Scale(1) && Pushed(high * TWO32 + low, high * Scale(1) + rest, [b])
  {
    HalfFirst(high, low);
    b, rest := low % 256, low / 256;
    PushFirst(high * TWO32 + low, b);
  }

  /** Octets w of a subidentifier are out and v is left. */
  ghost predicate SubPushed(all: nat, v: nat, w: seq<Byte>) {
    Base128(all) == (if v > 0 then Base128High(v) else []) + w
  }

  lemma SubFirst(all: nat, b: Byte)
    requires b == all % 128
    ensures SubPushed(all, all / 128, [b])
  {
    if all < 128 { assert [] + [b] == [b]; }
  }

  lemma SubStep(all: nat, v: nat, w: seq<Byte>, b: Byte)
    requires SubPushed(all, v, w) && v > 0 && b == v % 128 + 128
    ensures SubPushed(all, v / 128, [b] + w)
    ensures |w| < |Base128(all)|
  {
    if v < 128 {
      assert [b] + w == [] + ([b] + w);
    } else {
      assert Base128High(v) + w == Base128High(v / 128) + ([b] + w);
    }
  }

  lemma SubEnds(all: nat, w: seq<Byte>)
    requires SubPushed(all, 0, w)
    ensures Base128(all) == w
  {
    assert [] + w == w;
  }

  lemma {:induction false} HighLength(v: nat, k: nat, p: nat)
    requires v < p && 1 <= k <= 9 && p == Pow128(k)
    ensures |Base128High(v)| <= k
    decreases k
  {
    if v >= 128 { HighLength(v / 128, k - 1, Pow128(k - 1)); }
  }

  function Pow128(k: nat): (p: nat)
    ensures p > 0
  {
    if k == 0 then 1 else 128 * Pow128(k - 1)
  }

  lemma Base128Length(v: nat)
    requires v < TWO64
    ensures |Base128(v)| <= 10
  {
    assert Pow128(9) == 0x8000_0000_0000_0000;
    if v >= 128 { HighLength(v / 128, 9, Pow128(9)); }
  }

  lemma {:induction false} SubidsLength(vs: seq<nat>)
    requires forall i | 0 <= i < |vs| :: vs[i] < TWO64
    ensures |Subids(vs)| <= 10 * |vs|
  {
    hide Base128;
    if vs != [] {
      Base128Length(vs[0]);
      SubidsLength(vs[1..]);
    }
  }

  /** The octets of some last numbers are no more than those of all. */
  lemma {:induction false} SubidsSuffix(vs: seq<nat>, i: nat)
    requires i <= |vs|
    ensures |Subids(vs[i..])| <= |Subids(vs)|
  {
    if i > 0 {
      SubidsSuffix(vs[1..], i - 1);
      assert vs[1..][i - 1..] == vs[i..];
    } else {
      assert vs[0..] == vs;
    }
  }

  lemma NoSubids(vs: seq<nat>)
    ensures Subids(vs[|vs|..]) == []
  {
  }

  lemma PairContent(o: Oid64)
    requires |o| >= 2 && !Refused(o)
    ensures ReverseContent(o) == Base128(FirstPair(o)) + Subids(Truncated(o[2..]))
  {
    assert Numbers(o)[1..] == Truncated(o[2..]);
  }

  lemma SubidsBefore(vs: seq<nat>, i: nat)
    requires i < |vs|
    ensures Subids(vs[i..]) == Base128(vs[i]) + Subids(vs[i + 1..])
  {
    assert vs[i..][1..] == vs[i + 1..];
  }

  /** An identifier an address space can hold, and so its contents. */
  ghost predicate Addressable(o: Oid64) {
    |o| < 0x1000_0000_0000_0000
  }

  lemma ContentLength(o: Oid64)
    requires Addressable(o) && !Refused(o)
    ensures |ReverseContent(o)| < TWO64
  {
    ContentBound(o);
  }

  /** Neither builder writes more than ten octets for a number. */
  lemma ContentBound(o: Oid64)
    requires !Refused(o)
    ensures |ReverseContent(o)| <= 10 * |o| + 2 && |ForwardContent(o)| <= 10 * |o| + 2
  {
    hide Base128;
    if |o| >= 2 {
      var n, t, f := Numbers(o), Truncated(o[2..]), FirstPair(o);
      forall i | 0 <= i < |n| ensures n[i] < TWO64 {
        if i > 0 { assert n[i] == t[i - 1]; }
      }
      SubidsLength(n);
      SubidsLength(t);
      Base128Length(if f % TWO32 < 0x1000_0000 then f % TWO32 else f % 0x8_0000_0000);
    }
  }

  /** *pkt, *pkt_len and *offset; the octets written are the last offset ones. */
  class Packet {
    var pkt: array<Byte>
    var offset: nat
    /** What snmp_realloc makes of a length; no growth is a failure. */
    const grow: nat -> nat

    constructor (buf: array<Byte>, policy: nat -> nat)
      ensures pkt == buf && offset == 0 && grow == policy
      ensures Valid() && Out() == []
    {
      pkt, offset, grow := buf, 0, policy;
    }

    ghost predicate Valid()
      reads this
    {
      offset <= pkt.Length
    }

    /** The octets written so far, in the order a reader sees them. */
    ghost function Out(): (s: seq<Byte>)
      requires Valid()
      reads this, pkt
      ensures |s| == offset
    {
      pkt[pkt.Length - offset..]
    }

    ghost function Room(): nat
      requires Valid()
      reads this
    {
      pkt.Length - offset
    }

    ghost predicate Grows() {
      forall n: nat :: grow(n) > n
    }

    /** Under snmp_realloc's rule the buffer always grows, by 256 to 8192 octets. */
    lemma RuleGrows()
      requires grow == SnmpRealloc
      ensures Grows()
      ensures forall n: nat :: n + 256 <= grow(n) <= n + 8192
    {
      forall n: nat ensures grow(n) > n && n + 256 <= grow(n) <= n + 8192 {}
    }

    /** asn_realloc: the old octets move to the end of the longer buffer, spaces fill the front. */
    method Realloc() returns (ok: bool)
      requires Valid()
      modifies this`pkt
      ensures Valid() && offset == old(offset)
      ensures ok <==> grow(old(pkt.Length)) > old(pkt.Length)
      ensures Out() == old(Out())
      ensures if ok then fresh(pkt) && pkt.Length == grow(old(pkt.Length)) else pkt == old(pkt)
    {
      var n := grow(pkt.Length);
      if n <= pkt.Length { return false; }
      var was, k := pkt, n - pkt.Length;
      var a := new Byte[n](i requires 0 <= i < n reads was => if k <= i < k + was.Length then was[i - k] else 0x20);
      pkt := a;
      assert a[n - offset..] == was[was.Length - offset..];
      return true;
    }

    /** if (room < 1) reallocate, for an octet about to be put in front. */
    method Ensure(r: bool, ghost b: Byte) returns (ok: bool)
      requires Valid()
      modifies this`pkt
      ensures Valid() && offset == old(offset) && (pkt == old(pkt) || fresh(pkt))
      ensures Out() == old(Out())
      ensures ok ==> Room() >= 1
      ensures !r || old(Room()) >= 1 ==> pkt == old(pkt)
      ensures old(Room()) >= 1 ==> ok
      ensures !ok ==> Prepended(old(Out()), old(Room()), Out(), r, Grows(), false, [b])
    {
      if pkt.Length - offset < 1 {
        if !r { return false; }
        ok := Realloc();
        return;
      }
      return true;
    }

    /** One octet goes in front of those written. */
    method Write(b: Byte)
      requires Valid() && Room() >= 1
      modifies this`offset, pkt
      ensures Valid() && offset == old(offset) + 1
      ensures Out() == [b] + old(Out())
      ensures pkt[pkt.Length - offset] == b
    {
      ghost var was := Out();
      offset := offset + 1;
      pkt[pkt.Length - offset] := b;
      assert Out()[1..] == was;
    }

    /** Make sure of room, then put one octet in front. */
    method Put(r: bool, b: Byte) returns (ok: bool)
      requires Valid()
      modifies this, pkt
      ensures Valid() && (pkt == old(pkt) || fresh(pkt)) && (!r ==> pkt == old(pkt))
      ensures Prepended(old(Out()), old(Room()), Out(), r, Grows(), ok, [b])
      ensures ok ==> pkt[pkt.Length - offset] == b && offset == old(offset) + 1
      ensures old(Room()) >= 1 ==> ok && pkt == old(pkt)
    {
      ok := Ensure(r, b);
      if ok {
        Write(b);
      }
    }

    /** while (room < n) reallocate, for n octets e about to be put in front. */
    method Reserve(r: bool, n: nat, ghost e: seq<Byte>) returns (ok: bool)
      requires Valid() && |e| == n
      modifies this`pkt
      ensures Valid() && offset == old(offset) && (pkt == old(pkt) || fresh(pkt))
      ensures Out() == old(Out())
      ensures ok ==> Room() >= n
      ensures !r ==> pkt == old(pkt)
      ensures !ok ==> Prepended(old(Out()), old(Room()), Out(), r, Grows(), false, e)
    {
      while pkt.Length - offset < n
        invariant Valid() && offset == old(offset) && (pkt == old(pkt) || fresh(pkt))
        invariant Out() == old(Out())
        invariant !r ==> pkt == old(pkt)
        decreases n - (pkt.Length - offset)
      {
        if !r { return false; }
        var got := Realloc();
        if !got { return false; }
      }
      return true;
    }

    method BuildLength(r: bool, length: nat) returns (ok: bool)
      requires Valid() && length < TWO64
      modifies this, pkt
      ensures Valid() && (pkt == old(pkt) || fresh(pkt)) && (!r ==> pkt == old(pkt))
      ensures Prepended(old(Out()), old(Room()), Out(), r, Grows(), ok, LengthBytes(length))
    {
      hide Prepended, Grows, EndsWith, Out;
      if length <= 0x7F {
        ok := Put(r, length);
      } else {
        NatBytesLength(length, 8);
        ok := BuildLong(r, length);
      }
    }

    /** The octets of a long length, from the least significant one, while more than one is left. */
    method PutLow(r: bool, length: nat) returns (ok: bool, len: nat, ghost w: seq<Byte>)
      requires Valid()
      modifies this, pkt
      ensures Valid() && (pkt == old(pkt) || fresh(pkt)) && (!r ==> pkt == old(pkt))
      ensures Prepended(old(Out()), old(Room()), Out(), r, Grows(), ok, w)
      ensures |w| < |NatBytes(length)|
      ensures ok ==> len <= 0xFF && NatBytes(length) == [len] + w
    {
      hide Prepended, Grows, EndsWith, Out;
      ghost var was, room := Out(), Room();
      ok, len, w := true, length, [];
      Nothing(was, room, r, Grows());
      assert NatBytes(len) + w == NatBytes(length);
      while len > 0xFF
        invariant Valid() && (pkt == old(pkt) || fresh(pkt)) && (!r ==> pkt == old(pkt))
        invariant ok && Prepended(was, room, Out(), r, Grows(), true, w) && NatBytes(length) == NatBytes(len) + w
        decreases len
      {
        ok, w := PutMore(was, room, r, w, len % 256);
        if !ok { return; }
        len := len / 256;
      }
    }

    /** The long form: octets from the least significant one, then their number. */
    method BuildLong(r: bool, length: nat) returns (ok: bool)
      requires Valid() && |NatBytes(length)| <= 8
      modifies this, pkt
      ensures Valid() && (pkt == old(pkt) || fresh(pkt)) && (!r ==> pkt == old(pkt))
      ensures Prepended(old(Out()), old(Room()), Out(), r, Grows(), ok, [128 + |NatBytes(length)|] + NatBytes(length))
    {
      hide Prepended, NatBytes, Grows, EndsWith, Out;
      ghost var was, room := Out(), Room();
      ghost var e: seq<Byte> := [128 + |NatBytes(length)|] + NatBytes(length);
      var start := offset;
      var len; ghost var w;
      ok, len, w := PutLow(r, length);
      if !ok {
        Fails(was, room, Out(), r, Grows(), w, e);
        return;
      }
      ghost var mid, left := Out(), Room();
      Grown(was, room, mid, r, Grows(), w);
      var n := offset + 1 - start;
      ghost var two: seq<Byte> := [128 + n, len];
      assert two + w == e;
      ok := Reserve(r, 2, two);
      if ok {
        WriteTwo(was, room, r, w, len, 128 + n);
      } else {
        Then(was, room, mid, left, Out(), r, Grows(), ok, w, two);
      }
    }

    /** Two octets go in front where room for them was made. */
    method WriteTwo(ghost was: seq<Byte>, ghost room: nat, r: bool, ghost w: seq<Byte>, a: Byte, b: Byte)
      requires Valid() && Room() >= 2
      requires Prepended(was, room, Out(), r, Grows(), true, w) && (!r ==> Room() == room - |w|)
      modifies this`offset, pkt
      ensures Valid()
      ensures Prepended(was, room, Out(), r, Grows(), true, [b, a] + w)
    {
      ghost var mid, left := Out(), Room();
      Write(a);
      Write(b);
      assert [b] + ([a] + mid) == [b, a] + mid;
      Then(was, room, mid, left, Out(), r, Grows(), true, w, [b, a]);
    }

    method BuildHeader(r: bool, tag: Byte, length: nat) returns (ok: bool)
      requires Valid() && length < TWO64
      modifies this, pkt
      ensures Valid() && (pkt == old(pkt) || fresh(pkt)) && (!r ==> pkt == old(pkt))
      ensures Prepended(old(Out()), old(Room()), Out(), r, Grows(), ok, [tag] + LengthBytes(length))
    {
      hide LengthBytes, Prepended, Grows, EndsWith, Out;
      ghost var was, room := Out(), Room();
      ok := BuildLength(r, length);
      if !ok {
        Fails(was, room, Out(), r, Grows(), LengthBytes(length), [tag] + LengthBytes(length));
        return;
      }
      ghost var mid, left := Out(), Room();
      Grown(was, room, mid, r, Grows(), LengthBytes(length));
      ok := Put(r, tag);
      Then(was, room, mid, left, Out(), r, Grows(), ok, LengthBytes(length), [tag]);
    }

    /** The octet loop shared by the integer builders. */
    method PutInteger(r: bool, v: int) returns (ok: bool)
      requires Valid()
      modifies this, pkt
      ensures Valid() && (pkt == old(pkt) || fresh(pkt)) && (!r ==> pkt == old(pkt))
      ensures Prepended(old(Out()), old(Room()), Out(), r, Grows(), ok, SignedBytes(v))
    {
      hide SignedBytes, Prepended, Grows, EndsWith, Pushed, Out;
      ghost var was, room := Out(), Room();
      var test: int := if v < 0 then -1 else 0;
      var integer, b := SplitOff(v);
      ok := Put(r, b);
      ghost var w: seq<Byte> := [b];
      if !ok {
        Fails(was, room, Out(), r, Grows(), w, SignedBytes(v));
        return;
      }
      ok, w := PutShifts(was, room, r, v, integer, test, w);
      if !ok { return; }
      b := if test == -1 then 0xFF else 0;
      PushEnds(v, w, b);
      if (pkt[pkt.Length - offset] >= 128) != (test == -1) {
        ok, w := PutMore(was, room, r, w, b);
      }
    }

    /** Shift and put octets until only the sign is left. */
    method PutShifts(ghost was: seq<Byte>, ghost room: nat, r: bool, ghost v: int, start: int, test: int,
                     ghost pre: seq<Byte>)
      returns (ok: bool, ghost w: seq<Byte>)
      requires Valid() && Prepended(was, room, Out(), r, Grows(), true, pre)
      requires (!r ==> pkt.Length - |was| == room) && offset >= 1 && pre != [] && pkt[pkt.Length - offset] == pre[0]
      requires Pushed(v, start, pre) && Sign(start) == Sign(v) == test
      modifies this, pkt
      ensures Valid() && (pkt == old(pkt) || fresh(pkt)) && (!r ==> pkt == old(pkt))
      ensures ok ==> offset >= 1 && w != [] && pkt[pkt.Length - offset] == w[0]
      ensures if ok then Prepended(was, room, Out(), r, Grows(), true, w) && Pushed(v, test, w)
              else Prepended(was, room, Out(), r, Grows(), false, SignedBytes(v))
    {
      hide SignedBytes, Prepended, Grows, EndsWith, Pushed, Out;
      var integer := start;
      ok, w := true, pre;
      while integer != test
        invariant Valid() && (pkt == old(pkt) || fresh(pkt)) && (!r ==> pkt == old(pkt))
        invariant ok && offset >= 1 && w != [] && pkt[pkt.Length - offset] == w[0]
        invariant Prepended(was, room, Out(), r, Grows(), true, w)
        invariant Pushed(v, integer, w) && Sign(integer) == test
        decreases if integer < 0 then -integer else integer
      {
        var b: Byte := integer % 256;
        PushStep(v, integer, w, b);
        ok, w := PutMore(was, room, r, w, b);
        if !ok {
          Fails(was, room, Out(), r, Grows(), w, SignedBytes(v));
          return;
        }
        integer := integer / 256;
      }
    }

    /** One more octet in front of w. */
    method PutMore(ghost was: seq<Byte>, ghost room: nat, r: bool, ghost w: seq<Byte>, b: Byte)
      returns (ok: bool, ghost ww: seq<Byte>)
      requires Valid() && Prepended(was, room, Out(), r, Grows(), true, w)
      requires !r ==> pkt.Length - |was| == room
      modifies this, pkt
      ensures Valid() && (pkt == old(pkt) || fresh(pkt)) && (!r ==> pkt == old(pkt))
      ensures ww == [b] + w && Prepended(was, room, Out(), r, Grows(), ok, ww)
      ensures ok ==> offset >= 1 && pkt[pkt.Length - offset] == b
    {
      hide Prepended, Grows, EndsWith, Out;
      ghost var mid, left := Out(), Room();
      Grown(was, room, mid, r, Grows(), w);
      ok := Put(r, b);
      Then(was, room, mid, left, Out(), r, Grows(), ok, w, [b]);
      ww := [b] + w;
    }

    /** Tag and length in front of finished contents. */
    method Close(ghost was: seq<Byte>, ghost room: nat, r: bool, tag: Byte, length: nat, ghost content: seq<Byte>)
      returns (ok: bool)
      requires Valid() && Prepended(was, room, Out(), r, Grows(), true, content)
      requires (!r ==> pkt.Length - |was| == room) && length == |content| < TWO64
      modifies this, pkt
      ensures Valid() && (pkt == old(pkt) || fresh(pkt)) && (!r ==> pkt == old(pkt))
      ensures Prepended(was, room, Out(), r, Grows(), ok, Tlv(tag, content))
    {
      hide Prepended, Grows, EndsWith, LengthBytes, Out;
      ghost var mid, left := Out(), Room();
      Grown(was, room, mid, r, Grows(), content);
      ok := BuildHeader(r, tag, length);
      Then(was, room, mid, left, Out(), r, Grows(), ok, content, [tag] + LengthBytes(length));
    }

    /** Contents that did not fit leave no object either. */
    ghost method Short(was: seq<Byte>, room: nat, r: bool, tag: Byte, content: seq<Byte>)
      requires Valid() && Prepended(was, room, Out(), r, Grows(), false, content) && |content| < TWO64
      ensures Prepended(was, room, Out(), r, Grows(), false, Tlv(tag, content))
    {
      hide LengthBytes;
      Fails(was, room, Out(), r, Grows(), content, Tlv(tag, content));
    }

    /** asn_realloc_rbuild_int. */
    method BuildInt(r: bool, tag: Byte, v: int) returns (ok: bool)
      requires Valid() && -TWO63 <= v < TWO63
      modifies this, pkt
      ensures Valid() && (pkt == old(pkt) || fresh(pkt)) && (!r ==> pkt == old(pkt))
      ensures Prepended(old(Out()), old(Room()), Out(), r, Grows(), ok, Tlv(tag, IntContent(v)))
    {
      hide Prepended, Grows, EndsWith, Tlv, SignedBytes, Out;
      var integer := v;
      if integer > TWO31 - 1 {
        integer := integer % TWO32;
      } else if integer < -TWO31 {
        integer := 0 - integer % TWO32;
      }
      assert integer == TruncS(v);
      ok := BuildInteger(r, tag, integer);
    }

    method BuildInteger(r: bool, tag: Byte, v: int) returns (ok: bool)
      requires Valid() && -TWO64 <= v < TWO64
      modifies this, pkt
      ensures Valid() && (pkt == old(pkt) || fresh(pkt)) && (!r ==> pkt == old(pkt))
      ensures |SignedBytes(v)| <= 9
      ensures Prepended(old(Out()), old(Room()), Out(), r, Grows(), ok, Tlv(tag, SignedBytes(v)))
    {
      hide Prepended, Grows, EndsWith, Tlv, SignedBytes, Out;
      WordLength(v);
      ghost var was, room := Out(), Room();
      var start := offset;
      ok := PutInteger(r, v);
      if !ok {
        Short(was, room, r, tag, SignedBytes(v));
        return;
      }
      Grown(was, room, Out(), r, Grows(), SignedBytes(v));
      ok := Close(was, room, r, tag, offset - start, SignedBytes(v));
    }

    /** asn_realloc_rbuild_unsigned_int. */
    method BuildUnsigned(r: bool, tag: Byte, v: nat) returns (ok: bool)
      requires Valid() && v < TWO64
      modifies this, pkt
      ensures Valid() && (pkt == old(pkt) || fresh(pkt)) && (!r ==> pkt == old(pkt))
      ensures Prepended(old(Out()), old(Room()), Out(), r, Grows(), ok, Tlv(tag, UnsignedContent(v)))
    {
      hide Prepended, Grows, EndsWith, Tlv, SignedBytes, Out;
      var integer := v;
      if integer > TWO32 - 1 { integer := integer % TWO32; }
      ok := BuildInteger(r, tag, integer);
    }

    /** asn_realloc_rbuild_string. */
    method BuildString(r: bool, tag: Byte, str: seq<Byte>) returns (ok: bool)
      requires Valid() && |str| < TWO64
      modifies this, pkt
      ensures Valid() && (pkt == old(pkt) || fresh(pkt)) && (!r ==> pkt == old(pkt))
      ensures Prepended(old(Out()), old(Room()), Out(), r, Grows(), ok, Tlv(tag, str))
    {
      hide Grows, Tlv;
      ghost var was, room := Out(), Room();
      ok := Reserve(r, |str|, str);
      if !ok {
        Short(was, room, r, tag, str);
        return;
      }
      WriteAll(str);
      ok := Close(was, room, r, tag, |str|, str);
    }

    /** memcpy in front. */
    method WriteAll(str: seq<Byte>)
      requires Valid() && Room() >= |str|
      modifies this`offset, pkt
      ensures Valid() && offset == old(offset) + |str|
      ensures Out() == str + old(Out())
    {
      ghost var was := Out();
      offset := offset + |str|;
      var at := pkt.Length - offset;
      forall i | 0 <= i < |str| { pkt[at + i] := str[i]; }
      assert pkt[at..at + |str|] == str;
      assert pkt[at + |str|..] == was;
      assert Out() == pkt[at..at + |str|] + pkt[at + |str|..];
    }

    /** The octets of a Counter64 held in two halves, from the least significant one. */
    method PutHalves(r: bool, high: nat, low: nat) returns (ok: bool)
      requires Valid() && high < TWO32 && low < TWO32
      modifies this, pkt
      ensures Valid() && (pkt == old(pkt) || fresh(pkt)) && (!r ==> pkt == old(pkt))
      ensures Prepended(old(Out()), old(Room()), Out(), r, Grows(), ok, SignedBytes(high * TWO32 + low))
    {
      hide SignedBytes, Prepended, Grows, EndsWith, Pushed, Out;
      ghost var was, room, v := Out(), Room(), high * TWO32 + low;
      var b, rest := SplitHalf(high, low);
      ok := Put(r, b);
      ghost var w: seq<Byte> := [b];
      if !ok {
        Fails(was, room, Out(), r, Grows(), w, SignedBytes(v));
        return;
      }
      ok, w := PutLowHalf(was, room, r, v, high, rest, w);
      if !ok { return; }
      if high != 0 {
        ok, w := PutShifts(was, room, r, v, high, 0, w);
        if !ok { return; }
      }
      PushEnds(v, w, 0);
      if pkt[pkt.Length - offset] >= 128 {
        ok, w := PutMore(was, room, r, w, 0);
      }
    }

    /** The rest of the low half, filled up to four octets when a high half follows. */
    method PutLowHalf(ghost was: seq<Byte>, ghost room: nat, r: bool, ghost v: nat, high: nat, start: nat,
                      ghost pre: seq<Byte>)
      returns (ok: bool, ghost w: seq<Byte>)
      requires Valid() && Prepended(was, room, Out(), r, Grows(), true, pre)
      requires (!r ==> pkt.Length - |was| == room) && offset >= 1 && pre != [] && pkt[pkt.Length - offset] == pre[0]
      requires Pushed(v, high * Scale(1) + start, pre) && start < Scale(1)
      modifies this, pkt
      ensures Valid() && (pkt == old(pkt) || fresh(pkt)) && (!r ==> pkt == old(pkt))
      ensures ok ==> offset >= 1 && w != [] && pkt[pkt.Length - offset] == w[0]
      ensures if ok then Prepended(was, room, Out(), r, Grows(), true, w) && Pushed(v, high, w)
              else Prepended(was, room, Out(), r, Grows(), false, SignedBytes(v))
    {
      hide SignedBytes, Prepended, Grows, EndsWith, Pushed, Out;
      var low, count := start, 1;
      ok, w := true, pre;
      while low != 0 || (high != 0 && count < 4)
        invariant Valid() && (pkt == old(pkt) || fresh(pkt)) && (!r ==> pkt == old(pkt))
        invariant ok && offset >= 1 && w != [] && pkt[pkt.Length - offset] == w[0]
        invariant Prepended(was, room, Out(), r, Grows(), true, w)
        invariant 1 <= count <= 4 && 0 <= low < Scale(count)
        invariant Pushed(v, high * Scale(count) + low, w)
        decreases 4 - count
      {
        var b: Byte := low % 256;
        HalfStep(high, low, count);
        PushStep(v, high * Scale(count) + low, w, b);
        ok, w := PutMore(was, room, r, w, b);
        if !ok {
          Fails(was, room, Out(), r, Grows(), w, SignedBytes(v));
          return;
        }
        low, count := low / 256, count + 1;
      }
    }

    /** asn_realloc_rbuild_unsigned_int64; the two special tags go inside an Opaque. */
    method BuildCounter64(r: bool, tag: Byte, high: nat, low: nat) returns (ok: bool)
      requires Valid() && high < TWO64 && low < TWO64
      modifies this, pkt
      ensures Valid() && (pkt == old(pkt) || fresh(pkt)) && (!r ==> pkt == old(pkt))
      ensures Prepended(old(Out()), old(Room()), Out(), r, Grows(), ok, Counter64Object(tag, high, low))
    {
      hide Prepended, Grows, EndsWith, Tlv, SignedBytes, Out;
      var h, l := if high > TWO32 - 1 then high % TWO32 else high, if low > TWO32 - 1 then low % TWO32 else low;
      ghost var c := Counter64Content(high, low);
      ghost var was, room := Out(), Room();
      var start := offset;
      ok := PutHalves(r, h, l);
      if !ok {
        Fails(was, room, Out(), r, Grows(), c, Counter64Object(tag, high, low));
        return;
      }
      Grown(was, room, Out(), r, Grows(), c);
      if Special(tag) {
        ok := Wrap(was, room, r, tag, offset - start, c);
      } else {
        ok := Close(was, room, r, tag, offset - start, c);
      }
    }

    /** Inner length, special tag and Opaque header in front of contents; room for all five octets is made first. */
    method Wrap(ghost was: seq<Byte>, ghost room: nat, r: bool, tag: Byte, size: Byte, ghost c: seq<Byte>)
      returns (ok: bool)
      requires Valid() && Prepended(was, room, Out(), r, Grows(), true, c) && size == |c| <= 9
      requires !r ==> pkt.Length - |was| == room
      modifies this, pkt
      ensures Valid() && (pkt == old(pkt) || fresh(pkt)) && (!r ==> pkt == old(pkt))
      ensures Prepended(was, room, Out(), r, Grows(), ok, Tlv(OPAQUE, Wrapped(tag, c)))
    {
      hide Prepended, Grows, EndsWith, Out;
      ghost var mid, left := Out(), Room();
      ghost var five: seq<Byte> := [OPAQUE, size + 3, OPAQUE_TAG1, tag, size];
      Grown(was, room, mid, r, Grows(), c);
      WrappedForm(tag, c);
      ok := Reserve(r, 5, five);
      if !ok {
        Then(was, room, mid, left, Out(), r, Grows(), ok, c, five);
        return;
      }
      WriteThree(was, room, r, c, size, tag, OPAQUE_TAG1);
      ok := Close(was, room, r, OPAQUE, size as nat + 3, Wrapped(tag, c));
    }

    /** Three octets go in front where room for them was made. */
    method WriteThree(ghost was: seq<Byte>, ghost room: nat, r: bool, ghost w: seq<Byte>, a: Byte, b: Byte, c: Byte)
      requires Valid() && Room() >= 3
      requires Prepended(was, room, Out(), r, Grows(), true, w) && (!r ==> Room() == room - |w|)
      modifies this`offset, pkt
      ensures Valid()
      ensures Prepended(was, room, Out(), r, Grows(), true, [c, b, a] + w)
    {
      ghost var mid, left := Out(), Room();
      Write(a);
      Write(b);
      Write(c);
      assert [c] + ([b] + ([a] + mid)) == [c, b, a] + mid;
      Then(was, room, mid, left, Out(), r, Grows(), true, w, [c, b, a]);
    }

    /** One subidentifier, from its last octet. */
    method PutSub(r: bool, all: nat) returns (ok: bool)
      requires Valid()
      modifies this, pkt
      ensures Valid() && (pkt == old(pkt) || fresh(pkt)) && (!r ==> pkt == old(pkt))
      ensures Prepended(old(Out()), old(Room()), Out(), r, Grows(), ok, Base128(all))
    {
      hide Base128, Prepended, Grows, EndsWith, SubPushed, Out;
      ghost var was, room := Out(), Room();
      var b: Byte := all % 128;
      SubFirst(all, b);
      var v: int := all / 128;
      ok := Put(r, b);
      ghost var w: seq<Byte> := [b];
      if !ok {
        Fails(was, room, Out(), r, Grows(), w, Base128(all));
        return;
      }
      while v > 0
        invariant Valid() && (pkt == old(pkt) || fresh(pkt)) && (!r ==> pkt == old(pkt))
        invariant ok && Prepended(was, room, Out(), r, Grows(), true, w)
        invariant v >= 0 && SubPushed(all, v, w)
        decreases v
      {
        b := v % 128 + 128;
        SubStep(all, v, w, b);
        ok, w := PutMore(was, room, r, w, b);
        if !ok {
          Fails(was, room, Out(), r, Grows(), w, Base128(all));
          return;
        }
        v := v / 128;
      }
      SubEnds(all, w);
    }

    /** All subidentifiers after the second, the last one first. */
    method PutTail(r: bool, o: Oid64) returns (ok: bool)
      requires Valid() && |o| >= 2
      modifies this, pkt
      ensures Valid() && (pkt == old(pkt) || fresh(pkt)) && (!r ==> pkt == old(pkt))
      ensures Prepended(old(Out()), old(Room()), Out(), r, Grows(), ok, Subids(Truncated(o[2..])))
    {
      hide Base128, Prepended, Grows, EndsWith, Out, Subids;
      ghost var was, room, t := Out(), Room(), Truncated(o[2..]);
      var i := |o|;
      NoSubids(t);
      Nothing(was, room, r, Grows());
      ok := true;
      while i > 2
        invariant Valid() && (pkt == old(pkt) || fresh(pkt)) && (!r ==> pkt == old(pkt))
        invariant 2 <= i <= |o| && ok && Prepended(was, room, Out(), r, Grows(), true, Subids(t[i - 2..]))
      {
        var v := o[i - 1];
        if v > MAXSUBID { v := v % TWO32; }
        assert v == t[i - 3];
        SubidsBefore(t, i - 3);
        ghost var mid, left := Out(), Room();
        Grown(was, room, mid, r, Grows(), Subids(t[i - 2..]));
        ok := PutSub(r, v);
        Then(was, room, mid, left, Out(), r, Grows(), ok, Subids(t[i - 2..]), Base128(v));
        if !ok {
          SubidsSuffix(t, i - 3);
          Fails(was, room, Out(), r, Grows(), Subids(t[i - 3..]), Subids(t));
          return;
        }
        i := i - 1;
      }
      assert t[0..] == t;
    }

    /** The contents of an identifier; a bad second subidentifier is noticed only after the tail is out. */
    method PutContent(r: bool, o: Oid64) returns (ok: bool)
      requires Valid()
      modifies this, pkt
      ensures Valid() && (pkt == old(pkt) || fresh(pkt)) && (!r ==> pkt == old(pkt))
      ensures if Refused(o) then !ok && EndsWith(Out(), old(Out()))
              else Prepended(old(Out()), old(Room()), Out(), r, Grows(), ok, ReverseContent(o))
    {
      hide Base128, Grows, Subids, Out, Prepended;
      ghost var was, room := Out(), Room();
      if |o| == 0 {
        ok := Reserve(r, 2, [0, 0]);
        if ok {
          Nothing(was, room, r, Grows());
          WriteTwo(was, room, r, [], 0, 0);
          assert [0, 0] + [] == [0, 0];
        }
      } else if o[0] > 2 {
        return false;
      } else if |o| == 1 {
        ok := Put(r, o[0]);
      } else {
        ghost var tail := Subids(Truncated(o[2..]));
        ok := PutTail(r, o);
        Kept(was, room, Out(), r, Grows(), ok, tail);
        if ok {
          ghost var mid, left := Out(), Room();
          Grown(was, room, mid, r, Grows(), tail);
          if o[1] > 40 && o[0] < 2 { return false; }
          PairContent(o);
          ok := PutSub(r, (o[0] * 40 + o[1]) % TWO64);
          Then(was, room, mid, left, Out(), r, Grows(), ok, tail, Base128(FirstPair(o)));
        } else if !Refused(o) {
          PairContent(o);
          Fails(was, room, Out(), r, Grows(), tail, ReverseContent(o));
        }
      }
    }

    /** asn_realloc_rbuild_objid. */
    method BuildObjid(r: bool, tag: Byte, o: Oid64) returns (ok: bool)
      requires Valid() && Addressable(o)
      modifies this, pkt
      ensures Valid() && (pkt == old(pkt) || fresh(pkt)) && (!r ==> pkt == old(pkt))
      ensures !Refused(o) ==> |ReverseContent(o)| < TWO64
      ensures if Refused(o) then !ok && EndsWith(Out(), old(Out()))
              else Prepended(old(Out()), old(Room()), Out(), r, Grows(), ok, Tlv(tag, ReverseContent(o)))
    {
      hide Prepended, Grows, EndsWith, Tlv, ReverseContent, Refused, Out;
      ghost var was, room := Out(), Room();
      var start := offset;
      ok := PutContent(r, o);
      if !ok {
        if !Refused(o) {
          ContentLength(o);
          Short(was, room, r, tag, ReverseContent(o));
        }
        return;
      }
      ContentLength(o);
      Grown(was, room, Out(), r, Grows(), ReverseContent(o));
      ok := Close(was, room, r, tag, offset - start, ReverseContent(o));
    }
  }
}
