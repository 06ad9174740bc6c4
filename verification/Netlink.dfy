/** tunnel/tools/wireguard-tools/src/netlink.h: netlink attributes in a fixed buffer, written
    by the put and nest functions and read back by the attribute walk. Integers are
    little-endian, as on every platform the app is built for. */
module Netlink {
  import opened Numbers

  type Bytes = seq<uint8>

  const ATTR_HDRLEN: nat := 4
  /** struct nlmsghdr and struct genlmsghdr. */
  const HEADER: nat := 20
  const NLA_F_NESTED: nat := 0x8000

  function Align(n: nat): (r: nat)
    ensures n <= r < n + 4 && r % 4 == 0
  {
    (n + 3) / 4 * 4
  }

  lemma AlignHeader(n: nat)
    ensures Align(4 + n) == 4 + Align(n)
  {
  }

  lemma AlignWhole(n: nat)
    requires n % 4 == 0
    ensures Align(n) == n
  {
  }

  function U16(x: uint16): (r: Bytes)
    ensures |r| == 2
  {
    [x % 256, x / 256]
  }

  function U32(x: uint32): (r: Bytes)
    ensures |r| == 4
  {
    U16(x % 0x1_0000) + U16(x / 0x1_0000)
  }

  function Zeros(n: nat): (r: Bytes)
    ensures |r| == n
  {
    seq(n, _ => 0)
  }

  /** One attribute: length, type, payload and padding. The length field is a uint16_t. */
  function Attr(kind: uint16, data: Bytes): (r: Bytes)
    ensures |r| == 4 + Align(|data|) && |r| % 4 == 0
  {
    U16((4 + |data|) % 0x1_0000) + U16(kind) + data + Zeros(Align(|data|) - |data|)
  }

  lemma AttrParts(before: Bytes, kind: uint16, data: Bytes)
    ensures before + U16((4 + |data|) % 0x1_0000) + U16(kind) + data + Zeros(Align(|data|) - |data|)
         == before + Attr(kind, data)
  {
    hide U16, Zeros, Align;
  }

  /** An attribute to be put; a nested one has the NLA_F_NESTED bit in its type. */
  datatype Item = Item(kind: uint16, nested: bool, data: Bytes) {
    predicate Valid() { kind < 0x4000 }

    function Bytes(): (r: Bytes)
      requires Valid()
      ensures |r| == 4 + Align(|data|) && |r| % 4 == 0
    {
      Attr(if nested then NLA_F_NESTED + kind else kind, data)
    }
  }

  predicate AllValid(items: seq<Item>) { forall i :: 0 <= i < |items| ==> items[i].Valid() }

  function Encode(items: seq<Item>): (r: Bytes)
    requires AllValid(items)
    ensures |r| % 4 == 0
  {
    if items == [] then [] else items[0].Bytes() + Encode(items[1..])
  }

  lemma {:induction false} EncodeAppend(s: seq<Item>, t: seq<Item>)
    requires AllValid(s) && AllValid(t)
    ensures Encode(s + t) == Encode(s) + Encode(t)
  {
    if s == [] {
      assert s + t == t;
    } else {
      EncodeAppend(s[1..], t);
      assert (s + t)[1..] == s[1..] + t;
    }
  }

  lemma EncodeNone()
    ensures Encode([]) == []
  {
  }

  lemma EncodeOne(i: Item)
    requires i.Valid()
    ensures Encode([i]) == i.Bytes()
  {
    assert [i][1..] == [];
  }

  // ---- Reading ----

  datatype Raw = Raw(kind: nat, data: Bytes)

  function GetU16(s: Bytes): uint16
    requires |s| >= 2
  {
    s[0] as int + 256 * s[1] as int
  }

  function GetU32(s: Bytes): uint32
    requires |s| >= 4
  {
    GetU16(s) + 0x1_0000 * GetU16(s[2..])
  }

  /** mnl_attr_ok on the bytes that remain. */
  predicate AttrOk(s: Bytes) {
    |s| >= 4 && 4 <= GetU16(s) <= |s|
  }

  /** The attributes mnl_attr_for_each_nested visits, with the type bits masked. */
  function Walk(s: Bytes): seq<Raw> {
    if !AttrOk(s) then []
    else
      var n := GetU16(s);
      [Raw(GetU16(s[2..]) % 0x4000, s[4..n])] + if Align(n) < |s| then Walk(s[Align(n)..]) else []
  }

  lemma WalkEmpty()
    ensures Walk([]) == []
  {
  }

  /** The walk reads back an attribute that was put and goes on behind it. */
  lemma WalkAttr(kind: uint16, data: Bytes, rest: Bytes)
    requires |data| < 0xfffc
    ensures Walk(Attr(kind, data) + rest) == [Raw(kind % 0x4000, data)] + Walk(rest)
  {
    var s := Attr(kind, data) + rest;
    var n := 4 + |data|;
    assert s[0] == n % 256 && s[1] == n / 256 && s[2] == kind % 256 && s[3] == kind / 256;
    assert GetU16(s) == n;
    assert s[2..][0] == s[2] && s[2..][1] == s[3];
    assert GetU16(s[2..]) == kind;
    assert s[4..n] == data;
    assert Align(n) == |Attr(kind, data)|;
    assert s[Align(n)..] == rest;
    if rest == [] {
      WalkEmpty();
    }
  }

  function Raws(items: seq<Item>): (r: seq<Raw>)
    ensures |r| == |items|
  {
    seq(|items|, i requires 0 <= i < |items| => Raw(items[i].kind, items[i].data))
  }

  /** What is put is what is visited, in order, as long as the lengths fit their field. */
  lemma {:induction false} WalkEncode(items: seq<Item>)
    requires AllValid(items) && |Encode(items)| <= 0xfffc
    ensures Walk(Encode(items)) == Raws(items)
  {
    hide Walk, Attr, Align;
    if items == [] {
      WalkEmpty();
    } else {
      var i := items[0];
      var rest := Encode(items[1..]);
      assert Encode(items) == i.Bytes() + rest;
      assert |i.data| < 0xfffc;
      WalkAttr(if i.nested then NLA_F_NESTED + i.kind else i.kind, i.data, rest);
      WalkEncode(items[1..]);
      assert Raws(items) == [Raw(i.kind, i.data)] + Raws(items[1..]);
    }
  }

  lemma ReadU16(x: uint16)
    ensures |U16(x)| == 2 && GetU16(U16(x)) == x
  {
  }

  lemma ReadU32(x: uint32)
    ensures |U32(x)| == 4 && GetU32(U32(x)) == x
  {
    assert U32(x)[2..] == U16(x / 0x1_0000);
  }

  /** mnl_attr_parse_nested with a callback that collects what it is shown. */
  method ParseNested(payload: Bytes) returns (visited: seq<Raw>)
    ensures visited == Walk(payload)
  {
    visited := [];
    var rest := payload;
    while AttrOk(rest)
      invariant visited + Walk(rest) == Walk(payload)
      decreases |rest|
    {
      var n := GetU16(rest);
      visited := visited + [Raw(GetU16(rest[2..]) % 0x4000, rest[4..n])];
      rest := if Align(n) < |rest| then rest[Align(n)..] else [];
    }
  }

  // ---- Writing ----

  /** A message under construction: `buf` of the socket's buffer size and nlmsg_len. */
  class Message {
    const buf: array<uint8>
    var len: nat

    predicate Valid()
      reads this
    {
      HEADER <= len <= buf.Length <= 0xfffc && len % 4 == 0
    }

    /** Everything behind the two headers. */
    ghost function Body(): Bytes
      reads this, buf
      requires Valid()
    {
      buf[HEADER..len]
    }

    constructor (size: nat)
      requires HEADER <= size <= 0xfffc
      ensures Valid() && fresh(buf) && buf.Length == size && Body() == []
    {
      buf := new uint8[size](_ => 0);
      len := HEADER;
    }

    /** mnlg_msg_prepare: start over in the same buffer. */
    method Prepare()
      requires HEADER <= buf.Length <= 0xfffc
      modifies this
      ensures Valid() && len == HEADER && Body() == []
    {
      len := HEADER;
    }

    /** Write bytes at the tail without counting them yet. */
    method Store(at: nat, data: Bytes)
      requires at + |data| <= buf.Length
      modifies buf
      ensures forall k :: at <= k < at + |data| ==> buf[k] == data[k - at]
      ensures forall k :: 0 <= k < buf.Length && !(at <= k < at + |data|) ==> buf[k] == old(buf[k])
    {
      for i := 0 to |data|
        invariant forall k :: at <= k < at + i ==> buf[k] == data[k - at]
        invariant forall k :: 0 <= k < buf.Length && !(at <= k < at + i) ==> buf[k] == old(buf[k])
      {
        buf[at + i] := data[i];
      }
    }

    /** Extend the written bytes, which end at `at`. */
    method Emit(at: nat, data: Bytes)
      requires HEADER <= at && at + |data| <= buf.Length
      modifies buf
      ensures buf[HEADER..at + |data|] == old(buf[HEADER..at]) + data
    {
      Store(at, data);
      assert buf[HEADER..at + |data|] == buf[HEADER..at] + buf[at..at + |data|];
      assert buf[HEADER..at] == old(buf[HEADER..at]);
    }

    /** mnl_attr_put: the caller vouches for the space. */
    method Put(kind: uint16, data: Bytes)
      requires Valid() && len + 4 + Align(|data|) <= buf.Length
      modifies this, buf
      ensures Valid() && len == old(len) + 4 + Align(|data|)
      ensures Body() == old(Body()) + Attr(kind, data)
    {
      hide U16, Zeros, Align;
      AlignHeader(|data|);
      var payloadLen := 4 + |data|;
      ghost var before := Body();
      Emit(len, U16(payloadLen % 0x1_0000));
      Emit(len + 2, U16(kind));
      Emit(len + 4, data);
      Emit(len + 4 + |data|, Zeros(Align(|data|) - |data|));
      len := len + Align(payloadLen);
      AttrParts(before, kind, data);
    }

    method PutCheck(limit: nat, kind: uint16, data: Bytes) returns (ok: bool)
      requires Valid() && limit == buf.Length
      modifies this, buf
      ensures Valid()
      ensures ok == (old(len) + 4 + Align(|data|) <= limit)
      ensures ok ==> len == old(len) + 4 + Align(|data|) && Body() == old(Body()) + Attr(kind, data)
      ensures !ok ==> len == old(len) && Body() == old(Body())
    {
      if len + ATTR_HDRLEN + Align(|data|) > limit {
        return false;
      }
      Put(kind, data);
      return true;
    }

    /** mnl_attr_nest_start: only the type is written, the length comes with NestEnd. */
    method NestStart(kind: uint16) returns (start: nat)
      requires Valid() && kind < 0x4000 && len + 4 <= buf.Length
      modifies this, buf
      ensures Valid() && start == old(len) && len == old(len) + 4
      ensures Body()[..start - HEADER] == old(Body()) && Body()[start - HEADER + 2..] == U16(NLA_F_NESTED + kind)
    {
      start := len;
      ghost var before := Body();
      Store(start + 2, U16(NLA_F_NESTED + kind));
      len := len + Align(ATTR_HDRLEN);
      assert buf[HEADER..start] == before;
    }

    method NestEnd(start: nat)
      requires Valid() && HEADER <= start && start + 4 <= len
      modifies buf
      ensures Body() == old(Body())[..start - HEADER] + U16(len - start) + old(Body())[start - HEADER + 2..]
    {
      ghost var at, before := start - HEADER, Body();
      Store(start, U16(len - start));
      ghost var after := before[..at] + U16(len - start) + before[at + 2..];
      assert |Body()| == |after|;
      forall k | 0 <= k < |after|
        ensures Body()[k] == after[k]
      {
        assert Body()[k] == buf[HEADER + k];
      }
    }

    method NestCancel(start: nat)
      requires Valid() && HEADER <= start <= len && start % 4 == 0
      modifies this
      ensures Valid() && len == start && Body() == old(Body())[..start - HEADER]
    {
      len := len - (len - start);
    }
  }
}
