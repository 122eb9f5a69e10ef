/** The decoder's walk over packet headers (src/decode.c): link-layer shims, the IPv6 extension
    header chain, TCP options, and the lengths that the flow table derives from it. */
module HeaderWalk {

  type byte = x: int | 0 <= x < 256

  function U8(p: seq<byte>, i: nat): (r: nat)
    requires i < |p|
    ensures r < 256 && r == p[i]
  {
    p[i]
  }

  function U16(p: seq<byte>, i: nat): (r: nat)
    requires i + 2 <= |p|
    ensures r < 0x1_0000
  {
    U8(p, i) * 256 + U8(p, i + 1)
  }

  /** The number that two bytes on the wire stand for. */
  function BigEndian(hi: int, lo: int): int {
    256 * hi + lo
  }

  /** Where the walk stands: at an offset with a number of captured bytes left; given up; or
      beyond what the capture length allows, where the source reads past the captured bytes or
      its capture length wraps below zero. */
  datatype Cursor = At(pos: nat, cap: nat) | Failed | Beyond

  /** The walk has moved from pos within the bytes it may look at. */
  predicate Moved(c: Cursor, pos: nat, cap: nat) {
    c.At? ==> c.pos >= pos && c.pos + c.cap == pos + cap
  }

  // ---- ether types and protocols ----

  const IPv4 := 0x0800
  const IPv6 := 0x86DD
  const VLAN := 0x8100
  const MPLS := 0x8847
  const MPLSM := 0x8848
  const PPPOE := 0x8864

  const HOP := 0
  const TCP := 6
  const UDP := 17
  const ROUTE := 43
  const FRAG := 44
  const NONEXT := 59
  const DOPT := 60
  const ICMP := 1
  const ICMP6 := 58

  // ---- link-layer shims ----

  datatype Layer2 = Layer2(cur: Cursor, ethertype: nat)

  predicate IsShim(t: nat) {
    t == VLAN || t == MPLS || t == MPLSM || t == PPPOE
  }

  /** YF_IP_VERSION_TO_TYPE. */
  function ByVersion(p: seq<byte>, pos: nat, cap: nat): (r: Layer2)
    requires pos + cap <= |p|
    ensures r == Layer2(Failed, 0) || r.cur == At(pos, cap)
  {
    if cap < 1 then Layer2(Failed, 0)
    else if U8(p, pos) / 16 == 4 then Layer2(At(pos, cap), IPv4)
    else if U8(p, pos) / 16 == 6 then Layer2(At(pos, cap), IPv6)
    else Layer2(Failed, 0)
  }

  /** yfDecodeL2PPP. */
  function Ppp(p: seq<byte>, pos: nat, cap: nat): (r: Layer2)
    requires pos + cap <= |p|
    ensures r == Layer2(Failed, 0) || (cap >= 2 && r.cur == At(pos + 2, cap - 2))
  {
    if cap < 2 then Layer2(Failed, 0)
    else
      var next := At(pos + 2, cap - 2);
      match U16(p, pos)
      case 0x0021 => Layer2(next, IPv4)
      case 0x0057 => Layer2(next, IPv6)
      case 0x0281 => Layer2(next, MPLS)
      case 0x0283 => Layer2(next, MPLSM)
      case _ => Layer2(Failed, 0)
  }

  /** One shim header. */
  function Shim(p: seq<byte>, pos: nat, cap: nat, t: nat): (r: Layer2)
    requires pos + cap <= |p| && IsShim(t)
    ensures Moved(r.cur, pos, cap) && (r.cur.At? ==> r.cur.cap <= cap - 4)
  {
    if t == PPPOE then
      if cap < 6 then Layer2(Failed, 0) else Ppp(p, pos + 6, cap - 6)
    else if cap < 4 then Layer2(Failed, 0)
    else if t == VLAN then Layer2(At(pos + 4, cap - 4), U16(p, pos + 2))
    else if U8(p, pos + 2) % 2 == 1 then ByVersion(p, pos + 4, cap - 4)
    else Layer2(At(pos + 4, cap - 4), t)
  }

  /** All shim headers: every one takes at least four bytes, and what follows is not a shim. */
  function Shims(p: seq<byte>, pos: nat, cap: nat, t: nat): (r: Layer2)
    requires pos + cap <= |p|
    ensures Moved(r.cur, pos, cap) && (r.cur.At? ==> !IsShim(r.ethertype))
    decreases cap
  {
    if !IsShim(t) then Layer2(At(pos, cap), t)
    else
      var s := Shim(p, pos, cap, t);
      if s.cur.At? then Shims(p, s.cur.pos, s.cur.cap, s.ethertype) else s
  }

  lemma ShimsStep(p: seq<byte>, pos: nat, cap: nat, t: nat)
    requires pos + cap <= |p| && IsShim(t)
    ensures
      var s := Shim(p, pos, cap, t);
      Shims(p, pos, cap, t) == if s.cur.At? then Shims(p, s.cur.pos, s.cur.cap, s.ethertype) else s
  {
    hide Shim;
  }

  lemma ShimsEnd(p: seq<byte>, pos: nat, cap: nat, t: nat)
    requires pos + cap <= |p| && !IsShim(t)
    ensures Shims(p, pos, cap, t) == Layer2(At(pos, cap), t)
  {
  }

  /** One turn of the loop of yfDecodeL2Shim. */
  method ReadShim(p: seq<byte>, pos: nat, cap: nat, t: nat) returns (r: Layer2)
    requires pos + cap <= |p| && IsShim(t)
    ensures r == Shim(p, pos, cap, t)
  {
    hide U16, Ppp, ByVersion;
    if t == VLAN {
      if cap < 4 { return Layer2(Failed, 0); }
      return Layer2(At(pos + 4, cap - 4), U16(p, pos + 2));
    } else if t == MPLS || t == MPLSM {
      if cap < 4 { return Layer2(Failed, 0); }
      if U8(p, pos + 2) % 2 == 1 { return ByVersion(p, pos + 4, cap - 4); }
      return Layer2(At(pos + 4, cap - 4), t);
    } else {
      if cap < 6 { return Layer2(Failed, 0); }
      return Ppp(p, pos + 6, cap - 6);
    }
  }

  /** yfDecodeL2Shim. */
  method DecodeShims(p: seq<byte>, pos0: nat, cap0: nat, t0: nat) returns (r: Layer2)
    requires pos0 + cap0 <= |p|
    ensures r == Shims(p, pos0, cap0, t0)
  {
    hide Shim, Shims, IsShim;
    var pos: nat, cap: nat, t: nat := pos0, cap0, t0;
    while IsShim(t)
      invariant pos + cap == pos0 + cap0
      invariant Shims(p, pos, cap, t) == Shims(p, pos0, cap0, t0)
      decreases cap
    {
      ShimsStep(p, pos, cap, t);
      r := ReadShim(p, pos, cap, t);
      if !r.cur.At? { return; }
      pos, cap, t := r.cur.pos, r.cur.cap, r.ethertype;
    }
    ShimsEnd(p, pos, cap, t);
    return Layer2(At(pos, cap), t);
  }

  // ---- what the shims say ----

  /** The shim header of type t at pos is followed, at q, by a header of type u: after a VLAN tag
      the type it names, after the bottom MPLS label an IP header of the version it carries, after
      PPPoE what the PPP protocol number stands for. */
  predicate ShimTo(p: seq<byte>, pos: nat, end: nat, t: nat, q: nat, u: nat)
    requires end <= |p|
  {
    && q <= end
    && match t {
         case 0x8100 => q == pos + 4 && u == BigEndian(p[pos + 2], p[pos + 3])
         case 0x8847 => q == pos + 4 && LabelTo(p, pos, end, t, u)
         case 0x8848 => q == pos + 4 && LabelTo(p, pos, end, t, u)
         case 0x8864 =>
           && q == pos + 8
           && var ppp := BigEndian(p[pos + 6], p[pos + 7]);
              || (ppp == 0x0021 && u == 0x0800) || (ppp == 0x0057 && u == 0x86DD)
              || (ppp == 0x0281 && u == 0x8847) || (ppp == 0x0283 && u == 0x8848)
         case _ => false
       }
  }

  predicate LabelTo(p: seq<byte>, pos: nat, end: nat, t: nat, u: nat)
    requires pos + 4 <= end <= |p|
  {
    if p[pos + 2] % 2 == 0 then u == t
    else pos + 4 < end && ((p[pos + 4] / 16 == 4 && u == 0x0800) || (p[pos + 4] / 16 == 6 && u == 0x86DD))
  }

  /** Shim headers lead from type t at pos to type u at q, which is not a shim. */
  ghost predicate ShimPath(p: seq<byte>, pos: nat, end: nat, t: nat, q: nat, u: nat)
    requires end <= |p|
    decreases end - pos
  {
    if t in {0x8100, 0x8847, 0x8848, 0x8864} then
      exists m, v :: ShimTo(p, pos, end, t, m, v) && ShimPath(p, m, end, v, q, u)
    else q == pos && u == t
  }

  lemma ShimIsTo(p: seq<byte>, pos: nat, cap: nat, t: nat, q: nat, u: nat)
    requires pos + cap <= |p| && IsShim(t) && q <= pos + cap
    ensures Shim(p, pos, cap, t) == Layer2(At(q, pos + cap - q), u) <==> ShimTo(p, pos, pos + cap, t, q, u)
  {
  }

  /** The walk over the shims ends where they lead, and wherever they do within the capture. */
  lemma {:induction false} ShimsArePath(p: seq<byte>, pos: nat, cap: nat, t: nat, q: nat, u: nat)
    requires pos + cap <= |p| && q <= pos + cap
    ensures Shims(p, pos, cap, t) == Layer2(At(q, pos + cap - q), u) <==> ShimPath(p, pos, pos + cap, t, q, u)
    decreases cap
  {
    hide Shim, Shims, ShimTo;
    if IsShim(t) {
      ShimsStep(p, pos, cap, t);
      var s := Shim(p, pos, cap, t);
      if s.cur.At? {
        ShimIsTo(p, pos, cap, t, s.cur.pos, s.ethertype);
        ShimsArePath(p, s.cur.pos, s.cur.cap, s.ethertype, q, u);
      }
      if ShimPath(p, pos, pos + cap, t, q, u) {
        var m: nat, v: nat :| ShimTo(p, pos, pos + cap, t, m, v) && ShimPath(p, m, pos + cap, v, q, u);
        ShimToWithin(p, pos, pos + cap, t, m, v);
        ShimIsTo(p, pos, cap, t, m, v);
      }
    } else {
      ShimsEnd(p, pos, cap, t);
    }
  }

  lemma ShimToWithin(p: seq<byte>, pos: nat, end: nat, t: nat, q: nat, u: nat)
    requires end <= |p| && ShimTo(p, pos, end, t, q, u)
    ensures pos < q <= end
  {
  }

  // ---- IP headers ----

  datatype Layer3 = Layer3(cur: Cursor, proto: nat, iplen: nat, frag: bool, offset: nat, iphlen: nat)

  const NoIp := Layer3(Failed, 0, 0, false, 0, 0)

  /** yfDecodeIPv4. `frags`: whether fragments are wanted. */
  function Ip4(p: seq<byte>, pos: nat, cap: nat, frags: bool): Layer3
    requires pos + cap <= |p|
  {
    if cap < 1 then NoIp
    else
      var hlen := U8(p, pos) % 16 * 4;
      if cap < hlen then NoIp
      else if cap < 20 then NoIp.(cur := Beyond)
      else
        var iplen, off := U16(p, pos + 2), U16(p, pos + 6);
        var frag := off % 0x4000 != 0;
        var left := if cap > iplen then iplen else cap;
        if frag && !frags then NoIp
        else if left < hlen then NoIp.(cur := Beyond)
        else Layer3(At(pos + hlen, left - hlen), U8(p, pos + 9), iplen, frag, off % 0x2000 * 8, hlen)
  }

  predicate IsExtension(next: nat) {
    next == FRAG || next == HOP || next == ROUTE || next == DOPT
  }

  /** The length of the extension header at pos, 0 if it is refused: not captured whole, or a
      fragment that is not wanted. */
  function Extension(p: seq<byte>, pos: nat, cap: nat, next: nat, frags: bool): (h: nat)
    requires pos + cap <= |p| && IsExtension(next)
    ensures h == 0 || 8 <= h <= cap
  {
    if next == FRAG then
      if cap < 8 || (!frags && U16(p, pos + 2) % 0x4000 != 0) then 0 else 8
    else if cap < 2 then 0
    else
      var h := U8(p, pos + 1) * 8 + 8;
      if cap < h then 0 else h
  }

  /** The extension headers from one whose type is `next`, `done` bytes of header being behind. */
  function Ext6(p: seq<byte>, pos: nat, cap: nat, next: nat, iplen: nat, done: nat,
                frag: bool, offset: nat, frags: bool): (r: Layer3)
    requires pos + cap <= |p|
    ensures Moved(r.cur, pos, cap)
    ensures r.cur.At? ==> r.iplen == iplen && r.iphlen == done + (r.cur.pos - pos)
    ensures !r.cur.Beyond?
    decreases cap
  {
    if next == NONEXT then NoIp
    else if IsExtension(next) then
      var h := Extension(p, pos, cap, next, frags);
      if h == 0 then NoIp
      else
        Ext6(p, pos + h, cap - h, U8(p, pos), iplen, done + h,
             frag || (frags && next == FRAG), if frags && next == FRAG then U16(p, pos + 2) / 8 * 8 else offset, frags)
    else Layer3(At(pos, cap), next, iplen, frag, offset, done)
  }

  function Ip6Length(p: seq<byte>, pos: nat): nat
    requires pos + 40 <= |p|
  {
    (U16(p, pos + 4) + 40) % 0x1_0000
  }

  /** yfDecodeIPv6. */
  function Ip6(p: seq<byte>, pos: nat, cap: nat, frags: bool): Layer3
    requires pos + cap <= |p|
  {
    if cap < 40 then NoIp
    else
      var iplen := Ip6Length(p, pos);
      var left := if cap > iplen then iplen else cap;
      if left < 40 then NoIp.(cur := Beyond)
      else Ext6(p, pos + 40, left - 40, U8(p, pos + 6), iplen, 40, false, 0, frags)
  }

  method DecodeIPv6(p: seq<byte>, pos: nat, cap: nat, frags: bool) returns (r: Layer3)
    requires pos + cap <= |p|
    ensures r == Ip6(p, pos, cap, frags)
  {
    if cap < 40 { return NoIp; }
    var iplen := Ip6Length(p, pos);
    var left := if cap > iplen then iplen else cap;
    if left < 40 { return NoIp.(cur := Beyond); }
    r := WalkExtensions(p, pos + 40, left - 40, U8(p, pos + 6), iplen, frags);
  }

  /** The loop that unwraps extension headers. */
  method WalkExtensions(p: seq<byte>, pos0: nat, cap0: nat, next0: nat, iplen: nat, frags: bool) returns (r: Layer3)
    requires pos0 + cap0 <= |p|
    ensures r == Ext6(p, pos0, cap0, next0, iplen, 40, false, 0, frags)
  {
    var pos: nat, cap: nat, next: nat, total: nat := pos0, cap0, next0, 40;
    var frag, offset: nat := false, 0;
    hide U16, Extension;
    while IsExtension(next)
      invariant pos + cap <= |p|
      invariant Ext6(p, pos, cap, next, iplen, total, frag, offset, frags)
             == Ext6(p, pos0, cap0, next0, iplen, 40, false, 0, frags)
      decreases cap
    {
      var hlen := ReadExtension(p, pos, cap, next, frags);
      if hlen == 0 { return NoIp; }
      if next == FRAG && frags {
        frag, offset := true, U16(p, pos + 2) / 8 * 8;
      }
      next := U8(p, pos);
      cap, pos, total := cap - hlen, pos + hlen, total + hlen;
    }
    if next == NONEXT { return NoIp; }
    return Layer3(At(pos, cap), next, iplen, frag, offset, total);
  }

  method ReadExtension(p: seq<byte>, pos: nat, cap: nat, next: nat, frags: bool) returns (hlen: nat)
    requires pos + cap <= |p| && IsExtension(next)
    ensures hlen == Extension(p, pos, cap, next, frags)
  {
    if next == FRAG {
      hlen := 8;
      if cap < hlen { return 0; }
      if !frags && U16(p, pos + 2) % 0x4000 != 0 { return 0; }
    } else {
      if cap < 2 { return 0; }
      hlen := U8(p, pos + 1) * 8 + 8;
      if cap < hlen { return 0; }
    }
  }

  // ---- TCP ----

  const EOL := 0
  const NOP := 1

  /** The shortest option of a kind that the loop accepts. */
  function Shortest(kind: nat): nat {
    match kind
    case 2 => 4
    case 5 => 10
    case 8 => 10
    case _ => 2
  }

  /** A TCP option list: one-byte padding, or kind, length and contents, up to an end mark or
      the end of the header. A segment size takes four bytes; selective acknowledgements and
      timestamps take ten. */
  predicate OptionList(o: seq<byte>)
    decreases |o|
  {
    || o == [] || o[0] == 0
    || (o[0] == 1 && OptionList(o[1..]))
    || (&& o[0] > 1 && |o| >= 2 && 2 <= o[1] <= |o|
        && (o[0] == 2 ==> o[1] >= 4) && (o[0] == 5 || o[0] == 8 ==> o[1] >= 10)
        && OptionList(o[o[1]..]))
  }

  /** The TCP header whose first twenty bytes are captured takes 4 * th_off bytes; with option
      parsing on, its options must be a list. */
  function TcpLength(p: seq<byte>, pos: nat): (r: nat)
    requires pos + 20 <= |p|
    ensures r <= 60
  {
    U8(p, pos + 12) / 16 * 4
  }

  function Options(p: seq<byte>, pos: nat): seq<byte>
    requires pos + 20 <= |p| && pos + TcpLength(p, pos) <= |p|
  {
    if TcpLength(p, pos) < 20 then [] else p[pos + 20..pos + TcpLength(p, pos)]
  }

  function Tcp(p: seq<byte>, pos: nat, cap: nat, frag: bool, options: bool): (r: Cursor)
    requires pos + cap <= |p|
    ensures r.At? && !frag ==> cap >= 20 && cap >= TcpLength(p, pos) && r == At(pos + TcpLength(p, pos), cap - TcpLength(p, pos))
    ensures !r.Beyond?
  {
    if cap < 20 || cap < TcpLength(p, pos) then (if frag then At(pos, cap) else Failed)
    else if options && !OptionList(Options(p, pos)) then Failed
    else At(pos + TcpLength(p, pos), cap - TcpLength(p, pos))
  }

  /** The option loop: `left` bytes of header remain from `start`; where it stops, if it does
      not fail, plus the bytes it skips is the end of the header. */
  method WalkOptions(p: seq<byte>, start: nat, rest: nat) returns (ok: bool, pos: nat, left: nat)
    requires start + rest <= |p|
    ensures ok == OptionList(p[start..start + rest])
    ensures ok ==> pos + left == start + rest
  {
    pos, left := start, rest;
    ghost var end := start + rest;
    while left > 0
      invariant pos + left == end
      invariant OptionList(p[pos..end]) == OptionList(p[start..end])
      decreases left
    {
      ghost var o := p[pos..end];
      var kind, len := U8(p, pos), 1;
      assert o[0] == kind;
      if kind == EOL { break; }
      if kind != NOP {
        if left < 2 { return false, pos, left; }
        len := U8(p, pos + 1);
        assert o[1] == len;
        if len < 2 || left < len { return false, pos, left; }
        if len < Shortest(kind) { return false, pos, left; }
      }
      assert o[len..] == p[pos + len..end];
      left, pos := left - len, pos + len;
    }
    ok := true;
  }

  /** yfDecodeTCP: accepted exactly when the whole header is captured and its options form a
      list, and then it ends at 4 * th_off whatever the options are. */
  method DecodeTCP(p: seq<byte>, pos0: nat, cap0: nat, frag: bool, options: bool) returns (r: Cursor)
    requires pos0 + cap0 <= |p|
    ensures r == Tcp(p, pos0, cap0, frag, options)
  {
    if cap0 < 20 { return if frag then At(pos0, cap0) else Failed; }
    var hlen := TcpLength(p, pos0);
    if cap0 < hlen { return if frag then At(pos0, cap0) else Failed; }
    var cap := cap0 - hlen;
    if !options { return At(pos0 + hlen, cap); }
    var pos: int := pos0 + 20;
    var left: int := (hlen as int) - 20;
    if left > 0 {
      var ok;
      ok, pos, left := WalkOptions(p, pos, left);
      if !ok { return Failed; }
    }
    return At(pos + left, cap);
  }

  // ---- layers three and four ----

  datatype Decoded = Decoded(ip: Layer3, cur: Cursor)

  /** yfDecodeIP without GRE decapsulation: layer 4 is decoded unless the packet is a later
      fragment. */
  function Ip(p: seq<byte>, pos: nat, cap: nat, t: nat, frags: bool, options: bool): Decoded
    requires pos + cap <= |p|
  {
    var ip := if t == IPv4 then Ip4(p, pos, cap, frags) else if t == IPv6 then Ip6(p, pos, cap, frags) else NoIp;
    if !ip.cur.At? || (ip.frag && ip.offset != 0) then Decoded(ip, ip.cur)
    else Decoded(ip, Layer4(p, ip.cur.pos, ip.cur.cap, ip.proto, ip.frag, options))
  }

  function Layer4(p: seq<byte>, pos: nat, cap: nat, proto: nat, frag: bool, options: bool): (r: Cursor)
    requires pos + cap <= |p|
    ensures !r.Beyond?
  {
    if proto == TCP then Tcp(p, pos, cap, frag, options)
    else if proto == UDP || proto == ICMP || proto == ICMP6 then
      if cap < 8 then Failed else At(pos + 8, cap - 8)
    else At(pos, cap)
  }

  /** The layer-4 header length that the protocol prescribes. */
  function Layer4Length(p: seq<byte>, pos: nat, proto: nat): nat
    requires proto == TCP ==> pos + 20 <= |p|
  {
    if proto == 6 then p[pos + 12] / 16 * 4
    else if proto in {1, 17, 58} then 8
    else 0
  }

  /** Layer 4 is accepted exactly when its header is captured whole and, for TCP with option parsing
      on, its options form a list; in a fragment a TCP header that is not whole is left alone. */
  lemma Layer4IsCaptured(p: seq<byte>, pos: nat, cap: nat, proto: nat, frag: bool, options: bool)
    requires pos + cap <= |p|
    ensures
      var whole := !(proto == 6 && cap < 20) && Layer4Length(p, pos, proto) <= cap;
      Layer4(p, pos, cap, proto, frag, options) ==
        if !whole && proto == 6 && frag then At(pos, cap)
        else if !whole || (proto == 6 && options && !OptionList(Options(p, pos))) then Failed
        else At(pos + Layer4Length(p, pos, proto), cap - Layer4Length(p, pos, proto))
  {
    hide OptionList;
  }

  /** The source's arithmetic stays within the packet exactly when the header fits what it
      claims: an IPv4 header within its total length (and of full size if the capture is
      shorter than that), an IPv6 length that does not wrap. */
  predicate WellFormed(p: seq<byte>, pos: nat, cap: nat, t: nat)
    requires pos + cap <= |p|
  {
    && (t == IPv4 && cap >= 1 && cap >= U8(p, pos) % 16 * 4 ==>
        cap >= 20 && U8(p, pos) % 16 * 4 <= U16(p, pos + 2))
    && (t == IPv6 && cap >= 40 ==> U16(p, pos + 4) + 40 < 0x1_0000)
  }

  /** Fragments are not wanted and the packet is one: it is turned away before the test. */
  predicate Unwanted(p: seq<byte>, pos: nat, cap: nat, t: nat, frags: bool)
    requires pos + cap <= |p|
  {
    !frags && t == IPv4 && cap >= 20 && U16(p, pos + 6) % 0x4000 != 0
  }

  /** The source's arithmetic stays within the packet if and only if the header is well formed or
      belongs to an unwanted fragment. */
  lemma BeyondIsMalformed(p: seq<byte>, pos: nat, cap: nat, t: nat, frags: bool, options: bool)
    requires pos + cap <= |p|
    ensures
      !Ip(p, pos, cap, t, frags, options).cur.Beyond?
      <==> WellFormed(p, pos, cap, t) || Unwanted(p, pos, cap, t, frags)
  {
    hide U16, U8, Ext6, Layer4;
  }

  /** An IPv4 header of twenty bytes that claims a total length of ten. */
  lemma ShortLengthGoesBeyond(p: seq<byte>)
    requires |p| == 20 && p[0] == 0x45 && p[2] == 0 && p[3] == 10 && p[6] == 0 && p[7] == 0
    ensures Ip(p, 0, 20, IPv4, true, true).cur.Beyond?
  {
    assert U16(p, 2) == 10 && U16(p, 6) == 0;
  }

  // ---- the fields of an IPv4 header ----

  /** An IPv4 header is accepted exactly when it is captured whole, fits its total length, and is
      not an unwanted fragment; its fields are then those of section 3.1 of RFC 791. */
  lemma Ip4Fields(p: seq<byte>, pos: nat, cap: nat, frags: bool, options: bool)
    requires pos + cap <= |p|
    ensures
      var ip := Ip(p, pos, cap, IPv4, frags, options).ip;
      if cap < 20 then !ip.cur.At?
      else
        var hlen, total := p[pos] % 16 * 4, BigEndian(p[pos + 2], p[pos + 3]);
        var more, offset := p[pos + 6] / 32 % 2 == 1, BigEndian(p[pos + 6] % 32, p[pos + 7]);
        && (ip.cur.At? <==> hlen <= cap && hlen <= total && (frags || (!more && offset == 0)))
        && (ip.cur.At? ==>
              && ip.cur == At(pos + hlen, (if cap > total then total else cap) - hlen)
              && ip.proto == p[pos + 9] && ip.iplen == total && ip.iphlen == hlen
              && (ip.frag <==> more || offset != 0) && ip.offset == 8 * offset)
  {
    hide Layer4, BigEndian;
    if cap >= 20 {
      WordAt(p, pos + 2);
      WordAt(p, pos + 6);
      hide U16;
      FragmentBits(p[pos + 6], p[pos + 7]);
    }
  }

  lemma WordAt(p: seq<byte>, i: nat)
    requires i + 2 <= |p|
    ensures U16(p, i) == BigEndian(p[i], p[i + 1])
  {
  }

  lemma FragmentBits(hi: byte, lo: byte)
    ensures
      var w := BigEndian(hi, lo);
      && (w % 0x4000 != 0 <==> hi / 32 % 2 == 1 || BigEndian(hi % 32, lo) != 0)
      && w % 0x2000 == BigEndian(hi % 32, lo)
  {
    var x, y: int := hi / 32, hi % 32;
    Remainder(BigEndian(hi, lo), x, 256 * y + lo);
    Remainder(BigEndian(hi, lo), x / 2, 0x2000 * (x % 2) + 256 * y + lo);
  }

  lemma Remainder(w: int, q: int, r: int)
    ensures w == 0x2000 * q + r && 0 <= r < 0x2000 ==> w % 0x2000 == r
    ensures w == 0x4000 * q + r && 0 <= r < 0x4000 ==> w % 0x4000 == r
  {
  }

  // ---- the extension header chain ----

  /** The length of the extension header at pos. */
  function ExtLength(p: seq<byte>, pos: nat, next: nat): (r: nat)
    requires pos + 2 <= |p|
    ensures r >= 8
  {
    if next == FRAG then 8 else 8 * (U8(p, pos + 1) + 1)
  }

  lemma ExtensionLength(p: seq<byte>, pos: nat, cap: nat, next: nat, frags: bool)
    requires pos + cap <= |p| && IsExtension(next)
    ensures Extension(p, pos, cap, next, frags) > 0 ==> Extension(p, pos, cap, next, frags) == ExtLength(p, pos, next)
    ensures Extension(p, pos, cap, next, frags) > 0 <==>
      cap >= 2 && ExtLength(p, pos, next) <= cap && (frags || (next == FRAG ==> BigEndian(p[pos + 2], p[pos + 3]) % 0x4000 == 0))
  {
  }

  /** From pos, n bytes of extension headers, the first of type next, lead to protocol proto. */
  predicate IsChain(p: seq<byte>, pos: nat, next: nat, n: nat, proto: nat)
    requires pos + n <= |p|
    decreases n
  {
    if IsExtension(next) then
      && n >= 2 && ExtLength(p, pos, next) <= n
      && IsChain(p, pos + ExtLength(p, pos, next), U8(p, pos), n - ExtLength(p, pos, next), proto)
    else n == 0 && next == proto && next != NONEXT
  }

  /** No fragment header in those n bytes says that the packet is a fragment. */
  predicate Unsplit(p: seq<byte>, pos: nat, next: nat, n: nat)
    requires pos + n <= |p|
    decreases n
  {
    if !IsExtension(next) || n < 2 || ExtLength(p, pos, next) > n then true
    else
      && (next == FRAG ==> BigEndian(p[pos + 2], p[pos + 3]) % 0x4000 == 0)
      && Unsplit(p, pos + ExtLength(p, pos, next), U8(p, pos), n - ExtLength(p, pos, next))
  }

  lemma UnsplitStep(p: seq<byte>, pos: nat, next: nat, n: nat)
    requires pos + n <= |p|
    ensures !IsExtension(next) ==> Unsplit(p, pos, next, n)
    ensures IsExtension(next) && n >= 2 && ExtLength(p, pos, next) <= n ==>
      (Unsplit(p, pos, next, n) <==>
         && (next == FRAG ==> BigEndian(p[pos + 2], p[pos + 3]) % 0x4000 == 0)
         && Unsplit(p, pos + ExtLength(p, pos, next), U8(p, pos), n - ExtLength(p, pos, next)))
  {
    hide U8, BigEndian;
  }

  /** One extension header of the walk, and of a chain. */
  lemma WalkStep(p: seq<byte>, pos: nat, cap: nat, next: nat, iplen: nat, done: nat,
                 frag: bool, offset: nat, frags: bool)
    requires pos + cap <= |p| && IsExtension(next)
    ensures
      var h := Extension(p, pos, cap, next, frags);
      Ext6(p, pos, cap, next, iplen, done, frag, offset, frags)
      == if h == 0 then NoIp
         else Ext6(p, pos + h, cap - h, U8(p, pos), iplen, done + h, frag || (frags && next == FRAG),
                   if frags && next == FRAG then U16(p, pos + 2) / 8 * 8 else offset, frags)
  {
    hide U16, U8, Extension;
  }

  lemma ChainStep(p: seq<byte>, pos: nat, next: nat, n: nat, proto: nat)
    requires pos + n <= |p| && IsExtension(next)
    ensures
      IsChain(p, pos, next, n, proto) <==>
        && n >= 2 && ExtLength(p, pos, next) <= n
        && IsChain(p, pos + ExtLength(p, pos, next), U8(p, pos), n - ExtLength(p, pos, next), proto)
  {
    hide U8, ExtLength;
  }

  lemma WalkEnds(p: seq<byte>, pos: nat, cap: nat, next: nat, iplen: nat, done: nat,
                 frag: bool, offset: nat, frags: bool, n: nat, proto: nat)
    requires pos + cap <= |p| && n <= cap && !IsExtension(next)
    ensures
      var r := Ext6(p, pos, cap, next, iplen, done, frag, offset, frags);
      r.cur == At(pos + n, cap - n) && r.proto == proto <==> IsChain(p, pos, next, n, proto)
  {
  }

  /** The walk stops at layer 4 exactly where a chain of extension headers leads within the captured
      bytes, which may not say that the packet is a fragment if fragments are not wanted. */
  lemma {:induction false} WalkIsChain(p: seq<byte>, pos: nat, cap: nat, next: nat, iplen: nat, done: nat,
                                       frag: bool, offset: nat, frags: bool, n: nat, proto: nat)
    requires pos + cap <= |p| && n <= cap
    ensures
      var r := Ext6(p, pos, cap, next, iplen, done, frag, offset, frags);
      var there := r.cur == At(pos + n, cap - n) && r.proto == proto;
      there <==> IsChain(p, pos, next, n, proto) && (frags || Unsplit(p, pos, next, n))
    decreases cap
  {
    hide U16, U8, BigEndian, Extension, ExtLength, Ext6, IsChain, Unsplit;
    UnsplitStep(p, pos, next, n);
    if !IsExtension(next) {
      WalkEnds(p, pos, cap, next, iplen, done, frag, offset, frags, n, proto);
    } else {
      ExtensionLength(p, pos, cap, next, frags);
      ChainStep(p, pos, next, n, proto);
      var h := Extension(p, pos, cap, next, frags);
      WalkStep(p, pos, cap, next, iplen, done, frag, offset, frags);
      if 0 < h <= n {
        WalkIsChain(p, pos + h, cap - h, U8(p, pos), iplen, done + h, frag || (frags && next == FRAG),
                    if frags && next == FRAG then U16(p, pos + 2) / 8 * 8 else offset, frags, n - h, proto);
      }
    }
  }

  /** What the chain says about fragmentation: none, or the octet offset in its last fragment
      header. */
  function ChainOffset(p: seq<byte>, pos: nat, next: nat, n: nat): (r: int)
    requires pos + n <= |p|
    ensures r >= -1
    decreases n
  {
    if !IsExtension(next) || n < 2 || ExtLength(p, pos, next) > n then -1
    else
      var h := ExtLength(p, pos, next);
      var later := ChainOffset(p, pos + h, U8(p, pos), n - h);
      if later >= 0 then later
      else if next == FRAG then BigEndian(p[pos + 2], p[pos + 3]) / 8 * 8
      else -1
  }

  /** The walk carries along the last fragment header it has met. */
  lemma {:induction false} WalkCarries(p: seq<byte>, pos: nat, cap: nat, next: nat, iplen: nat, done: nat,
                                       frag: bool, offset: nat, n: nat)
    requires pos + cap <= |p| && n <= cap
    requires Ext6(p, pos, cap, next, iplen, done, frag, offset, true).cur == At(pos + n, cap - n)
    ensures
      var r, c := Ext6(p, pos, cap, next, iplen, done, frag, offset, true), ChainOffset(p, pos, next, n);
      r.frag == (frag || c >= 0) && r.offset == if c >= 0 then c else offset
    decreases cap
  {
    hide U8, Extension, Ext6, ExtLength;
    if !IsExtension(next) {
      WalkStops(p, pos, cap, next, iplen, done, frag, offset);
    } else {
      ExtensionLength(p, pos, cap, next, true);
      WalkStep(p, pos, cap, next, iplen, done, frag, offset, true);
      var h := Extension(p, pos, cap, next, true);
      var frag', offset' := frag || next == FRAG, if next == FRAG then U16(p, pos + 2) / 8 * 8 else offset;
      WalkMoves(p, pos + h, cap - h, U8(p, pos), iplen, done + h, frag', offset');
      WalkCarries(p, pos + h, cap - h, U8(p, pos), iplen, done + h, frag', offset', n - h);
    }
  }

  lemma WalkStops(p: seq<byte>, pos: nat, cap: nat, next: nat, iplen: nat, done: nat, frag: bool, offset: nat)
    requires pos + cap <= |p| && !IsExtension(next)
    requires Ext6(p, pos, cap, next, iplen, done, frag, offset, true).cur.At?
    ensures Ext6(p, pos, cap, next, iplen, done, frag, offset, true) == Layer3(At(pos, cap), next, iplen, frag, offset, done)
  {
  }

  lemma WalkMoves(p: seq<byte>, pos: nat, cap: nat, next: nat, iplen: nat, done: nat, frag: bool, offset: nat)
    requires pos + cap <= |p|
    ensures Moved(Ext6(p, pos, cap, next, iplen, done, frag, offset, true).cur, pos, cap)
  {
  }

  /** The fields of an accepted IPv6 header: the total length, and what its chain of extension
      headers says about fragmentation. */
  lemma Ip6Fields(p: seq<byte>, pos: nat, cap: nat, options: bool)
    requires pos + cap <= |p|
    ensures
      var ip := Ip(p, pos, cap, IPv6, true, options).ip;
      ip.cur.At? ==>
        && cap >= 40 && ip.iplen == BigEndian(p[pos + 4], p[pos + 5]) + 40 < 0x1_0000
        && 40 <= ip.iphlen <= cap
        && ip.cur == At(pos + ip.iphlen, (if cap > ip.iplen then ip.iplen else cap) - ip.iphlen)
        && var c := ChainOffset(p, pos + 40, p[pos + 6], ip.iphlen - 40);
           ip.frag == (c >= 0) && ip.offset == if c >= 0 then c else 0
  {
    hide Layer4, Ext6, ChainOffset;
    if cap >= 40 {
      var iplen := Ip6Length(p, pos);
      var left := if cap > iplen then iplen else cap;
      if left >= 40 {
        var r := Ext6(p, pos + 40, left - 40, U8(p, pos + 6), iplen, 40, false, 0, true);
        if r.cur.At? {
          WalkCarries(p, pos + 40, left - 40, U8(p, pos + 6), iplen, 40, false, 0, r.iphlen - 40);
        }
      }
    }
  }

  // ---- lengths ----

  /** An unfragmented packet that is accepted was walked to the end of the header that its
      protocol prescribes, and IP header and layer-4 header together fit its IP length. */
  lemma WalkIsExact(p: seq<byte>, pos: nat, cap: nat, t: nat, frags: bool, options: bool)
    requires pos + cap <= |p|
    ensures
      var d := Ip(p, pos, cap, t, frags, options);
      d.cur.At? && !d.ip.frag ==> Exact(p, d, pos)
  {
    hide OptionList, Ext6, U16;
  }

  /** Header lengths agree with where the walk stands after the IP header and after layer 4. */
  predicate Exact(p: seq<byte>, d: Decoded, pos: nat)
    requires d.cur.At?
  {
    && d.ip.cur.At? && d.ip.cur.pos == pos + d.ip.iphlen
    && (d.ip.proto == TCP ==> d.ip.cur.pos + 20 <= |p|)
    && var l4 := Layer4Length(p, d.ip.cur.pos, d.ip.proto);
       d.cur.pos == d.ip.cur.pos + l4 && d.ip.iphlen + l4 <= d.ip.iplen < 0x1_0000
  }

  /** The IP header length: the header's own, or the fixed header and a chain of extensions. */
  lemma IpHeaderLength(p: seq<byte>, pos: nat, cap: nat, t: nat, frags: bool)
    requires pos + cap <= |p|
    ensures
      var ip := Ip(p, pos, cap, t, frags, false).ip;
      ip.cur.At? ==>
        && ip.cur.pos == pos + ip.iphlen
        && (t == IPv4 ==> ip.iphlen == U8(p, pos) % 16 * 4)
        && (t == IPv6 ==> ip.iphlen >= 40 && IsChain(p, pos + 40, U8(p, pos + 6), ip.iphlen - 40, ip.proto))
  {
    hide Layer4, U16, U8, Ext6, IsChain;
    if t == IPv6 && cap >= 40 {
      var iplen := Ip6Length(p, pos);
      var left := if cap > iplen then iplen else cap;
      if left >= 40 {
        var r := Ext6(p, pos + 40, left - 40, U8(p, pos + 6), iplen, 40, false, 0, frags);
        if r.cur.At? {
          WalkIsChain(p, pos + 40, left - 40, U8(p, pos + 6), iplen, 40, false, 0, frags, r.iphlen - 40, r.proto);
        }
      }
    }
  }

  // ---- from the wire to the flow table ----

  datatype PBuf = PBuf(d: Decoded, l2hlen: nat, allHeaderLen: nat)

  /** yfDecodeToPBuf for an Ethernet frame. */
  function ToPBuf(p: seq<byte>, frags: bool, options: bool): PBuf {
    if |p| < 14 then PBuf(Decoded(NoIp, Failed), 0, 0)
    else
      var l2 := Shims(p, 14, |p| - 14, U16(p, 12));
      if !l2.cur.At? then PBuf(Decoded(NoIp, l2.cur), 0, 0)
      else
        var d := Ip(p, l2.cur.pos, l2.cur.cap, l2.ethertype, frags, options);
        PBuf(d, (|p| - l2.cur.cap) % 0x1_0000, if d.cur.At? then d.cur.pos else 0)
  }

  /** The payload length of the flow table, in 16-bit arithmetic. */
  function DataLength(b: PBuf): int {
    (b.d.ip.iplen - b.allHeaderLen + b.l2hlen) % 0x1_0000
  }

  /** For an accepted unfragmented packet the flow table's payload length is the IP length less
      the IP header chain less the layer-4 header, and that difference is not negative. */
  lemma DataLengthIsExact(p: seq<byte>, frags: bool, options: bool)
    ensures
      var b := ToPBuf(p, frags, options);
      b.d.cur.At? && !b.d.ip.frag ==>
        && b.d.ip.cur.At? && (b.d.ip.proto == TCP ==> b.d.ip.cur.pos + 20 <= |p|)
        && DataLength(b) == b.d.ip.iplen - b.d.ip.iphlen - Layer4Length(p, b.d.ip.cur.pos, b.d.ip.proto) >= 0
  {
    hide Ip, U16, Layer4Length, Shims;
    if |p| >= 14 {
      var l2 := Shims(p, 14, |p| - 14, U16(p, 12));
      if l2.cur.At? {
        WalkIsExact(p, l2.cur.pos, l2.cur.cap, l2.ethertype, frags, options);
      }
    }
  }

  /** Layer 4 is read unless the packet is a fragment with an offset, which is accepted as it stands
      after its IP header. */
  lemma LaterFragment(p: seq<byte>, pos: nat, cap: nat, t: nat, frags: bool, options: bool)
    requires pos + cap <= |p|
    ensures
      var d := Ip(p, pos, cap, t, frags, options);
      && (d.ip.cur.At? && d.ip.frag && d.ip.offset != 0 ==> d.cur == d.ip.cur)
      && (d.ip.cur.At? && !(d.ip.frag && d.ip.offset != 0) ==>
            && d.ip.cur.pos + d.ip.cur.cap <= |p|
            && d.cur == Layer4(p, d.ip.cur.pos, d.ip.cur.cap, d.ip.proto, d.ip.frag, options))
      && (d.cur.At? ==> d.ip.cur.At?)
  {
    hide Layer4, Ext6, U16, U8;
  }

  /** Where shims lead within the frame, there the IP header is read. */
  lemma FrameFollows(p: seq<byte>, q: nat, u: nat, frags: bool, options: bool)
    requires |p| >= 14 && q <= |p| && ShimPath(p, 14, |p|, BigEndian(p[12], p[13]), q, u)
    ensures ToPBuf(p, frags, options).d == Ip(p, q, |p| - q, u, frags, options)
  {
    hide Shims, ShimPath, Ip;
    ShimsArePath(p, 14, |p| - 14, U16(p, 12), q, u);
  }

  /** The frame's walk: fourteen bytes of Ethernet, the shims that its type announces, and then the
      IP header that they lead to. */
  lemma FrameIsPath(p: seq<byte>, frags: bool, options: bool)
    ensures
      var b := ToPBuf(p, frags, options);
      b.d.ip.cur.At? ==> exists q: nat, u: nat ::
        && |p| >= 14 && ShimPath(p, 14, |p|, BigEndian(p[12], p[13]), q, u) && q <= |p| && (u == 0x0800 || u == 0x86DD)
        && b.d == Ip(p, q, |p| - q, u, frags, options)
  {
    hide Shims, ShimPath, Layer4, Ext6, Ip4, Ip6;
    if |p| >= 14 {
      var l2 := Shims(p, 14, |p| - 14, U16(p, 12));
      if l2.cur.At? {
        ShimsArePath(p, 14, |p| - 14, U16(p, 12), l2.cur.pos, l2.ethertype);
        assert ShimPath(p, 14, |p|, BigEndian(p[12], p[13]), l2.cur.pos, l2.ethertype);
      }
    }
  }

  /** On the wire: the payload length of an accepted unfragmented IPv4 packet in a plain Ethernet
      frame, byte by byte. */
  lemma PayloadOfIPv4(p: seq<byte>, frags: bool, options: bool)
    requires |p| >= 34 && p[12] == 0x08 && p[13] == 0
    ensures
      var b := ToPBuf(p, frags, options);
      var hlen, total, proto := p[14] % 16 * 4, BigEndian(p[16], p[17]), p[23];
      b.d.cur.At? && !b.d.ip.frag ==>
        && b.d.ip.proto == proto
        && (proto == 6 ==> hlen + 34 <= |p|)
        && DataLength(b) == total - hlen - Layer4Length(p, 14 + hlen, proto) >= 0
  {
    hide Layer4Length, Ip;
    DataLengthIsExact(p, frags, options);
    Ip4Fields(p, 14, |p| - 14, frags, options);
    ShimsEnd(p, 14, |p| - 14, U16(p, 12));
    hide Shims;
    LaterFragment(p, 14, |p| - 14, IPv4, frags, options);
  }
}
