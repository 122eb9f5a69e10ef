/** Flow keys (include/qof/yafcore.h, src/yaftab.c): the 6-tuple that names one direction
    of a conversation, the equality used by the key index, and key reversal. */
module FlowKeys {

  const PROTO_ICMP := 1
  const PROTO_TCP := 6
  const PROTO_ICMP6 := 58

  /** The version field is the constructor: only IPv4 and IPv6 keys exist. */
  datatype Address =
    | V4(sip4: nat, dip4: nat)
    | V6(sip6: seq<nat>, dip6: seq<nat>)

  datatype FlowKey = FlowKey(sp: nat, dp: nat, proto: nat, vlanId: nat, addr: Address)

  /** Equality of the key index: priority and CFI bits of the VLAN tag are masked out. */
  predicate KeyEqual(a: FlowKey, b: FlowKey) {
    && a.sp == b.sp
    && a.dp == b.dp
    && a.proto == b.proto
    && a.vlanId % 0x1000 == b.vlanId % 0x1000
    && match (a.addr, b.addr) {
         case (V4(s, d), V4(s', d')) => s == s' && d == d'
         case (V6(s, d), V6(s', d')) => s == s' && d == d'
         case _ => false
       }
  }

  function Reverse(k: FlowKey): FlowKey {
    var addr := match k.addr
      case V4(s, d) => V4(d, s)
      case V6(s, d) => V6(d, s);
    if k.proto == PROTO_ICMP || k.proto == PROTO_ICMP6 then
      FlowKey(k.sp, k.dp, k.proto, k.vlanId, addr)
    else
      FlowKey(k.dp, k.sp, k.proto, k.vlanId, addr)
  }

  /** The representative under which a key is indexed. */
  function Canon(k: FlowKey): FlowKey {
    k.(vlanId := k.vlanId % 0x1000)
  }

  /** A conversation: both directions of a key, as the set of their representatives. */
  function Conv(k: FlowKey): set<FlowKey> {
    {Canon(k), Canon(Reverse(k))}
  }

  /** A map indexed by representatives is exactly a hash table under KeyEqual. */
  lemma CanonDecidesEquality(a: FlowKey, b: FlowKey)
    ensures KeyEqual(a, b) <==> Canon(a) == Canon(b)
  {
  }

  /** b names the other direction of a: addresses exchanged, ports exchanged except for ICMP,
      whose two ports are type and code, and all else the same for the index. */
  predicate Opposite(a: FlowKey, b: FlowKey) {
    && a.proto == b.proto
    && a.vlanId % 0x1000 == b.vlanId % 0x1000
    && (if a.proto == 1 || a.proto == 58 then a.sp == b.sp && a.dp == b.dp
        else a.sp == b.dp && a.dp == b.sp)
    && (a.addr.V4? ==> b.addr.V4? && a.addr.sip4 == b.addr.dip4 && a.addr.dip4 == b.addr.sip4)
    && (a.addr.V6? ==> b.addr.V6? && a.addr.sip6 == b.addr.dip6 && a.addr.dip6 == b.addr.sip6)
  }

  /** The reversed key is the other direction, with the VLAN tag untouched, and up to the index
      there is no other. */
  lemma ReverseIsOpposite(a: FlowKey, b: FlowKey)
    ensures Reverse(a).vlanId == a.vlanId && Opposite(a, Reverse(a))
    ensures KeyEqual(b, Reverse(a)) <==> Opposite(a, b)
  {
  }

  lemma ReverseLaws(k: FlowKey)
    ensures Reverse(Reverse(k)) == k
    ensures Canon(Reverse(k)) == Reverse(Canon(k))
    ensures Canon(Canon(k)) == Canon(k)
    ensures Conv(Reverse(k)) == Conv(k) == Conv(Canon(k))
  {
  }

  /** Conversations are the classes of "equal or opposite". */
  lemma ConvClasses(a: FlowKey, b: FlowKey)
    ensures Conv(a) == Conv(b) <==> KeyEqual(a, b) || Opposite(a, b)
    ensures Canon(a) in Conv(b) <==> Conv(a) == Conv(b)
  {
    ReverseLaws(a);
    ReverseLaws(b);
    ReverseIsOpposite(b, a);
    CanonDecidesEquality(a, b);
    CanonDecidesEquality(a, Reverse(b));
    if Canon(a) == Canon(Reverse(b)) {
      assert Canon(Reverse(a)) == Reverse(Canon(Reverse(b))) == Canon(b);
    }
    assert Canon(a) in Conv(a);
  }
}
