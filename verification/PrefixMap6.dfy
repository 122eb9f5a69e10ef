/** IPv6 prefixes to interfaces (src/qofifmap.c): 16-byte addresses in lexicographic order. */
module PrefixMap6 {
  import opened Bitwise
  import opened IntervalMap

  const BYTES := 16

  predicate AreBytes(x: seq<nat>) {
    forall i :: 0 <= i < |x| ==> x[i] < Pow2(8)
  }

  predicate IsAddress(x: seq<nat>) {
    |x| == BYTES && AreBytes(x)
  }

  type Address = x: seq<nat> | IsAddress(x) witness Zeros(BYTES)

  function Zeros(n: nat): (z: seq<nat>)
    ensures |z| == n && AreBytes(z)
  {
    seq(n, _ => 0)
  }

  /** memcmp(x, y) < 0 on strings of one length; a proper prefix comes first. */
  predicate Below(x: seq<nat>, y: seq<nat>) {
    y != [] && (x == [] || x[0] < y[0] || (x[0] == y[0] && Below(x[1..], y[1..])))
  }

  // ---- lexicographic order is linear ----

  lemma {:induction false} Irreflexive(x: seq<nat>)
    ensures !Below(x, x)
  {
    if x != [] { Irreflexive(x[1..]); }
  }

  lemma {:induction false} Connected(x: seq<nat>, y: seq<nat>)
    ensures Below(x, y) || x == y || Below(y, x)
  {
    if x != [] && y != [] {
      Connected(x[1..], y[1..]);
      assert x == [x[0]] + x[1..] && y == [y[0]] + y[1..];
    }
  }

  lemma {:induction false} Transitive(x: seq<nat>, y: seq<nat>, z: seq<nat>)
    requires Below(x, y) && Below(y, z)
    ensures Below(x, z)
  {
    if x != [] && x[0] == y[0] == z[0] {
      Transitive(x[1..], y[1..], z[1..]);
    }
  }

  // ---- masks ----

  /** One byte of a mask with p ones left to place. */
  function MaskByte(p: int): (b: nat)
    ensures b < Pow2(8)
  {
    High(8, Zero(p))
  }

  /** The last n bytes of a mask with p ones left. */
  function MaskFrom(n: nat, p: int): (m: seq<nat>)
    ensures |m| == n && AreBytes(m)
    ensures forall i :: 0 <= i < n ==> m[i] == MaskByte(p - 8 * i)
  {
    seq(n, i requires 0 <= i < n => MaskByte(p - 8 * i))
  }

  /** Ones in the first p of 128 bits. */
  function Mask(p: nat): seq<nat> {
    MaskFrom(BYTES, p)
  }

  lemma WholeByte()
    ensures Pow2(7) == 0x80 && Pow2(8) == 0x100 && High(8, 0) == 0xFF && High(8, 8) == 0
  {
    assert Pow2(3) == 8 && Pow2(4) == 16 && Pow2(7) == 0x80;
  }

  /** qfPrefixMask6. */
  method PrefixMask(p: nat) returns (mask: array<nat>)
    requires p <= 8 * BYTES
    ensures fresh(mask) && mask[..] == Mask(p)
  {
    hide High, Pow2;
    WholeByte();
    mask := new nat[BYTES](_ => 0);
    var i := 0;
    while i < p / 8
      invariant 0 <= i <= p / 8 <= BYTES
      invariant forall k :: 0 <= k < i ==> mask[k] == 0xFF
    {
      mask[i] := 0xFF;
      i := i + 1;
    }
    var j := i;
    while j < BYTES
      invariant i <= j <= BYTES
      invariant forall k :: 0 <= k < i ==> mask[k] == 0xFF
      invariant forall k :: i <= k < j ==> mask[k] == 0
    {
      mask[j] := 0;
      j := j + 1;
    }
    j := 0;
    while j < p % 8 && i < BYTES
      invariant 0 <= j <= p % 8
      invariant forall k :: 0 <= k < i ==> mask[k] == 0xFF
      invariant i < BYTES ==> mask[i] == High(8, 8 - j)
      invariant forall k :: i < k < BYTES ==> mask[k] == 0
    {
      ShiftIn(8, 8 - j);
      mask[i] := mask[i] / 2;
      mask[i] := Or(mask[i], 0x80);
      j := j + 1;
    }
    MaskBuilt(mask[..], p);
  }

  lemma MaskBuilt(m: seq<nat>, p: nat)
    requires |m| == BYTES && p <= 8 * BYTES
    requires forall k :: 0 <= k < p / 8 ==> m[k] == 0xFF
    requires p / 8 < BYTES ==> m[p / 8] == High(8, 8 - p % 8)
    requires forall k :: p / 8 < k < BYTES ==> m[k] == 0
    ensures m == Mask(p)
  {
    WholeByte();
    hide High, Pow2;
    forall k | 0 <= k < BYTES
      ensures m[k] == MaskByte(p - 8 * k)
    {
      if k == p / 8 {
        assert p - 8 * k == p % 8;
      }
    }
  }

  // ---- bytewise operations ----

  function AndAll(x: seq<nat>, m: seq<nat>): (r: seq<nat>)
    requires |x| == |m|
    ensures |r| == |x|
  {
    seq(|x|, i requires 0 <= i < |x| => And(x[i], m[i]))
  }

  function OrAll(x: seq<nat>, m: seq<nat>): (r: seq<nat>)
    requires |x| == |m|
    ensures |r| == |x|
  {
    seq(|x|, i requires 0 <= i < |x| => Or(x[i], m[i]))
  }

  function Invert(m: seq<nat>): (r: seq<nat>)
    requires AreBytes(m)
    ensures |r| == |m|
  {
    seq(|m|, i requires 0 <= i < |m| => Not(8, m[i]))
  }

  // ---- a prefix as an interval ----

  /** The last address under a mask. */
  function Last(a: seq<nat>, m: seq<nat>): (r: seq<nat>)
    requires |a| == |m| && AreBytes(m)
    ensures |r| == |a|
  {
    OrAll(a, Invert(m))
  }

  /** The zero bits of a mask byte with p ones left to place. */
  function Zero(p: int): (k: nat)
    ensures k <= 8
  {
    if p >= 8 then 0 else if p >= 0 then 8 - p else 8
  }

  lemma ByteExtremes(a: nat, p: int)
    requires a < Pow2(8)
    ensures p >= 8 ==> And(a, MaskByte(p)) == a == Or(a, Not(8, MaskByte(p)))
    ensures p <= 0 ==> And(a, MaskByte(p)) == 0 && Or(a, Not(8, MaskByte(p))) == 0xFF
  {
    AndHigh(a, 8, Zero(p));
    OrLow(a, Zero(p));
    WholeByte();
    assert Not(8, High(8, 0)) == 0 && Not(8, High(8, 8)) == 0xFF;
    assert Floor(a, 1) == a && Floor(a, 0x100) == 0;
    hide And, Or, Not, High;
  }

  lemma ByteInterval(a: nat, x: nat, p: int)
    requires a < Pow2(8) && x < Pow2(8)
    ensures
      var m := MaskByte(p);
      && (And(a, m) <= x <= Or(a, Not(8, m)) <==> And(x, m) == And(a, m))
      && Or(a, Not(8, m)) < Pow2(8) && And(a, m) < Pow2(8)
      && (p >= 8 ==> And(a, m) == a == Or(a, Not(8, m)))
      && (p <= 0 ==> And(a, m) == 0 && Or(a, Not(8, m)) == 0xFF)
  {
    hide And, Or, Not, High, Pow2;
    PrefixIsInterval(a, x, 8, Zero(p));
    ByteExtremes(a, p);
  }

  /** Below the last one of the mask, every string lies between the bounds. */
  lemma {:induction false} OpenTail(a: seq<nat>, x: seq<nat>, p: int)
    requires |a| == |x| && AreBytes(a) && AreBytes(x) && p <= 0
    ensures
      var m := MaskFrom(|a|, p);
      !Below(x, AndAll(a, m)) && !Below(Last(a, m), x) && AndAll(x, m) == AndAll(a, m)
  {
    hide And, Or, Not, MaskByte, Pow2;
    WholeByte();
    if a != [] {
      var m := MaskFrom(|a|, p);
      ByteInterval(a[0], x[0], p);
      ByteInterval(x[0], a[0], p);
      OpenTail(a[1..], x[1..], p - 8);
      Tails(a, p);
      Tails(x, p);
    }
  }

  lemma MaskTail(n: nat, p: int)
    requires n > 0
    ensures MaskFrom(n, p)[0] == MaskByte(p) && MaskFrom(n, p)[1..] == MaskFrom(n - 1, p - 8)
  {
    hide MaskByte;
    var m, t := MaskFrom(n, p), MaskFrom(n - 1, p - 8);
    forall i | 0 <= i < n - 1
      ensures m[i + 1] == t[i]
    {
      assert p - 8 * (i + 1) == p - 8 - 8 * i;
    }
  }

  lemma BoundsTail(a: seq<nat>, m: seq<nat>)
    requires |a| == |m| > 0 && AreBytes(m)
    ensures AndAll(a, m) == [And(a[0], m[0])] + AndAll(a[1..], m[1..])
    ensures Last(a, m) == [Or(a[0], Not(8, m[0]))] + Last(a[1..], m[1..])
  {
    hide And, Or, Not;
  }

  lemma Tails(a: seq<nat>, p: int)
    requires a != [] && AreBytes(a)
    ensures
      var m, n := MaskFrom(|a|, p), MaskFrom(|a| - 1, p - 8);
      && AndAll(a, m) == [And(a[0], MaskByte(p))] + AndAll(a[1..], n)
      && Last(a, m) == [Or(a[0], Not(8, MaskByte(p)))] + Last(a[1..], n)
  {
    hide And, Or, Not, MaskByte, MaskFrom, AndAll, Last;
    MaskTail(|a|, p);
    BoundsTail(a, MaskFrom(|a|, p));
  }

  lemma BytesTail(a: seq<nat>)
    requires a != [] && AreBytes(a)
    ensures a[0] < Pow2(8) && AreBytes(a[1..])
  {
  }

  lemma BelowHeads(x: seq<nat>, y0: nat, ys: seq<nat>)
    requires x != []
    ensures Below(x, [y0] + ys) <==> x[0] < y0 || (x[0] == y0 && Below(x[1..], ys))
    ensures Below([y0] + ys, x) <==> y0 < x[0] || (x[0] == y0 && Below(ys, x[1..]))
  {
    assert ([y0] + ys)[1..] == ys;
  }

  lemma HeadsEqual(a: nat, s: seq<nat>, b: nat, t: seq<nat>)
    ensures [a] + s == [b] + t <==> a == b && s == t
  {
    if [a] + s == [b] + t {
      assert ([a] + s)[0] == a && ([b] + t)[0] == b;
      assert ([a] + s)[1..] == s && ([b] + t)[1..] == t;
    }
  }

  /** x lies lexicographically between the first and the last address of a prefix. */
  predicate Between(a: seq<nat>, x: seq<nat>, p: int)
    requires |a| == |x|
  {
    var m := MaskFrom(|a|, p);
    !Below(x, AndAll(a, m)) && !Below(Last(a, m), x)
  }

  /** x and a agree under the mask. */
  predicate Agree(a: seq<nat>, x: seq<nat>, p: int)
    requires |a| == |x|
  {
    AndAll(x, MaskFrom(|a|, p)) == AndAll(a, MaskFrom(|a|, p))
  }

  lemma AgreeHead(a: seq<nat>, x: seq<nat>, p: int)
    requires |a| == |x| > 0 && AreBytes(a) && AreBytes(x)
    ensures Agree(a, x, p) <==> And(x[0], MaskByte(p)) == And(a[0], MaskByte(p)) && Agree(a[1..], x[1..], p - 8)
  {
    hide And, Or, Not, MaskByte, MaskFrom, AndAll, Last, AreBytes;
    Tails(a, p);
    Tails(x, p);
    var n := MaskFrom(|a| - 1, p - 8);
    HeadsEqual(And(x[0], MaskByte(p)), AndAll(x[1..], n), And(a[0], MaskByte(p)), AndAll(a[1..], n));
  }

  lemma BetweenHead(a: seq<nat>, x: seq<nat>, p: int)
    requires |a| == |x| > 0 && AreBytes(a) && AreBytes(x)
    ensures
      var lo, hi := And(a[0], MaskByte(p)), Or(a[0], Not(8, MaskByte(p)));
      var n := MaskFrom(|a| - 1, p - 8);
      Between(a, x, p) <==>
        && (lo < x[0] || (lo == x[0] && !Below(x[1..], AndAll(a[1..], n))))
        && (x[0] < hi || (x[0] == hi && !Below(Last(a[1..], n), x[1..])))
  {
    hide And, Or, Not, MaskByte, MaskFrom, AndAll, Last, AreBytes, Below;
    Tails(a, p);
    var n := MaskFrom(|a| - 1, p - 8);
    BelowHeads(x, And(a[0], MaskByte(p)), AndAll(a[1..], n));
    BelowHeads(x, Or(a[0], Not(8, MaskByte(p))), Last(a[1..], n));
  }

  lemma EmptyInterval(a: seq<nat>, x: seq<nat>, p: int)
    requires a == x == []
    ensures Between(a, x, p) && Agree(a, x, p)
  {
  }

  /** Lexicographically between the bounds lie exactly the strings that agree under the mask. */
  lemma {:induction false} StringInterval(a: seq<nat>, x: seq<nat>, p: int)
    requires |a| == |x| && AreBytes(a) && AreBytes(x)
    ensures Between(a, x, p) <==> Agree(a, x, p)
  {
    hide And, Or, Not, MaskByte, Pow2, MaskFrom, AndAll, Last, Below, AreBytes, Agree, Between;
    if a == [] {
      EmptyInterval(a, x, p);
    } else {
      BytesTail(a);
      BytesTail(x);
      AgreeHead(a, x, p);
      BetweenHead(a, x, p);
      ByteInterval(a[0], x[0], p);
      ByteInterval(x[0], a[0], p);
      if p >= 8 {
        StringInterval(a[1..], x[1..], p - 8);
        BetweenBounds(a[1..], x[1..], p - 8);
      } else {
        OpenTail(a[1..], x[1..], p - 8);
        AgreeBounds(a[1..], x[1..], p - 8);
      }
    }
  }

  lemma BetweenBounds(a: seq<nat>, x: seq<nat>, p: int)
    requires |a| == |x|
    ensures
      var m := MaskFrom(|a|, p);
      Between(a, x, p) <==> !Below(x, AndAll(a, m)) && !Below(Last(a, m), x)
  {
    hide MaskFrom, AndAll, Last, Below;
  }

  lemma AgreeBounds(a: seq<nat>, x: seq<nat>, p: int)
    requires |a| == |x|
    ensures Agree(a, x, p) <==> AndAll(x, MaskFrom(|a|, p)) == AndAll(a, MaskFrom(|a|, p))
  {
    hide MaskFrom, AndAll;
  }

  lemma BoundsAreBytes(a: seq<nat>, p: int)
    requires AreBytes(a)
    ensures
      var m := MaskFrom(|a|, p);
      AreBytes(AndAll(a, m)) && AreBytes(Last(a, m))
  {
    hide And, Or, Not, MaskByte, Pow2;
    forall i | 0 <= i < |a|
      ensures And(a[i], MaskByte(p - 8 * i)) < Pow2(8) && Or(a[i], Not(8, MaskByte(p - 8 * i))) < Pow2(8)
    {
      ByteInterval(a[i], a[i], p - 8 * i);
    }
  }

  // ---- prefixes ----

  predicate Earlier(x: Address, y: Address) {
    Below(x, y)
  }

  lemma EarlierIsLinear()
    ensures Linear(Earlier)
  {
    forall x: Address ensures !Earlier(x, x) { Irreflexive(x); }
    forall x: Address, y: Address ensures Earlier(x, y) || x == y || Earlier(y, x) { Connected(x, y); }
    forall x: Address, y: Address, z: Address | Earlier(x, y) && Earlier(y, z) ensures Earlier(x, z) { Transitive(x, y, z); }
  }

  predicate Matches(r: Prefix<Address>, x: Address) {
    AndAll(x, Mask(r.pfx)) == AndAll(r.addr, Mask(r.pfx))
  }

  /** The entry stored for a prefix. */
  function EntryOf(r: Prefix<Address>): Entry<Address> {
    BoundsAreBytes(r.addr, r.pfx);
    Entry(AndAll(r.addr, Mask(r.pfx)), Last(r.addr, Mask(r.pfx)), r.ifnum)
  }

  /** The addresses between the bounds of the entry are those that match the prefix. */
  lemma EntryIsPrefix()
    ensures Linear(Earlier) && Represents(Earlier, EntryOf, Matches)
  {
    EarlierIsLinear();
    hide Last, AndAll, MaskFrom;
    forall r: Prefix<Address>, x: Address
      ensures Matches(r, x) <==> Covers(Earlier, EntryOf(r), x)
    {
      StringInterval(r.addr, x, r.pfx);
    }
  }

  /** Byte i of x agrees with that of a as far as a prefix of p bits reaches. */
  predicate AgreeAt(a: Address, x: Address, p: nat, i: nat)
    requires i < BYTES
  {
    if i < p / 8 then x[i] == a[i]
    else i == p / 8 ==> x[i] / Pow2(8 - p % 8) == a[i] / Pow2(8 - p % 8)
  }

  lemma MaskedByte(a: Address, x: Address, p: nat, i: nat)
    requires i < BYTES
    ensures And(x[i], MaskByte(p - 8 * i)) == And(a[i], MaskByte(p - 8 * i)) <==> AgreeAt(a, x, p, i)
  {
    hide And, Or, Not, MaskByte, Pow2;
    ByteInterval(a[i], x[i], p - 8 * i);
    ByteInterval(x[i], a[i], p - 8 * i);
    if i == p / 8 {
      ByteLeadingBits(a[i], x[i], p - 8 * i);
    }
  }

  /** An address matches a prefix exactly when their whole bytes and the leading bits of the
      byte at the boundary agree. */
  lemma MatchesIsLeadingBits(r: Prefix<Address>, x: Address)
    ensures Matches(r, x) <==> forall i :: 0 <= i < BYTES ==> AgreeAt(r.addr, x, r.pfx, i)
  {
    hide And, MaskByte, AgreeAt;
    var m := Mask(r.pfx);
    forall i | 0 <= i < BYTES
      ensures AndAll(x, m)[i] == AndAll(r.addr, m)[i] <==> AgreeAt(r.addr, x, r.pfx, i)
    {
      MaskedByte(r.addr, x, r.pfx, i);
    }
  }

  lemma ByteLeadingBits(a: nat, x: nat, p: nat)
    requires a < Pow2(8) && x < Pow2(8) && p < 8
    ensures And(x, MaskByte(p)) == And(a, MaskByte(p)) <==> x / Pow2(8 - p) == a / Pow2(8 - p)
  {
    assert MaskByte(p) == High(8, 8 - p);
    PrefixIsInterval(a, x, 8, 8 - p);
    hide And, Or, Not, High, MaskByte, Pow2;
  }

  /** IPv6 prefixes inserted in any order: the map is in address order if and only if no address
      matches two of them, and then it gives the interface of the one that matches, or 0. */
  lemma RefinesPrefixes(rs: seq<Prefix<Address>>)
    ensures
      var m := Build(Earlier, Rules(EntryOf, rs));
      && (Ordered(Earlier, m) <==> Disjoint(Matches, rs))
      && (Disjoint(Matches, rs) ==> forall x :: Lookup(Earlier, m, x) == NaiveLookup(Matches, rs, x))
  {
    EntryIsPrefix();
    MapRefinesPrefixes(Earlier, EntryOf, Matches, rs);
  }

  // ---- the map ----

  /** qfIp6Compare: the first byte that differs decides. */
  method Compare(x: Address, y: Address) returns (c: int)
    ensures c < 0 <==> Earlier(x, y)
    ensures c > 0 <==> Earlier(y, x)
  {
    var i := 0;
    while i < BYTES && x[i] == y[i]
      invariant 0 <= i <= BYTES
      invariant Below(x, y) <==> Below(x[i..], y[i..])
      invariant Below(y, x) <==> Below(y[i..], x[i..])
    {
      i := i + 1;
    }
    if i == BYTES { return 0; }
    return if x[i] < y[i] then -1 else 1;
  }

  class Map {
    var entries: seq<Entry<Address>>
    /** The prefixes added so far. */
    ghost var prefixes: seq<Prefix<Address>>

    ghost predicate Valid()
      reads this
    {
      entries == Build(Earlier, Rules(EntryOf, prefixes))
    }

    constructor ()
      ensures Valid() && prefixes == []
    {
      entries, prefixes := [], [];
    }

    /** Linear search to the insertion point. */
    method FindSpot(addr: Address) returns (i: nat)
      ensures i == Spot(Earlier, entries, addr)
    {
      hide Earlier;
      if |entries| == 0 { return 0; }
      var low := Compare(addr, entries[0].a);
      if low < 0 { return 0; }
      var high := Compare(addr, entries[|entries| - 1].b);
      if high > 0 { return |entries|; }
      i := 1;
      while i < |entries|
        invariant 1 <= i <= |entries| && Hole(Earlier, entries, addr, 1) == Hole(Earlier, entries, addr, i)
      {
        var below := Compare(entries[i - 1].b, addr);
        var above := Compare(addr, entries[i].a);
        if below < 0 && above < 0 { break; }
        i := i + 1;
      }
    }

    /** qfMapInsert6. */
    method Add(addr: Address, pfx: nat, ifnum: nat)
      requires pfx <= 8 * BYTES
      requires Valid()
      modifies this
      ensures Valid() && prefixes == old(prefixes) + [Prefix(addr, pfx, ifnum)]
      ensures entries == Insert(Earlier, old(entries), addr, EntryOf(Prefix(addr, pfx, ifnum)))
    {
      var i := FindSpot(addr);
      var mask := PrefixMask(pfx);
      hide AndAll, Last, MaskFrom;
      BoundsAreBytes(addr, pfx);
      var e := Entry(AndAll(addr, mask[..]), Last(addr, mask[..]), ifnum);
      entries := entries[..i] + [e] + entries[i..];
      BuildSnoc(Earlier, EntryOf, prefixes, Prefix(addr, pfx, ifnum));
      prefixes := prefixes + [Prefix(addr, pfx, ifnum)];
    }

    /** qfMapSearch6: unlike the IPv4 search it compares the lower bound to choose a side. */
    method Search(addr: Address) returns (ifnum: nat)
      requires Valid() && Disjoint(Matches, prefixes)
      ensures ifnum == NaiveLookup(Matches, prefixes, addr)
    {
      hide Ordered, Disjoint, NaiveLookup, Lookup, Build;
      RefinesPrefixes(prefixes);
      ifnum := SearchEntries(addr);
    }

    method SearchEntries(addr: Address) returns (ifnum: nat)
      requires Ordered(Earlier, entries)
      ensures ifnum == Lookup(Earlier, entries, addr)
    {
      hide Earlier, Ordered, Linear, Lookup;
      EarlierIsLinear();
      var x, y := 0, |entries| - 1;
      while x <= y
        invariant 0 <= x <= y + 1 <= |entries|
        invariant forall k :: 0 <= k < x ==> Earlier(entries[k].b, addr)
        invariant forall k :: y < k < |entries| ==> Earlier(addr, entries[k].a)
      {
        var i := (x + y) / 2;
        var low := Compare(addr, entries[i].a);
        var high := Compare(addr, entries[i].b);
        if low > -1 && high < 1 {
          LookupAt(Earlier, entries, addr, i);
          return entries[i].ifnum;
        }
        var side := Compare(entries[i].a, addr);
        if side < 0 {
          GoUp(Earlier, entries, addr, i);
          x := i + 1;
        } else {
          GoDown(Earlier, entries, addr, i);
          y := i - 1;
        }
      }
      LookupOutside(Earlier, entries, addr, x);
      return 0;
    }
  }
}
