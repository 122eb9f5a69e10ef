/** IPv4 prefixes to interfaces (src/qofifmap.c): 32-bit addresses in numeric order. */
module PrefixMap4 {
  import opened Bitwise
  import opened IntervalMap

  const WIDTH := 32

  type Address = x: nat | x < Pow2(WIDTH)

  /** The number of bits that a prefix of length p leaves open. */
  function Open(p: nat): (k: nat)
    ensures k <= WIDTH
  {
    if p <= WIDTH then WIDTH - p else 0
  }

  /** Ones in the first p bits; all of them for a longer prefix. */
  function Mask(p: nat): (m: nat)
    ensures m < Pow2(WIDTH)
  {
    High(WIDTH, Open(p))
  }

  lemma TopBit()
    ensures Pow2(WIDTH - 1) == 0x8000_0000
  {
    assert Pow2(3) == 0x8 && Pow2(7) == 0x80 && Pow2(11) == 0x800 && Pow2(15) == 0x8000;
    assert Pow2(19) == 0x8_0000 && Pow2(23) == 0x80_0000 && Pow2(27) == 0x800_0000;
    assert Pow2(31) == 0x8000_0000;
  }

  /** qfPrefixMask4. */
  method PrefixMask(p: nat) returns (o: nat)
    ensures o == Mask(p)
  {
    o := 0;
    for i := 0 to p
      invariant o == Mask(i)
    {
      hide High;
      ShiftIn(WIDTH, Open(i));
      TopBit();
      o := o / 2;
      o := Or(o, 0x8000_0000);
    }
  }

  // ---- prefixes ----

  predicate Below(x: Address, y: Address) {
    x < y
  }

  predicate Matches(r: Prefix<Address>, x: Address) {
    And(x, Mask(r.pfx)) == And(r.addr, Mask(r.pfx))
  }

  /** The entry stored for a prefix. */
  function EntryOf(r: Prefix<Address>): Entry<Address> {
    PrefixIsInterval(r.addr, r.addr, WIDTH, Open(r.pfx));
    Entry(And(r.addr, Mask(r.pfx)), Or(r.addr, Not(WIDTH, Mask(r.pfx))), r.ifnum)
  }

  /** The addresses between the bounds of the entry are those that match the prefix. */
  lemma EntryIsPrefix()
    ensures Linear(Below) && Represents(Below, EntryOf, Matches)
  {
    hide And, Or, High;
    forall r: Prefix<Address>, x: Address
      ensures Matches(r, x) <==> Covers(Below, EntryOf(r), x)
    {
      PrefixIsInterval(r.addr, x, WIDTH, Open(r.pfx));
    }
  }

  /** An address matches a prefix exactly when their leading bits agree. */
  lemma MatchesIsLeadingBits(r: Prefix<Address>, x: Address)
    ensures
      var d := if r.pfx <= 32 then Pow2(32 - r.pfx) else 1;
      Matches(r, x) <==> x / d == r.addr / d
  {
    hide And, Or, High;
    PrefixIsInterval(r.addr, x, WIDTH, Open(r.pfx));
  }

  /** IPv4 prefixes inserted in any order: the map is in address order if and only if no address
      matches two of them, and then it gives the interface of the one that matches, or 0. */
  lemma RefinesPrefixes(rs: seq<Prefix<Address>>)
    ensures
      var m := Build(Below, Rules(EntryOf, rs));
      && (Ordered(Below, m) <==> Disjoint(Matches, rs))
      && (Disjoint(Matches, rs) ==> forall x :: Lookup(Below, m, x) == NaiveLookup(Matches, rs, x))
  {
    EntryIsPrefix();
    MapRefinesPrefixes(Below, EntryOf, Matches, rs);
  }

  // ---- the map ----

  class Map {
    var entries: seq<Entry<Address>>
    /** The prefixes added so far. */
    ghost var prefixes: seq<Prefix<Address>>

    ghost predicate Valid()
      reads this
    {
      entries == Build(Below, Rules(EntryOf, prefixes))
    }

    constructor ()
      ensures Valid() && prefixes == []
    {
      entries, prefixes := [], [];
    }

    /** Linear search to the insertion point. */
    method FindSpot(addr: Address) returns (i: nat)
      ensures i == Spot(Below, entries, addr)
    {
      if |entries| == 0 || addr < entries[0].a { return 0; }
      if addr > entries[|entries| - 1].b { return |entries|; }
      i := 1;
      while i < |entries|
        invariant 1 <= i <= |entries| && Hole(Below, entries, addr, 1) == Hole(Below, entries, addr, i)
      {
        if entries[i - 1].b < addr && addr < entries[i].a { break; }
        i := i + 1;
      }
    }

    /** qfMapInsert4. */
    method Add(addr: Address, pfx: nat, ifnum: nat)
      requires Valid()
      modifies this
      ensures Valid() && prefixes == old(prefixes) + [Prefix(addr, pfx, ifnum)]
      ensures entries == Insert(Below, old(entries), addr, EntryOf(Prefix(addr, pfx, ifnum)))
    {
      var i := FindSpot(addr);
      hide And, Or, High;
      var mask := PrefixMask(pfx);
      PrefixIsInterval(addr, addr, WIDTH, Open(pfx));
      var e := Entry(And(addr, mask), Or(addr, Not(WIDTH, mask)), ifnum);
      entries := entries[..i] + [e] + entries[i..];
      BuildSnoc(Below, EntryOf, prefixes, Prefix(addr, pfx, ifnum));
      prefixes := prefixes + [Prefix(addr, pfx, ifnum)];
    }

    /** qfMapSearch4. */
    method Search(addr: Address) returns (ifnum: nat)
      requires Valid() && Disjoint(Matches, prefixes)
      ensures ifnum == NaiveLookup(Matches, prefixes, addr)
    {
      hide Ordered, Disjoint, NaiveLookup, Lookup, Build;
      RefinesPrefixes(prefixes);
      ifnum := SearchEntries(addr);
    }

    method SearchEntries(addr: Address) returns (ifnum: nat)
      requires Ordered(Below, entries)
      ensures ifnum == Lookup(Below, entries, addr)
    {
      var x, y := 0, |entries| - 1;
      while x <= y
        invariant 0 <= x <= y + 1 <= |entries|
        invariant forall k :: 0 <= k < x ==> entries[k].b < addr
        invariant forall k :: y < k < |entries| ==> addr < entries[k].a
      {
        var i := (x + y) / 2;
        if addr >= entries[i].a && addr <= entries[i].b {
          LookupAt(Below, entries, addr, i);
          return entries[i].ifnum;
        } else if entries[i].b < addr {
          x := i + 1;
        } else {
          y := i - 1;
        }
      }
      LookupNone(Below, entries, addr);
      return 0;
    }
  }
}
