/** A map from address intervals to interface numbers, kept as an array in address order
    (src/qofifmap.c), over any linear order of addresses. */
module IntervalMap {

  /** Addresses a..b belong to interface `ifnum`. */
  datatype Entry<T> = Entry(a: T, b: T, ifnum: nat)

  ghost predicate Linear<T(!new)>(lt: (T, T) -> bool) {
    && (forall x :: !lt(x, x))
    && (forall x, y :: lt(x, y) || x == y || lt(y, x))
    && (forall x, y, z :: lt(x, y) && lt(y, z) ==> lt(x, z))
  }

  predicate Covers<T>(lt: (T, T) -> bool, e: Entry<T>, x: T) {
    !lt(x, e.a) && !lt(e.b, x)
  }

  /** Entries are non-empty intervals, in order and disjoint. */
  ghost predicate Ordered<T>(lt: (T, T) -> bool, m: seq<Entry<T>>) {
    && (forall i :: 0 <= i < |m| ==> !lt(m[i].b, m[i].a))
    && (forall i, j :: 0 <= i < j < |m| ==> lt(m[i].b, m[j].a))
  }

  /** The naive lookup: the first entry that covers x, or interface 0. */
  function Lookup<T>(lt: (T, T) -> bool, m: seq<Entry<T>>, x: T): nat {
    if m == [] then 0
    else if Covers(lt, m[0], x) then m[0].ifnum
    else Lookup(lt, m[1..], x)
  }

  lemma {:induction false} LookupAt<T(!new)>(lt: (T, T) -> bool, m: seq<Entry<T>>, x: T, i: nat)
    requires Linear(lt) && Ordered(lt, m) && i < |m| && Covers(lt, m[i], x)
    ensures Lookup(lt, m, x) == m[i].ifnum
  {
    if i > 0 {
      assert lt(m[0].b, m[i].a);
      LookupAt(lt, m[1..], x, i - 1);
    }
  }

  lemma {:induction false} LookupNone<T>(lt: (T, T) -> bool, m: seq<Entry<T>>, x: T)
    requires forall i :: 0 <= i < |m| ==> !Covers(lt, m[i], x)
    ensures Lookup(lt, m, x) == 0
  {
    if m != [] {
      LookupNone(lt, m[1..], x);
    }
  }

  /** Halving the search: an entry that does not cover x and starts below it rules out all up to
      it, one that starts above x all from it. */
  lemma GoUp<T(!new)>(lt: (T, T) -> bool, m: seq<Entry<T>>, x: T, i: nat)
    requires Linear(lt) && Ordered(lt, m) && i < |m| && !Covers(lt, m[i], x) && lt(m[i].a, x)
    ensures forall k :: 0 <= k <= i ==> lt(m[k].b, x)
  {
    assert lt(m[i].b, x);
    forall k | 0 <= k < i
      ensures lt(m[k].b, x)
    {
      assert lt(m[k].b, m[i].a);
    }
  }

  lemma GoDown<T(!new)>(lt: (T, T) -> bool, m: seq<Entry<T>>, x: T, i: nat)
    requires Linear(lt) && Ordered(lt, m) && i < |m| && !Covers(lt, m[i], x) && !lt(m[i].a, x)
    ensures forall k :: i <= k < |m| ==> lt(x, m[k].a)
  {
    assert lt(x, m[i].a) && !lt(m[i].b, m[i].a);
    forall k | i < k < |m|
      ensures lt(x, m[k].a)
    {
      assert lt(m[i].b, m[k].a);
    }
  }

  lemma LookupOutside<T>(lt: (T, T) -> bool, m: seq<Entry<T>>, x: T, n: nat)
    requires n <= |m| && (forall k :: 0 <= k < n ==> lt(m[k].b, x)) && (forall k :: n <= k < |m| ==> lt(x, m[k].a))
    ensures Lookup(lt, m, x) == 0
  {
    LookupNone(lt, m, x);
  }

  // ---- insertion ----

  /** Where the linear search for address x stops. */
  function Spot<T>(lt: (T, T) -> bool, m: seq<Entry<T>>, x: T): (i: nat)
    ensures i <= |m|
  {
    if m == [] || lt(x, m[0].a) then 0
    else if lt(m[|m| - 1].b, x) then |m|
    else Hole(lt, m, x, 1)
  }

  /** The first hole from entry k up that x lies in, or the end. */
  function Hole<T>(lt: (T, T) -> bool, m: seq<Entry<T>>, x: T, k: nat): (i: nat)
    requires 1 <= k <= |m|
    ensures k <= i <= |m| && (i < |m| ==> Between(lt, m, x, i))
    ensures forall j :: k <= j < i ==> !Between(lt, m, x, j)
    decreases |m| - k
  {
    if k == |m| || Between(lt, m, x, k) then k else Hole(lt, m, x, k + 1)
  }

  /** x lies in the hole below entry k. */
  predicate Between<T>(lt: (T, T) -> bool, m: seq<Entry<T>>, x: T, k: nat)
    requires 1 <= k < |m|
  {
    lt(m[k - 1].b, x) && lt(x, m[k].a)
  }

  function Inserted<T>(m: seq<Entry<T>>, i: nat, e: Entry<T>): seq<Entry<T>>
    requires i <= |m|
  {
    m[..i] + [e] + m[i..]
  }

  /** No address belongs to both e and an entry of m. */
  ghost predicate Apart<T>(lt: (T, T) -> bool, m: seq<Entry<T>>, e: Entry<T>) {
    forall i :: 0 <= i < |m| ==> lt(m[i].b, e.a) || lt(e.b, m[i].a)
  }

  /** If e is apart from m, the search for an address of e splits m at e. */
  lemma SpotSplits<T(!new)>(lt: (T, T) -> bool, m: seq<Entry<T>>, x: T, e: Entry<T>)
    requires Linear(lt) && Ordered(lt, m) && Covers(lt, e, x) && Apart(lt, m, e)
    ensures forall k :: 0 <= k < Spot(lt, m, x) ==> lt(m[k].b, e.a)
    ensures forall k :: Spot(lt, m, x) <= k < |m| ==> lt(e.b, m[k].a)
  {
    var i := Spot(lt, m, x);
    forall k | 0 <= k < |m|
      ensures lt(m[k].b, x) ==> lt(m[k].b, e.a)
      ensures lt(x, m[k].a) ==> lt(e.b, m[k].a)
      ensures lt(m[k].b, x) || lt(x, m[k].a)
    {
    }
    if i > 0 && i == |m| && !lt(m[i - 1].b, x) {
      SpotFound(lt, m, x);
    }
    if i < |m| {
      assert lt(x, m[i].a);
    }
  }

  /** An address above some entry and apart from all lies below the top or in a hole. */
  lemma SpotFound<T(!new)>(lt: (T, T) -> bool, m: seq<Entry<T>>, x: T)
    requires Linear(lt) && Ordered(lt, m) && Spot(lt, m, x) == |m| > 0
    requires forall k :: 0 <= k < |m| ==> lt(m[k].b, x) || lt(x, m[k].a)
    ensures lt(m[|m| - 1].b, x)
  {
    if !lt(m[|m| - 1].b, x) {
      var k := 0;
      while k < |m| - 1
        invariant k < |m| && lt(m[k].b, x)
        decreases |m| - k
      {
        assert !Between(lt, m, x, k + 1);
        k := k + 1;
      }
    }
  }

  function Insert<T>(lt: (T, T) -> bool, m: seq<Entry<T>>, x: T, e: Entry<T>): seq<Entry<T>> {
    Inserted(m, Spot(lt, m, x), e)
  }

  /** Insertion keeps the order exactly when the new interval is apart from the others. */
  lemma InsertKeepsOrder<T(!new)>(lt: (T, T) -> bool, m: seq<Entry<T>>, x: T, e: Entry<T>)
    requires Linear(lt) && Ordered(lt, m) && Covers(lt, e, x)
    ensures Ordered(lt, Insert(lt, m, x, e)) <==> Apart(lt, m, e)
  {
    var n := Insert(lt, m, x, e);
    if Apart(lt, m, e) {
      SpotSplits(lt, m, x, e);
    }
    if Ordered(lt, n) {
      OrderedIsApart(lt, n);
      InsertedApart(lt, m, Spot(lt, m, x), e);
    }
  }

  // ---- any number of insertions ----

  /** Every two entries are apart. */
  ghost predicate AllApart<T>(lt: (T, T) -> bool, m: seq<Entry<T>>) {
    forall i, j :: 0 <= i < j < |m| ==> lt(m[i].b, m[j].a) || lt(m[j].b, m[i].a)
  }

  lemma OrderedIsApart<T>(lt: (T, T) -> bool, m: seq<Entry<T>>)
    requires Ordered(lt, m)
    ensures AllApart(lt, m)
  {
  }

  lemma InsertedApart<T>(lt: (T, T) -> bool, m: seq<Entry<T>>, i: nat, e: Entry<T>)
    requires i <= |m|
    ensures AllApart(lt, Inserted(m, i, e)) <==> AllApart(lt, m) && Apart(lt, m, e)
  {
    var n := Inserted(m, i, e);
    assert n[i] == e && (forall k :: 0 <= k < i ==> n[k] == m[k]) && (forall k :: i < k < |n| ==> n[k] == m[k - 1]);
    if AllApart(lt, n) {
      assert forall k :: 0 <= k < |m| ==> m[k] == n[if k < i then k else k + 1];
    }
  }

  /** An entry together with the address that was given for it. */
  datatype Rule<T> = Rule(addr: T, entry: Entry<T>)

  function Entries<T>(rules: seq<Rule<T>>): (r: seq<Entry<T>>)
    ensures |r| == |rules| && forall i :: 0 <= i < |r| ==> r[i] == rules[i].entry
  {
    seq(|rules|, i requires 0 <= i < |rules| => rules[i].entry)
  }

  function Build<T>(lt: (T, T) -> bool, rules: seq<Rule<T>>): seq<Entry<T>> {
    if rules == [] then []
    else
      var r := rules[|rules| - 1];
      Insert(lt, Build(lt, rules[..|rules| - 1]), r.addr, r.entry)
  }

  ghost predicate Anchored<T>(lt: (T, T) -> bool, rules: seq<Rule<T>>) {
    forall i :: 0 <= i < |rules| ==> Covers(lt, rules[i].entry, rules[i].addr)
  }

  lemma InsertedHolds<T>(m: seq<Entry<T>>, i: nat, e: Entry<T>, x: Entry<T>)
    requires i <= |m|
    ensures x in Inserted(m, i, e) <==> x in m || x == e
  {
    assert m == m[..i] + m[i..];
  }

  lemma EntriesGrow<T>(rules: seq<Rule<T>>)
    requires rules != []
    ensures
      var n := |rules| - 1;
      Entries(rules) == Inserted(Entries(rules[..n]), n, rules[n].entry)
  {
  }

  /** The map holds exactly the entries given. */
  lemma {:induction false} BuildHolds<T>(lt: (T, T) -> bool, rules: seq<Rule<T>>, e: Entry<T>)
    ensures e in Build(lt, rules) <==> e in Entries(rules)
  {
    if rules != [] {
      hide Spot, Inserted, Entries;
      var n := |rules| - 1;
      var m, r := Build(lt, rules[..n]), rules[n];
      BuildHolds(lt, rules[..n], e);
      InsertedHolds(m, Spot(lt, m, r.addr), r.entry, e);
      EntriesGrow(rules);
      InsertedHolds(Entries(rules[..n]), n, r.entry, e);
    }
  }

  /** They are apart in the map if and only if the rules are. */
  lemma {:induction false} BuildApart<T(!new)>(lt: (T, T) -> bool, rules: seq<Rule<T>>)
    ensures AllApart(lt, Build(lt, rules)) <==> AllApart(lt, Entries(rules))
  {
    if rules != [] {
      hide Spot, Inserted, Entries, AllApart, Apart;
      var n := |rules| - 1;
      var m, r := Build(lt, rules[..n]), rules[n];
      BuildApart(lt, rules[..n]);
      InsertedApart(lt, m, Spot(lt, m, r.addr), r.entry);
      EntriesGrow(rules);
      InsertedApart(lt, Entries(rules[..n]), n, r.entry);
      forall e
        ensures e in m <==> e in Entries(rules[..n])
      {
        BuildHolds(lt, rules[..n], e);
      }
      SameApart(lt, m, Entries(rules[..n]), r.entry);
    }
  }

  lemma SameApart<T(!new)>(lt: (T, T) -> bool, m: seq<Entry<T>>, n: seq<Entry<T>>, e: Entry<T>)
    requires forall x :: x in m <==> x in n
    ensures Apart(lt, m, e) <==> Apart(lt, n, e)
  {
    if Apart(lt, m, e) {
      forall i | 0 <= i < |n|
        ensures lt(n[i].b, e.a) || lt(e.b, n[i].a)
      {
        assert n[i] in n && n[i] in m;
      }
    }
    if Apart(lt, n, e) {
      forall i | 0 <= i < |m|
        ensures lt(m[i].b, e.a) || lt(e.b, m[i].a)
      {
        assert m[i] in m && m[i] in n;
      }
    }
  }

  /** Inserted in any order, entries end up in address order if and only if they are apart. */
  lemma {:induction false} BuildIsOrdered<T(!new)>(lt: (T, T) -> bool, rules: seq<Rule<T>>)
    requires Linear(lt) && Anchored(lt, rules)
    ensures Ordered(lt, Build(lt, rules)) <==> AllApart(lt, Entries(rules))
  {
    BuildApart(lt, rules);
    if Ordered(lt, Build(lt, rules)) {
      OrderedIsApart(lt, Build(lt, rules));
    } else if rules != [] && AllApart(lt, Entries(rules)) {
      var n := |rules| - 1;
      var m, r := Build(lt, rules[..n]), rules[n];
      InsertedApart(lt, m, Spot(lt, m, r.addr), r.entry);
      BuildApart(lt, rules[..n]);
      BuildIsOrdered(lt, rules[..n]);
      InsertKeepsOrder(lt, m, r.addr, r.entry);
    }
  }

  /** Lookup depends only on which entries there are, when they are apart. */
  lemma LookupUnique<T(!new)>(lt: (T, T) -> bool, m: seq<Entry<T>>, x: T, e: Entry<T>)
    requires Linear(lt) && AllApart(lt, m) && e in m && Covers(lt, e, x)
    ensures Lookup(lt, m, x) == e.ifnum
  {
    var i :| 0 <= i < |m| && m[i] == e;
    if i > 0 {
      assert lt(m[0].b, m[i].a) || lt(m[i].b, m[0].a);
      assert m[1..][i - 1] == e;
      LookupUnique(lt, m[1..], x, e);
    }
  }

  /** The lookup in the built map is the lookup in the list of rules. */
  lemma BuildRefinesRules<T(!new)>(lt: (T, T) -> bool, rules: seq<Rule<T>>, x: T)
    requires Linear(lt) && AllApart(lt, Entries(rules))
    ensures Lookup(lt, Build(lt, rules), x) == Lookup(lt, Entries(rules), x)
  {
    var m, n := Build(lt, rules), Entries(rules);
    BuildApart(lt, rules);
    if i :| 0 <= i < |n| && Covers(lt, n[i], x) {
      assert n[i] in n;
      BuildHolds(lt, rules, n[i]);
      LookupUnique(lt, n, x, n[i]);
      LookupUnique(lt, m, x, n[i]);
    } else {
      LookupNone(lt, n, x);
      forall i | 0 <= i < |m|
        ensures !Covers(lt, m[i], x)
      {
        assert m[i] in m;
        BuildHolds(lt, rules, m[i]);
      }
      LookupNone(lt, m, x);
    }
  }

  // ---- prefixes ----

  /** The addresses that agree with `addr` in their first `pfx` bits go to interface `ifnum`. */
  datatype Prefix<T> = Prefix(addr: T, pfx: nat, ifnum: nat)

  /** `entry` gives each prefix the interval of the addresses that match it. */
  ghost predicate Represents<T(!new)>(lt: (T, T) -> bool, entry: Prefix<T> -> Entry<T>, matches: (Prefix<T>, T) -> bool) {
    && (forall r: Prefix<T>, x: T :: matches(r, x) <==> Covers(lt, entry(r), x))
    && (forall r: Prefix<T> :: matches(r, r.addr) && entry(r).ifnum == r.ifnum)
  }

  function Rules<T>(entry: Prefix<T> -> Entry<T>, rs: seq<Prefix<T>>): (q: seq<Rule<T>>)
    ensures |q| == |rs| && forall i :: 0 <= i < |rs| ==> q[i] == Rule(rs[i].addr, entry(rs[i]))
  {
    seq(|rs|, i requires 0 <= i < |rs| => Rule(rs[i].addr, entry(rs[i])))
  }

  /** One more prefix is one more insertion. */
  lemma BuildSnoc<T>(lt: (T, T) -> bool, entry: Prefix<T> -> Entry<T>, rs: seq<Prefix<T>>, r: Prefix<T>)
    ensures
      Build(lt, Rules(entry, rs + [r]))
      == Insert(lt, Build(lt, Rules(entry, rs)), r.addr, entry(r))
  {
    var q := Rules(entry, rs + [r]);
    assert q[..|rs|] == Rules(entry, rs);
  }

  /** No address matches two of the prefixes. */
  ghost predicate Disjoint<T(!new)>(matches: (Prefix<T>, T) -> bool, rs: seq<Prefix<T>>) {
    forall i, j, x :: 0 <= i < j < |rs| ==> !(matches(rs[i], x) && matches(rs[j], x))
  }

  /** The interface of the first prefix that x matches, or 0. */
  function NaiveLookup<T>(matches: (Prefix<T>, T) -> bool, rs: seq<Prefix<T>>, x: T): nat {
    if rs == [] then 0
    else if matches(rs[0], x) then rs[0].ifnum
    else NaiveLookup(matches, rs[1..], x)
  }

  /** Two intervals have no address in common exactly when one ends below the other. */
  lemma PairApart<T(!new)>(lt: (T, T) -> bool, e: Entry<T>, f: Entry<T>)
    requires Linear(lt) && !lt(e.b, e.a) && !lt(f.b, f.a)
    ensures lt(e.b, f.a) || lt(f.b, e.a) <==> forall x :: !(Covers(lt, e, x) && Covers(lt, f, x))
  {
    if !lt(e.b, f.a) && !lt(f.b, e.a) {
      var x := if lt(e.a, f.a) then f.a else e.a;
      assert Covers(lt, e, x) && Covers(lt, f, x);
    }
  }

  lemma DisjointIsApart<T(!new)>(lt: (T, T) -> bool, entry: Prefix<T> -> Entry<T>,
      matches: (Prefix<T>, T) -> bool, rs: seq<Prefix<T>>)
    requires Linear(lt) && Represents(lt, entry, matches)
    ensures Disjoint(matches, rs) <==> AllApart(lt, Entries(Rules(entry, rs)))
  {
    var es := Entries(Rules(entry, rs));
    forall i, j | 0 <= i < j < |rs|
      ensures
        lt(es[i].b, es[j].a) || lt(es[j].b, es[i].a)
        <==> forall x :: !(matches(rs[i], x) && matches(rs[j], x))
    {
      assert matches(rs[i], rs[i].addr) && matches(rs[j], rs[j].addr);
      PairApart(lt, es[i], es[j]);
    }
  }

  lemma {:induction false} RulesRefinePrefixes<T(!new)>(lt: (T, T) -> bool, entry: Prefix<T> -> Entry<T>,
      matches: (Prefix<T>, T) -> bool, rs: seq<Prefix<T>>, x: T)
    requires Represents(lt, entry, matches)
    ensures Lookup(lt, Entries(Rules(entry, rs)), x) == NaiveLookup(matches, rs, x)
  {
    if rs != [] {
      RulesRefinePrefixes(lt, entry, matches, rs[1..], x);
      assert Entries(Rules(entry, rs))[1..] == Entries(Rules(entry, rs[1..]));
      assert matches(rs[0], x) <==> Covers(lt, entry(rs[0]), x);
    }
  }

  /** Prefixes inserted in any order: the map is in address order if and only if no address
      matches two of them, and then the map and the list of prefixes give the same interface. */
  lemma MapRefinesPrefixes<T(!new)>(lt: (T, T) -> bool, entry: Prefix<T> -> Entry<T>,
      matches: (Prefix<T>, T) -> bool, rs: seq<Prefix<T>>)
    requires Linear(lt) && Represents(lt, entry, matches)
    ensures
      var m := Build(lt, Rules(entry, rs));
      && (Ordered(lt, m) <==> Disjoint(matches, rs))
      && (Disjoint(matches, rs) ==> forall x :: Lookup(lt, m, x) == NaiveLookup(matches, rs, x))
  {
    var q := Rules(entry, rs);
    forall i | 0 <= i < |rs|
      ensures Covers(lt, q[i].entry, q[i].addr)
    {
      assert matches(rs[i], rs[i].addr);
    }
    BuildIsOrdered(lt, q);
    DisjointIsApart(lt, entry, matches, rs);
    if Disjoint(matches, rs) {
      forall x
        ensures Lookup(lt, Build(lt, q), x) == NaiveLookup(matches, rs, x)
      {
        BuildRefinesRules(lt, q, x);
        RulesRefinePrefixes(lt, entry, matches, rs, x);
      }
    }
  }
}
