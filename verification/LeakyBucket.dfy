/** The leaky bucket of qfDetunePacket (src/qofdetune.c), with the outcome of the random drop as
    an input and delays off. */
module LeakyBucket {
  import opened Widths

  const WORD32: nat := 0x1_0000_0000
  const WORD64: nat := 0x1_0000_0000_0000_0000

  /** What drains in a time, in unsigned 64-bit arithmetic. */
  function Amount(time: nat, rate: nat): nat {
    time * rate % WORD64 / 1000
  }

  /** A packet of `oct` octets offered at time `ms`; `unlucky` if the die says to drop it. */
  datatype Arrival = Arrival(ms: nat, oct: nat, unlucky: bool)

  /** Capacity in octets, drain in octets a second, level, and time of the last packet let
      through. */
  datatype Bucket = Bucket(max: nat, rate: nat, cur: nat, last: nat)

  /** The capacity comes from a signed option and octets from a 16-bit length. */
  predicate Config(b: Bucket) {
    0 < b.max <= INT_MAX && b.cur <= b.max
  }

  predicate Packet(e: Arrival) {
    e.oct <= 0xFFFF
  }

  /** The level after draining up to time ms, in the source's integer widths. */
  function Drained(b: Bucket, ms: nat): (r: nat)
    ensures Config(b) ==> r <= INT_MAX
  {
    if b.last != 0 && b.cur != 0 && ms > b.last then
      var c := ToInt(b.cur - Amount(ms - b.last, b.rate));
      if c < 0 then 0 else c
    else b.cur
  }

  /** The bucket has room for the packet. */
  predicate Admits(b: Bucket, e: Arrival) {
    Drained(b, e.ms) + e.oct < b.max
  }

  predicate Accepts(b: Bucket, e: Arrival) {
    Admits(b, e) && !e.unlucky
  }

  /** A packet that the bucket turns away fills it; one that the die drops has filled it already.
      Only an accepted packet moves the clock. */
  function Step(b: Bucket, e: Arrival): (r: Bucket)
    ensures r.max == b.max && r.rate == b.rate && (Config(b) ==> Config(r))
  {
    if !Admits(b, e) then b.(cur := b.max)
    else if e.unlucky then b.(cur := Drained(b, e.ms) + e.oct)
    else b.(cur := Drained(b, e.ms) + e.oct, last := e.ms)
  }

  // ---- the program's state ----

  class Detune {
    const max: nat
    const rate: nat
    var cur: nat
    var last: nat
    var highwater: nat
    var drops: nat
    var randomDrops: nat

    ghost predicate Valid()
      reads this
    {
      max <= INT_MAX && cur <= max
    }

    ghost function State(): Bucket
      reads this
    {
      Bucket(max, rate, cur, last)
    }

    constructor (max: nat, rate: nat)
      requires max <= INT_MAX
      ensures Valid() && State() == Bucket(max, rate, 0, 0) && drops == 0 && randomDrops == 0
    {
      this.max, this.rate := max, rate;
      cur, last, highwater, drops, randomDrops := 0, 0, 0, 0, 0;
    }

    /** The level after draining. */
    method Drain(ms: nat) returns (c: int)
      ensures c == Drained(State(), ms)
    {
      hide ToInt, Amount;
      c := cur;
      if last != 0 && c != 0 && ms > last {
        c := ToInt(c - Amount(ms - last, rate));
        if c < 0 { c := 0; }
      }
    }

    /** qfDetunePacket: a packet that the full bucket or the die turns away leaves the clock where
        the last accepted packet put it. */
    method Admit(ms: nat, oct: nat, unlucky: bool) returns (ok: bool)
      requires Valid() && oct <= 0xFFFF
      modifies this
      ensures Valid()
      ensures max == 0 ==> ok == !unlucky && cur == old(cur) && last == if ok then ms else old(last)
      ensures max > 0 ==> ok == Accepts(old(State()), Arrival(ms, oct, unlucky))
      ensures max > 0 ==> State() == Step(old(State()), Arrival(ms, oct, unlucky))
      ensures max == 0 ==> drops == old(drops) && highwater == old(highwater)
      ensures max > 0 ==>
        var b, e := old(State()), Arrival(ms, oct, unlucky);
        var level := Drained(b, ms) + oct;
        && drops == old(drops) + (if level < max then 0 else 1)
        && highwater == (if level > old(highwater) then level else old(highwater))
      ensures drops + randomDrops == old(drops) + old(randomDrops) + if ok then 0 else 1
    {
      hide Drained;
      if max != 0 {
        var c := Drain(ms);
        c := (c + oct) % WORD32;
        if c > highwater { highwater := c; }
        if c >= max {
          cur := max;
          drops := drops + 1;
          return false;
        }
        cur := c;
      }
      if unlucky {
        randomDrops := randomDrops + 1;
        return false;
      }
      last := ms;
      return true;
    }
  }

  // ---- conformance ----

  /** However the arithmetic wraps, no more drains away than the rate allows. */
  lemma DrainedEnough(b: Bucket, ms: nat)
    requires Config(b) && ms >= b.last
    ensures 1000 * Drained(b, ms) >= 1000 * b.cur - b.rate * (ms - b.last)
  {
    hide Amount, ToInt;
    var d := Amount(ms - b.last, b.rate);
    AmountBound(ms - b.last, b.rate);
    if b.cur - d >= 0 {
      FitsInt(b.cur - d);
    }
  }

  /** The octets that the rate allows in a time. */
  function Allowed(rate: nat, time: nat): nat {
    time * rate / 1000
  }

  /** The level is the exact one, what the rate allows being taken away but not below zero, if and
      only if the bucket is empty, or that amount is within the level or the 32-bit difference does not come out positive. */
  lemma DrainsExactly(b: Bucket, ms: nat)
    requires Config(b) && b.last != 0 && ms >= b.last
    ensures
      var due := Allowed(b.rate, ms - b.last);
      Drained(b, ms) == (if due < b.cur then b.cur - due else 0)
      <==> b.cur == 0 || due <= b.cur || ToInt(b.cur - (ms - b.last) * b.rate % 0x1_0000_0000_0000_0000 / 1000) <= 0
  {
    var due := Allowed(b.rate, ms - b.last);
    if due <= b.cur {
      SmallProduct((ms - b.last) * b.rate, b.cur);
      FitsInt(b.cur - due);
    }
    if ms == b.last {
      NoTime(b, ms);
    }
    hide ToInt;
  }

  lemma SmallProduct(x: nat, c: nat)
    requires x / 1000 <= c <= INT_MAX
    ensures x % 0x1_0000_0000_0000_0000 == x
  {
  }

  lemma NoTime(b: Bucket, ms: nat)
    requires ms == b.last
    ensures (ms - b.last) * b.rate == 0
  {
  }

  lemma AmountBound(time: nat, rate: nat)
    ensures 1000 * Amount(time, rate) <= rate * time
  {
    var y := time * rate;
    assert y % WORD64 <= y;
    assert y == rate * time;
  }

  function Run(b: Bucket, es: seq<Arrival>): (r: Bucket)
    ensures r.max == b.max && r.rate == b.rate && (Config(b) ==> Config(r))
  {
    if es == [] then b else Step(Run(b, es[..|es| - 1]), es[|es| - 1])
  }

  /** Whether the k-th packet is accepted. */
  predicate Accepted(b: Bucket, es: seq<Arrival>, k: nat)
    requires k < |es|
  {
    Accepts(Run(b, es[..k]), es[k])
  }

  /** Octets of the accepted packets among i..j. */
  function Octets(b: Bucket, es: seq<Arrival>, i: nat, j: int): nat
    requires j < |es|
    decreases j + 1 - i
  {
    if j < i then 0
    else Octets(b, es, i, j - 1) + if Accepted(b, es, j) then es[j].oct else 0
  }

  predicate Clocked(es: seq<Arrival>) {
    forall k, l :: 0 <= k < l < |es| ==> es[k].ms <= es[l].ms
  }

  predicate Packets(es: seq<Arrival>) {
    forall k :: 0 <= k < |es| ==> Packet(es[k])
  }

  /** The k-th packet fits the bucket but the die drops it. */
  predicate DroppedAtRandom(b: Bucket, es: seq<Arrival>, k: nat)
    requires k < |es|
  {
    Admits(Run(b, es[..k]), es[k]) && es[k].unlucky
  }

  /** The time for which the packets i + 1 to j drain the bucket: each that the bucket admits
      drains it since the last accepted packet, also when the die then drops it. */
  function DrainTime(b: Bucket, es: seq<Arrival>, i: nat, j: int): int
    requires i <= j < |es|
    decreases j
  {
    if j == i then 0
    else
      var p := Run(b, es[..j]);
      DrainTime(b, es, i, j - 1) + if Admits(p, es[j]) then es[j].ms - p.last else 0
  }

  lemma LastInWindow(b: Bucket, es: seq<Arrival>, i: nat, j: nat)
    requires Clocked(es) && i <= j < |es| && Accepted(b, es, i)
    ensures es[i].ms <= Run(b, es[..j + 1]).last <= es[j].ms
    decreases j
  {
    hide Drained;
    assert es[..j + 1][..j] == es[..j];
    if j > i {
      LastInWindow(b, es, i, j - 1);
      assert es[j - 1].ms <= es[j].ms && es[i].ms <= es[j].ms;
    }
  }

  /** After packets i..j, of which i was accepted, the level is at least what was accepted
      less what the rate allows in the time drained. */
  lemma {:induction false} LevelKeeps(b: Bucket, es: seq<Arrival>, i: nat, j: nat)
    requires Config(b) && Clocked(es) && Packets(es) && i <= j < |es| && Accepted(b, es, i)
    ensures 1000 * Run(b, es[..j + 1]).cur >= 1000 * Octets(b, es, i, j) - b.rate * DrainTime(b, es, i, j)
    decreases j
  {
    hide Drained;
    var p := Run(b, es[..j]);
    assert es[..j + 1][..j] == es[..j];
    if j == i {
      assert Octets(b, es, i, j - 1) == 0;
    } else {
      LevelKeeps(b, es, i, j - 1);
      LastInWindow(b, es, i, j - 1);
      assert es[j - 1].ms <= es[j].ms;
      if Admits(p, es[j]) {
        DrainedEnough(p, es[j].ms);
        Distribute(b.rate, DrainTime(b, es, i, j - 1), es[j].ms - p.last);
      }
    }
  }

  lemma Distribute(rate: nat, t: int, u: int)
    ensures rate * (t + u) == rate * t + rate * u
  {
  }

  /** The octets accepted from packet i to packet j, both accepted, are fewer than the capacity
      plus what drains in the time drained, whatever the die does. */
  lemma ConformanceWithDrops(b: Bucket, es: seq<Arrival>, i: nat, j: nat)
    requires Config(b) && Clocked(es) && Packets(es) && i <= j < |es|
    requires Accepted(b, es, i) && Accepted(b, es, j)
    ensures 1000 * Octets(b, es, i, j) < 1000 * b.max + b.rate * DrainTime(b, es, i, j)
  {
    hide Drained, Octets, DrainTime;
    LevelKeeps(b, es, i, j);
    assert es[..j + 1][..j] == es[..j];
  }

  /** Without random drops the time drained is the time to the last accepted packet. */
  lemma {:induction false} DrainTimeIsElapsed(b: Bucket, es: seq<Arrival>, i: nat, j: nat)
    requires i <= j < |es| && Accepted(b, es, i)
    requires forall k :: i < k <= j ==> !DroppedAtRandom(b, es, k)
    ensures DrainTime(b, es, i, j) == Run(b, es[..j + 1]).last - es[i].ms
    decreases j
  {
    hide Drained;
    assert es[..j + 1][..j] == es[..j];
    if j > i {
      DrainTimeIsElapsed(b, es, i, j - 1);
      assert !DroppedAtRandom(b, es, j);
    }
  }

  /** Conformance: in a window without random drops the octets accepted from packet i to packet j,
      both accepted, are fewer than the capacity plus what drains in the time between them. */
  lemma Conformance(b: Bucket, es: seq<Arrival>, i: nat, j: nat)
    requires Config(b) && Clocked(es) && Packets(es) && i <= j < |es|
    requires Accepted(b, es, i) && Accepted(b, es, j)
    requires forall k :: i < k < j ==> !DroppedAtRandom(b, es, k)
    ensures 1000 * Octets(b, es, i, j) < 1000 * b.max + b.rate * (es[j].ms - es[i].ms)
  {
    hide Octets, DrainTime, Run, Accepted, DroppedAtRandom;
    ConformanceWithDrops(b, es, i, j);
    AcceptedIsLast(b, es, j);
    DrainTimeIsElapsed(b, es, i, j);
  }

  lemma AcceptedIsLast(b: Bucket, es: seq<Arrival>, j: nat)
    requires j < |es| && Accepted(b, es, j)
    ensures Run(b, es[..j + 1]).last == es[j].ms && !DroppedAtRandom(b, es, j)
  {
    hide Drained;
    assert es[..j + 1][..j] == es[..j];
  }

  // ---- when packets are let through ----

  /** The amount due since the last accepted packet is drained without overflow. */
  predicate Exact(b: Bucket, ms: nat) {
    b.last != 0 && ms >= b.last && Allowed(b.rate, ms - b.last) <= INT_MAX
  }

  lemma ExactLevel(b: Bucket, ms: nat)
    requires Config(b) && Exact(b, ms)
    ensures
      var due := Allowed(b.rate, ms - b.last);
      Drained(b, ms) == if due < b.cur then b.cur - due else 0
  {
    var due := Allowed(b.rate, ms - b.last);
    DrainsExactly(b, ms);
    SmallProduct((ms - b.last) * b.rate, INT_MAX);
    FitsInt(b.cur - due);
    hide ToInt, Drained;
  }

  /** After a packet that the full bucket turned away, the next one is let through exactly when it
      is smaller than the capacity and than what the rate allows since the last accepted packet. */
  lemma AfterRefusal(b: Bucket, es: seq<Arrival>, j: nat)
    requires Config(b) && 0 < j < |es| && !Admits(Run(b, es[..j - 1]), es[j - 1])
    requires Exact(Run(b, es[..j - 1]), es[j].ms) && !es[j].unlucky
    ensures
      var due := Allowed(b.rate, es[j].ms - Run(b, es[..j - 1]).last);
      Accepted(b, es, j) <==> es[j].oct < b.max && es[j].oct < due
  {
    hide Drained, Exact, Accepts, Admits, Allowed, Run;
    RunNext(b, es, j);
    LetThrough(Run(b, es[..j - 1]), es[j]);
  }

  lemma RunNext(b: Bucket, es: seq<Arrival>, j: nat)
    requires 0 < j <= |es|
    ensures Run(b, es[..j]) == Step(Run(b, es[..j - 1]), es[j - 1])
  {
    hide Step;
    assert es[..j][..j - 1] == es[..j - 1];
  }

  lemma LetThrough(p: Bucket, e: Arrival)
    requires Config(p) && Exact(p, e.ms) && !e.unlucky
    ensures e.ms >= p.last
    ensures Accepts(p.(cur := p.max), e) <==> e.oct < p.max && e.oct < Allowed(p.rate, e.ms - p.last)
  {
    ExactLevel(p.(cur := p.max), e.ms);
    hide Drained;
  }

  /** A bucket whose first packet is at least as large as the capacity never lets one through: the
      level starts to drain only with the first accepted packet. */
  lemma {:induction false} StuckFromTheStart(b: Bucket, es: seq<Arrival>, j: nat)
    requires Config(b) && b.cur == b.last == 0 && j < |es| && es[0].oct >= b.max
    ensures !Accepted(b, es, j)
    ensures Run(b, es[..j + 1]).last == 0 && Run(b, es[..j + 1]).cur == b.max
    decreases j
  {
    assert es[..j + 1][..j] == es[..j];
    if j > 0 {
      StuckFromTheStart(b, es, j - 1);
    }
  }

  /** With a random drop in the window it fails: 900 octets at 1 ms, one octet dropped by the die
      at 501 ms, 999 octets at 502 ms, all within a capacity of 1000 and a rate of 1000 a second.
      The 500 ms before the drop drain twice. */
  lemma RandomDropBreaksConformance()
    ensures
      var b := Bucket(1000, 1000, 0, 0);
      var es := [Arrival(1, 900, false), Arrival(501, 1, true), Arrival(502, 999, false)];
      && Config(b) && Clocked(es) && Packets(es) && Accepted(b, es, 0) && Accepted(b, es, 2)
      && 1000 * Octets(b, es, 0, 2) >= 1000 * b.max + b.rate * (es[2].ms - es[0].ms)
  {
    var b := Bucket(1000, 1000, 0, 0);
    var x, y, z := Arrival(1, 900, false), Arrival(501, 1, true), Arrival(502, 999, false);
    var es := [x, y, z];
    hide Drained, Run, Octets, Accepted;
    DrainsTwice();
    ThreePackets(b, x, y, z);
  }

  lemma DrainsTwice()
    ensures Drained(Bucket(1000, 1000, 0, 0), 1) == 0
    ensures Drained(Bucket(1000, 1000, 900, 1), 501) == 400
    ensures Drained(Bucket(1000, 1000, 401, 1), 502) == 0
  {
    hide ToInt, Amount;
    AmountAtThousand(500);
    AmountAtThousand(501);
    FitsInt(400);
    FitsInt(-100);
  }

  lemma AmountAtThousand(time: nat)
    requires time < WORD32
    ensures Amount(time, 1000) == time
  {
  }

  /** The first and the third of three packets accepted. */
  lemma ThreePackets(b: Bucket, x: Arrival, y: Arrival, z: Arrival)
    requires
      var c := Step(b, x);
      Accepts(b, x) && !Accepts(c, y) && Accepts(Step(c, y), z)
    ensures
      var es := [x, y, z];
      Accepted(b, es, 0) && Accepted(b, es, 2) && Octets(b, es, 0, 2) == x.oct + z.oct
  {
    hide Drained, Step, Accepts;
    var es := [x, y, z];
    assert es[..0] == [] && es[..1] == [x] && es[..2] == [x, y] && [x, y][..1] == [x] && [x][..0] == [];
    assert Run(b, [x]) == Step(b, x) && Run(b, [x, y]) == Step(Step(b, x), y);
    assert Octets(b, es, 0, -1) == 0 && Octets(b, es, 0, 0) == x.oct && Octets(b, es, 0, 1) == x.oct;
  }
}
