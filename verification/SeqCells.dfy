/** The gap stack as src/qofseq.c holds it: eight cells of 32-bit sequence numbers compared
    in serial arithmetic (section 3.2 of RFC 1982), an empty cell being all zero.  Within a
    window of 2^31 octets it computes what SeqSpec says. */
module SeqCells {
  import opened SeqSpec

  const TWO31 := 0x8000_0000
  const TWO32 := 0x1_0000_0000

  type u32 = x: int | 0 <= x < 0x1_0000_0000

  datatype Cell = Cell(a: u32, b: u32)

  const NoGap := Cell(0, 0)

  /** Reduction of a sequence number to 32 bits. */
  function Wrap(x: int): u32 {
    x % 0x1_0000_0000
  }

  function Sub32(a: u32, b: u32): u32 {
    Wrap(a - b)
  }

  function WrapCompare(a: u32, b: u32): int {
    if a == b then 0 else if Sub32(a, b) >= TWO31 then -1 else 1
  }

  predicate EmptyCell(c: Cell) {
    c.a == 0 && c.b == 0
  }

  // ---- the code's operations on the eight cells ----

  function SeekCells(cs: seq<Cell>, a: u32): (i: nat)
    ensures i <= |cs|
    ensures i < |cs| && !EmptyCell(cs[i]) ==> WrapCompare(a, cs[i].a) >= 0
    ensures forall j :: 0 <= j < i ==> !EmptyCell(cs[j]) && WrapCompare(a, cs[j].a) < 0
  {
    if cs == [] || EmptyCell(cs[0]) || WrapCompare(a, cs[0].a) >= 0 then 0
    else 1 + SeekCells(cs[1..], a)
  }

  function ShiftCells(cs: seq<Cell>, i: nat): seq<Cell>
    requires i < |cs| == GAPS
  {
    cs[..i] + cs[i + 1..] + [NoGap]
  }

  function UnshiftCells(cs: seq<Cell>, i: nat): seq<Cell>
    requires i < |cs| == GAPS
  {
    cs[..i + 1] + cs[i..GAPS - 1]
  }

  function CellSize(c: Cell): u32 {
    Sub32(c.b, c.a)
  }

  datatype FilledCells = FilledCells(cells: seq<Cell>, rtxoct: u32, lost: u32)

  /** A split in the last cell has no cell below it: that write is dropped. */
  function SplitCells(cs: seq<Cell>, i: nat, a: u32, b: u32): seq<Cell>
    requires i < |cs| == GAPS
  {
    var us := UnshiftCells(cs, i);
    var vs := us[i := Cell(b, us[i].b)];
    if i == GAPS - 1 then vs else vs[i + 1 := Cell(vs[i + 1].a, a)]
  }

  /** Fill [a, e) inside the gap of cell i: drop, trim or split the cell. */
  function EditCells(cs: seq<Cell>, i: nat, a: u32, e: u32): seq<Cell>
    requires i < |cs| == GAPS
  {
    if a == cs[i].a && e == cs[i].b then ShiftCells(cs, i)
    else if e == cs[i].b then cs[i := Cell(cs[i].a, a)]
    else if a == cs[i].a then cs[i := Cell(e, cs[i].b)]
    else SplitCells(cs, i, a, e)
  }

  function EditLost(cs: seq<Cell>, i: nat, a: u32, e: u32): u32
    requires i < |cs| == GAPS
  {
    if a == cs[i].a || e == cs[i].b then 0 else CellSize(cs[GAPS - 1])
  }

  function FillCells(cs: seq<Cell>, a: u32, b: u32): FilledCells
    requires |cs| == GAPS
  {
    var i := SeekCells(cs, a);
    if WrapCompare(b, a) <= 0 then FilledCells(cs, 0, 0)
    else if i == GAPS || EmptyCell(cs[i]) then FilledCells(cs, Sub32(b, a), 0)
    else
      var c := cs[i];
      var over := WrapCompare(b, c.b) > 0;
      if over && WrapCompare(a, c.b) > 0 then FilledCells(cs, Sub32(b, a), 0)
      else
        var e := if over then c.b else b;
        FilledCells(EditCells(cs, i, a, e), if over then Sub32(b, c.b) else 0, EditLost(cs, i, a, e))
  }

  // ---- representation ----

  function Lower(g: Gap): Cell {
    Cell(Wrap(g.a), Wrap(g.b))
  }

  /** The cells that hold a stack: its gaps, then empty cells. */
  function Cells(gs: seq<Gap>): (cs: seq<Cell>)
    requires |gs| <= GAPS
    ensures |cs| == GAPS
    ensures forall i :: 0 <= i < GAPS ==> cs[i] == if i < |gs| then Lower(gs[i]) else NoGap
  {
    seq(GAPS, i requires 0 <= i => if i < |gs| then Lower(gs[i]) else NoGap)
  }

  /** Gaps narrow enough for their size and emptiness to be read off 32 bits. */
  ghost predicate Narrow(gs: seq<Gap>) {
    forall i :: 0 <= i < |gs| ==> 0 < gs[i].b - gs[i].a < TWO31
  }

  predicate Near(x: int, y: int) {
    -TWO31 < x - y < TWO31
  }

  /** All live edges and the segment lie within one window. */
  ghost predicate InWindow(gs: seq<Gap>, a: int, b: int) {
    forall i :: 0 <= i < |gs| ==>
      Near(a, gs[i].a) && Near(a, gs[i].b) && Near(b, gs[i].a) && Near(b, gs[i].b)
  }

  /** Serial comparison is the order of sequence numbers, within the window. */
  lemma WrapIsOrder(x: int, y: int)
    requires Near(x, y)
    ensures WrapCompare(Wrap(x), Wrap(y)) == if x == y then 0 else if x < y then -1 else 1
    ensures Wrap(x) == Wrap(y) <==> x == y
    ensures y <= x ==> Sub32(Wrap(x), Wrap(y)) == x - y
  {
    var d := x - y;
    assert Sub32(Wrap(x), Wrap(y)) == Wrap(d) by {
      WrapSub(x, y);
    }
  }

  lemma WrapSub(x: int, y: int)
    ensures Wrap(Wrap(x) - Wrap(y)) == Wrap(x - y)
  {
    var p, q := x / TWO32, y / TWO32;
    assert x == p * TWO32 + Wrap(x) && y == q * TWO32 + Wrap(y);
    assert x - y == (p - q) * TWO32 + (Wrap(x) - Wrap(y));
    WrapShift(Wrap(x) - Wrap(y), p - q);
  }

  lemma WrapShift(x: int, k: int)
    ensures Wrap(x + k * TWO32) == Wrap(x)
  {
    var q := x / TWO32;
    assert x + k * TWO32 == (q + k) * TWO32 + Wrap(x);
  }

  lemma NarrowCell(g: Gap)
    requires 0 < g.b - g.a < TWO31
    ensures !EmptyCell(Lower(g)) && CellSize(Lower(g)) == g.b - g.a
  {
    WrapIsOrder(g.b, g.a);
  }

  // ---- refinement ----

  lemma {:induction false} SeekRefines(gs: seq<Gap>, a: int, cs: seq<Cell>)
    requires Narrow(gs) && (forall i :: 0 <= i < |gs| ==> Near(a, gs[i].a))
    requires |gs| <= |cs| && (forall i :: 0 <= i < |gs| ==> cs[i] == Lower(gs[i]))
    requires |gs| < |cs| ==> cs[|gs|] == NoGap
    ensures SeekCells(cs, Wrap(a)) == Seek(gs, a)
  {
    if gs != [] {
      NarrowCell(gs[0]);
      WrapIsOrder(a, gs[0].a);
      if a < gs[0].a {
        SeekRefines(gs[1..], a, cs[1..]);
      }
    }
  }

  lemma CellsEqual(xs: seq<Cell>, gs: seq<Gap>)
    requires |xs| == GAPS && |gs| <= GAPS
    requires forall j :: 0 <= j < GAPS ==> xs[j] == if j < |gs| then Lower(gs[j]) else NoGap
    ensures xs == Cells(gs)
  {
  }

  lemma ShiftRefines(gs: seq<Gap>, i: nat)
    requires |gs| <= GAPS && i < |gs|
    ensures ShiftCells(Cells(gs), i) == Cells(gs[..i] + gs[i + 1..])
  {
    CellsEqual(ShiftCells(Cells(gs), i), gs[..i] + gs[i + 1..]);
  }

  lemma UpdateRefines(gs: seq<Gap>, i: nat, g: Gap)
    requires |gs| <= GAPS && i < |gs|
    ensures Cells(gs)[i := Lower(g)] == Cells(gs[i := g])
  {
    CellsEqual(Cells(gs)[i := Lower(g)], gs[i := g]);
  }

  lemma SplitRefines(gs: seq<Gap>, i: nat, up: Gap, lo: Gap)
    requires |gs| <= GAPS && i < |gs| && i < GAPS - 1 && up.b == gs[i].b && lo.a == gs[i].a
    ensures SplitCells(Cells(gs), i, Wrap(lo.b), Wrap(up.a))
         == Cells(Truncate(gs[..i] + [up, lo] + gs[i + 1..]))
  {
    var r := gs[..i] + [up, lo] + gs[i + 1..];
    var xs := SplitCells(Cells(gs), i, Wrap(lo.b), Wrap(up.a));
    forall j | 0 <= j < GAPS
      ensures xs[j] == if j < |Truncate(r)| then Lower(Truncate(r)[j]) else NoGap
    {
      if j > i + 1 {
        assert xs[j] == Cells(gs)[j - 1];
        assert j < |r| ==> r[j] == gs[j - 1];
      }
    }
    CellsEqual(xs, Truncate(r));
  }

  lemma LastSplitRefines(gs: seq<Gap>, a: u32, b: int)
    requires |gs| == GAPS
    ensures SplitCells(Cells(gs), GAPS - 1, a, Wrap(b)) == Cells(gs[GAPS - 1 := Gap(b, gs[GAPS - 1].b)])
  {
    UpdateRefines(gs, GAPS - 1, Gap(b, gs[GAPS - 1].b));
    assert UnshiftCells(Cells(gs), GAPS - 1) == Cells(gs);
  }

  /** Comparisons of a segment with one gap. */
  lemma CompareGap(g: Gap, a: int, b: int)
    requires Near(a, g.a) && Near(a, g.b) && Near(b, g.a) && Near(b, g.b) && 0 < g.b - g.a < TWO31
    ensures WrapCompare(Wrap(b), Wrap(g.b)) > 0 <==> b > g.b
    ensures WrapCompare(Wrap(a), Wrap(g.b)) > 0 <==> a > g.b
    ensures b > g.b ==> Sub32(Wrap(b), Wrap(g.b)) == b - g.b
    ensures Wrap(a) == Wrap(g.a) <==> a == g.a
    ensures Wrap(b) == Wrap(g.b) <==> b == g.b
    ensures CellSize(Lower(g)) == g.b - g.a && !EmptyCell(Lower(g))
  {
    WrapIsOrder(b, g.b);
    WrapIsOrder(a, g.b);
    WrapIsOrder(a, g.a);
    NarrowCell(g);
  }

  /** The edit of one hit gap, cell by cell. */
  lemma EditRefines(gs: seq<Gap>, i: nat, a: int, e: int)
    requires |gs| <= GAPS && i < |gs| && gs[i].a <= a <= e <= gs[i].b
    requires gs[i].a < gs[i].b && (e < gs[i].b ==> a < e)
    ensures
      var cs, g := Cells(gs), gs[i];
      var rest := Rest(g, a, e);
      && (a == g.a && e == g.b ==> ShiftCells(cs, i) == Cells(Truncate(gs[..i] + rest + gs[i + 1..])))
      && (a != g.a && e == g.b ==> cs[i := Cell(Wrap(g.a), Wrap(a))] == Cells(Truncate(gs[..i] + rest + gs[i + 1..])))
      && (a == g.a && e != g.b ==> cs[i := Cell(Wrap(e), Wrap(g.b))] == Cells(Truncate(gs[..i] + rest + gs[i + 1..])))
      && (a != g.a && e != g.b && i < GAPS - 1 ==>
            SplitCells(cs, i, Wrap(a), Wrap(e)) == Cells(Truncate(gs[..i] + rest + gs[i + 1..])))
      && (a != g.a && e != g.b ==> |rest| == 2)
      && (a == g.a || e == g.b ==> |rest| <= 1)
  {
    var g := gs[i];
    if a == g.a && e == g.b {
      ShiftRefines(gs, i);
      assert gs[..i] + Rest(g, a, e) + gs[i + 1..] == gs[..i] + gs[i + 1..];
    } else if e == g.b {
      UpdateRefines(gs, i, Gap(g.a, a));
      assert gs[..i] + Rest(g, a, e) + gs[i + 1..] == gs[i := Gap(g.a, a)];
    } else if a == g.a {
      UpdateRefines(gs, i, Gap(e, g.b));
      assert gs[..i] + Rest(g, a, e) + gs[i + 1..] == gs[i := Gap(e, g.b)];
    } else if i < GAPS - 1 {
      SplitRefines(gs, i, Gap(e, g.b), Gap(g.a, a));
      assert Rest(g, a, e) == [Gap(e, g.b), Gap(g.a, a)];
    }
  }

  /** The segment touches gap i, the only one it can touch. */
  lemma HitRefines(gs: seq<Gap>, i: nat, a: int, b: int)
    requires |gs| <= GAPS && i < |gs| && (forall j :: 0 <= j < |gs| ==> 0 < gs[j].b - gs[j].a < TWO31)
    requires Near(a, gs[i].a) && Near(a, gs[i].b) && Near(b, gs[i].a) && Near(b, gs[i].b)
    requires gs[i].a <= a <= gs[i].b && 0 < b - a < TWO31
    requires i == Seek(gs, a) == SeekCells(Cells(gs), Wrap(a))
    ensures FillCells(Cells(gs), Wrap(a), Wrap(b)).cells == Cells(Truncate(Fill(gs, a, b).gaps))
    ensures FillCells(Cells(gs), Wrap(a), Wrap(b)).rtxoct == Fill(gs, a, b).rtxoct
    ensures FillCells(Cells(gs), Wrap(a), Wrap(b)).lost == Fill(gs, a, b).lost
  {
    hide Cells, Truncate, Rest, ShiftCells, SplitCells, Wrap, WrapCompare, Sub32, CellSize, EmptyCell, Seek, SeekCells;
    var g := gs[i];
    var e := if b > g.b then g.b else b;
    WrapIsOrder(b, a);
    CompareGap(g, a, b);
    CompareGap(g, a, e);
    EditRefines(gs, i, a, e);
    TruncateTwice(gs[..i] + Rest(g, a, e) + gs[i + 1..]);
    LastCellSize(gs);
    if i == GAPS - 1 {
      LastSplitRefines(gs, Wrap(a), e);
      TruncateTwice(gs[i := Gap(b, g.b)]);
    }
  }

  lemma TruncateTwice(gs: seq<Gap>)
    ensures Truncate(Truncate(gs)) == Truncate(gs) && |Truncate(gs)| <= GAPS
    ensures |gs| <= GAPS ==> Truncate(gs) == gs
  {
  }

  lemma LastCellSize(gs: seq<Gap>)
    requires |gs| <= GAPS && (forall j :: 0 <= j < |gs| ==> 0 < gs[j].b - gs[j].a < TWO31)
    ensures CellSize(Cells(gs)[GAPS - 1]) == Evicted(gs)
  {
    if |gs| == GAPS {
      NarrowCell(gs[GAPS - 1]);
    }
  }

  lemma MissRefines(gs: seq<Gap>, a: int, b: int)
    requires |gs| <= GAPS && Narrow(gs) && InWindow(gs, a, b) && 0 < b - a < TWO31
    requires Seek(gs, a) == SeekCells(Cells(gs), Wrap(a))
    requires Seek(gs, a) == |gs| || a > gs[Seek(gs, a)].b
    ensures FillCells(Cells(gs), Wrap(a), Wrap(b)) == FilledCells(Cells(gs), b - a, 0)
    ensures Fill(gs, a, b) == Filled(gs, b - a, 0)
  {
    var i := Seek(gs, a);
    WrapIsOrder(b, a);
    if i < |gs| {
      CompareGap(gs[i], a, b);
    }
  }

  /** Within the window, the code's fill of the cells is the fill of the gaps. */
  lemma FillRefines(gs: seq<Gap>, n: int, a: int, b: int)
    requires Stack(gs, n) && Narrow(gs) && InWindow(gs, a, b) && 0 < b - a < TWO31
    ensures
      var f := Fill(gs, a, b);
      && |f.gaps| <= GAPS
      && FillCells(Cells(gs), Wrap(a), Wrap(b)).cells == Cells(f.gaps)
      && FillCells(Cells(gs), Wrap(a), Wrap(b)).rtxoct == f.rtxoct
      && FillCells(Cells(gs), Wrap(a), Wrap(b)).lost == f.lost
  {
    FillStack(gs, n, a, b);
    SeekRefines(gs, a, Cells(gs));
    hide Fill, FillCells;
    var i := Seek(gs, a);
    if i == |gs| || a > gs[i].b {
      MissRefines(gs, a, b);
    } else {
      HitRefines(gs, i, a, b);
      TruncateTwice(Fill(gs, a, b).gaps);
    }
  }
}
