/**
 * The two helpers the strategies rely on: `sort_immut`, which returns a copy
 * of a cell list sorted by decreasing amount, and the merge step of
 * `update_cellules`, which joins one turn's readings with the static
 * attributes of the cells read at start-up.
 */
module Helpers {
  import opened Options
  import opened Model
  import opened Sorting

  function Amount(c: Cell): int {
    c.amount
  }

  /**
   * What `sort_immut` returns: a stable ascending sort by amount, then
   * reversed.
   */
  function SortedDescending(cells: seq<Cell>): (r: seq<Cell>)
    ensures |r| == |cells|
  {
    Reverse(SortBy(cells, Amount))
  }

  /**
   * `sort_immut` returns a permutation of its input ordered by non-increasing
   * amount; cells of equal amount come out in the reverse of their input order.
   */
  lemma SortedDescendingSpec(cells: seq<Cell>, v: int)
    ensures multiset(SortedDescending(cells)) == multiset(cells)
    ensures forall i, j :: 0 <= i < j < |cells| ==>
              SortedDescending(cells)[i].amount >= SortedDescending(cells)[j].amount
    ensures WithKey(SortedDescending(cells), Amount, v) == Reverse(WithKey(cells, Amount, v))
  {
    var s := SortBy(cells, Amount);
    SortByPermutation(cells, Amount);
    ReverseMultiset(s);
    SortBySorted(cells, Amount);
    forall i, j | 0 <= i < j < |cells|
      ensures SortedDescending(cells)[i].amount >= SortedDescending(cells)[j].amount
    {
      ReverseAt(s, i);
      ReverseAt(s, j);
    }
    WithKeyReverse(s, Amount, v);
    SortByStable(cells, Amount, v);
  }

  /** `sort_immut` keeps exactly the cells of its input. */
  lemma SortedDescendingMembers(cells: seq<Cell>)
    ensures forall c :: c in SortedDescending(cells) <==> c in cells
  {
    SortedDescendingSpec(cells, 0);
    forall c ensures c in SortedDescending(cells) <==> c in cells {
      assert c in SortedDescending(cells) <==> c in multiset(SortedDescending(cells));
      assert c in cells <==> c in multiset(cells);
    }
  }

  /** `sort_immut` orders by non-increasing amount. */
  lemma SortedDescendingOrdered(cells: seq<Cell>)
    ensures forall i, j :: 0 <= i < j < |cells| ==>
              SortedDescending(cells)[i].amount >= SortedDescending(cells)[j].amount
  {
    SortedDescendingSpec(cells, 0);
  }

  /** The first cell of a non-empty `sort_immut` result holds the largest amount. */
  lemma SortedDescendingFirstIsMax(cells: seq<Cell>)
    requires cells != []
    ensures SortedDescending(cells)[0] in cells
    ensures forall c :: c in cells ==> c.amount <= SortedDescending(cells)[0].amount
  {
    var r := SortedDescending(cells);
    SortedDescendingSpec(cells, 0);
    assert r[0] in multiset(r);
    forall c | c in cells ensures c.amount <= r[0].amount {
      assert c in multiset(r);
      var k :| 0 <= k < |r| && r[k] == c;
    }
  }

  /** `sort_immut`: clone the list, sort the clone in place by amount, reverse it in place. */
  method SortImmut(cells: seq<Cell>) returns (r: seq<Cell>)
    ensures r == SortedDescending(cells)
  {
    var cloned := new Cell[|cells|](k requires 0 <= k < |cells| => cells[k]);
    assert cloned[..] == cells;
    SortInPlace(cloned, Amount);
    ReverseInPlace(cloned);
    r := cloned[..];
  }

  // ---------------------------------------------------------------------------
  // The merge step of update_cellules

  /** One cell's line of turn input: its resources, my ants, the opponent's ants. */
  datatype Reading = Reading(resources: int, myAnts: int, oppAnts: int)

  /** The static attributes of `initial` with the live counts of `r`. */
  function MergeCell(initial: Cell, r: Reading): Cell {
    Cell(initial.kind, initial.id, r.resources, Some(r.myAnts), Some(r.oppAnts), initial.neighbors)
  }

  /**
   * The cells of one turn: for each index `k`, the start-up cell whose id is
   * `k`, with the `k`-th reading.
   */
  function UpdateCells(initial: seq<Cell>, readings: seq<Reading>): (r: seq<Cell>)
    requires |readings| == |initial|
    requires forall k :: 0 <= k < |initial| ==> k in Ids(initial)
    ensures |r| == |initial| && Dense(r)
    ensures forall k :: 0 <= k < |r| ==>
              && r[k].amount == readings[k].resources
              && r[k].myAnts == Some(readings[k].myAnts)
              && r[k].oppAnts == Some(readings[k].oppAnts)
              && exists c :: c in initial && c.id == k && c.kind == r[k].kind && c.neighbors == r[k].neighbors
  {
    seq(|initial|, k requires 0 <= k < |initial| => MergeCell(Lookup(initial, k), readings[k]))
  }

  /** Cell by cell merge of two lists of the same length. */
  function Zip(xs: seq<Cell>, rs: seq<Reading>): (r: seq<Cell>)
    requires |xs| == |rs|
    ensures |r| == |xs|
  {
    seq(|xs|, k requires 0 <= k < |xs| => MergeCell(xs[k], rs[k]))
  }

  /** When cell `k` has id `k`, the merge pairs reading `k` with cell `k`. */
  lemma UpdateCellsDense(initial: seq<Cell>, readings: seq<Reading>)
    requires |readings| == |initial| && Dense(initial)
    ensures UpdateCells(initial, readings) == Zip(initial, readings)
  {
    forall k | 0 <= k < |initial|
      ensures UpdateCells(initial, readings)[k] == Zip(initial, readings)[k]
    {
      LookupAt(initial, k);
    }
  }

  /** Number of cells of `kind` whose reading shows no resources left. */
  function CountEmptied(xs: seq<Cell>, rs: seq<Reading>, kind: int): nat
    requires |xs| == |rs|
  {
    if xs == [] then 0
    else (if xs[0].kind == kind && rs[0].resources <= 0 then 1 else 0) + CountEmptied(xs[1..], rs[1..], kind)
  }

  function SumMyReadings(rs: seq<Reading>): int {
    if rs == [] then 0 else rs[0].myAnts + SumMyReadings(rs[1..])
  }

  function SumOppReadings(rs: seq<Reading>): int {
    if rs == [] then 0 else rs[0].oppAnts + SumOppReadings(rs[1..])
  }

  lemma {:induction false} ZipTail(xs: seq<Cell>, rs: seq<Reading>)
    requires |xs| == |rs| && xs != []
    ensures Zip(xs, rs)[0] == MergeCell(xs[0], rs[0])
    ensures Zip(xs, rs)[1..] == Zip(xs[1..], rs[1..])
  {
  }

  /** Cells of `kind` at start-up = those still holding resources + those emptied. */
  lemma {:induction false} KindCountSplits(xs: seq<Cell>, rs: seq<Reading>, kind: int)
    requires |xs| == |rs|
    ensures |OfKind(xs, kind)| == |PositiveOfKind(Zip(xs, rs), kind)| + CountEmptied(xs, rs, kind)
  {
    if xs != [] {
      ZipTail(xs, rs);
      KindCountSplits(xs[1..], rs[1..], kind);
    }
  }

  lemma {:induction false} SumMyAntsZip(xs: seq<Cell>, rs: seq<Reading>)
    requires |xs| == |rs|
    ensures SumMyAnts(Zip(xs, rs)) == SumMyReadings(rs)
  {
    if xs != [] {
      ZipTail(xs, rs);
      SumMyAntsZip(xs[1..], rs[1..]);
    }
  }

  lemma {:induction false} SumOppAntsZip(xs: seq<Cell>, rs: seq<Reading>)
    requires |xs| == |rs|
    ensures SumOppAnts(Zip(xs, rs)) == SumOppReadings(rs)
  {
    if xs != [] {
      ZipTail(xs, rs);
      SumOppAntsZip(xs[1..], rs[1..]);
    }
  }

  /** The snapshot built for turn `turn` from the start-up cells and that turn's readings. */
  function TurnData(initial: seq<Cell>, readings: seq<Reading>, myBase: int, oppBase: int, turn: int): AllData
    requires |readings| == |initial|
    requires forall k :: 0 <= k < |initial| ==> k in Ids(initial)
  {
    AllData(initial, UpdateCells(initial, readings), myBase, oppBase, turn)
  }

  /**
   * On a turn's snapshot, the destroyed-nest counter is the number of egg
   * cells whose reading shows them emptied, so it is never negative, and the
   * current nest count never exceeds the start-up count; the crystal
   * counters likewise.
   */
  lemma DestroyedCountsAfterUpdate(initial: seq<Cell>, readings: seq<Reading>, myBase: int, oppBase: int, turn: int)
    requires |readings| == |initial| && Dense(initial)
    ensures DestroyedNestCount(TurnData(initial, readings, myBase, oppBase, turn)) ==
            CountEmptied(initial, readings, EGGS) >= 0
    ensures DestroyedCrystalCount(TurnData(initial, readings, myBase, oppBase, turn)) ==
            CountEmptied(initial, readings, CRYSTALS) >= 0
    ensures var data := TurnData(initial, readings, myBase, oppBase, turn);
            && 0 <= CurrentNestCount(data) <= InitialNestCount(data)
            && 0 <= CurrentCrystalCount(data) <= InitialCrystalCount(data)
  {
    UpdateCellsDense(initial, readings);
    KindCountSplits(initial, readings, EGGS);
    KindCountSplits(initial, readings, CRYSTALS);
  }

  /** On a turn's snapshot, each side's ant total is the sum of that side's ant readings. */
  lemma InsectTotalsAfterUpdate(initial: seq<Cell>, readings: seq<Reading>, myBase: int, oppBase: int, turn: int)
    requires |readings| == |initial| && Dense(initial)
    ensures MyTotalInsects(TurnData(initial, readings, myBase, oppBase, turn)) == SumMyReadings(readings)
    ensures EnemyTotalInsects(TurnData(initial, readings, myBase, oppBase, turn)) == SumOppReadings(readings)
  {
    UpdateCellsDense(initial, readings);
    SumMyAntsZip(initial, readings);
    SumOppAntsZip(initial, readings);
  }

  /** A turn's snapshot has the same ids as the start-up cells, and they stay unique. */
  lemma UpdateKeepsIds(initial: seq<Cell>, readings: seq<Reading>)
    requires |readings| == |initial| && Dense(initial)
    ensures var cells := UpdateCells(initial, readings);
            Ids(cells) == Ids(initial) && UniqueIds(cells)
  {
    var cells := UpdateCells(initial, readings);
    forall v | v in Ids(initial) ensures v in Ids(cells) {
      var c :| c in initial && c.id == v;
      var k :| 0 <= k < |initial| && initial[k] == c;
      assert cells[k] in cells;
    }
    forall v | v in Ids(cells) ensures v in Ids(initial) {
      var c :| c in cells && c.id == v;
      var k :| 0 <= k < |cells| && cells[k] == c;
      assert initial[k] in initial;
    }
  }

  /** A turn's snapshot keeps every neighbour slot valid. */
  lemma UpdateKeepsNeighbors(initial: seq<Cell>, readings: seq<Reading>)
    requires |readings| == |initial| && Dense(initial) && WellFormed(initial)
    ensures WellFormed(UpdateCells(initial, readings))
  {
    var cells := UpdateCells(initial, readings);
    UpdateKeepsIds(initial, readings);
    UpdateCellsDense(initial, readings);
    forall c, v | c in cells && v in c.neighbors ensures v == -1 || v in Ids(cells) {
      var k :| 0 <= k < |cells| && cells[k] == c;
      assert initial[k] in initial && initial[k].neighbors == c.neighbors;
    }
  }

  /** A turn's snapshot keeps the graph: ids stay dense and unique, neighbour slots stay valid. */
  lemma UpdateKeepsGraph(initial: seq<Cell>, readings: seq<Reading>)
    requires |readings| == |initial| && Dense(initial) && WellFormed(initial)
    ensures var cells := UpdateCells(initial, readings);
            Ids(cells) == Ids(initial) && UniqueIds(cells) && WellFormed(cells)
  {
    UpdateKeepsIds(initial, readings);
    UpdateKeepsNeighbors(initial, readings);
  }
}
