/**
 * The bot's data model: one `Cell` per hexagonal map cell, and `AllData`,
 * the snapshot a strategy sees each turn, with its aggregate counters.
 *
 * A cell's `kind` is 0 (empty), 1 (eggs) or 2 (crystals); `amount` is the
 * number of eggs or crystals still on it; the two ant counts are unknown
 * (`None`) in the cells read at start-up and known after every turn's input;
 * `neighbors` holds one cell id per direction, -1 where there is no edge.
 */
module Model {
  import opened Options

  const EMPTY: int := 0
  const EGGS: int := 1
  const CRYSTALS: int := 2

  datatype Cell = Cell(
    kind: int,
    id: int,
    amount: int,
    myAnts: Option<int>,
    oppAnts: Option<int>,
    neighbors: seq<int>)

  /** The game state one strategy call sees. */
  datatype AllData = AllData(
    initialCells: seq<Cell>,
    cells: seq<Cell>,
    myBase: int,
    oppBase: int,
    turn: int)

  // ---------------------------------------------------------------------------
  // Looking cells up by id

  /** The ids that occur in `cells`. */
  function Ids(cells: seq<Cell>): set<int> {
    set c | c in cells :: c.id
  }

  /** The first cell whose id is `id` (Rust's `iter().find(..).unwrap()`). */
  function Lookup(cells: seq<Cell>, id: int): (c: Cell)
    requires id in Ids(cells)
    ensures c in cells && c.id == id
  {
    if cells[0].id == id then cells[0]
    else
      assert id in Ids(cells[1..]) by {
        var d :| d in cells && d.id == id;
        var k :| 0 <= k < |cells| && cells[k] == d;
        assert cells[1..][k - 1] == d;
      }
      Lookup(cells[1..], id)
  }

  /** Looking up the id of the cell at `k` finds that cell when no earlier cell shares its id. */
  lemma {:induction false} LookupAt(cells: seq<Cell>, k: int)
    requires 0 <= k < |cells|
    requires forall j :: 0 <= j < k ==> cells[j].id != cells[k].id
    ensures cells[k].id in Ids(cells) && Lookup(cells, cells[k].id) == cells[k]
  {
    assert cells[k] in cells;
    if k > 0 {
      assert cells[0].id != cells[k].id;
      assert cells[1..][k - 1] == cells[k];
      LookupAt(cells[1..], k - 1);
    }
  }

  /** The amount on the first cell with id `id`; 0 when there is none. */
  function AmountOf(cells: seq<Cell>, id: int): int {
    if id in Ids(cells) then Lookup(cells, id).amount else 0
  }

  /** No two cells share an id. */
  predicate UniqueIds(cells: seq<Cell>) {
    forall i, j :: 0 <= i < j < |cells| ==> cells[i].id != cells[j].id
  }

  /** Cell `k` has id `k`, as the cells read at start-up do. */
  predicate Dense(cells: seq<Cell>)
    ensures Dense(cells) ==> forall k :: 0 <= k < |cells| ==> k in Ids(cells)
  {
    assert forall k :: 0 <= k < |cells| && cells[k].id == k ==> k in Ids(cells) by {
      forall k | 0 <= k < |cells| && cells[k].id == k ensures k in Ids(cells) {
        assert cells[k] in cells;
      }
    }
    forall k :: 0 <= k < |cells| ==> cells[k].id == k
  }

  /** Every neighbour slot is -1 or the id of a cell, so every search step finds its cell. */
  predicate WellFormed(cells: seq<Cell>) {
    forall c, v :: c in cells && v in c.neighbors ==> v == -1 || v in Ids(cells)
  }

  /** With unique ids, the amount looked up for a cell's id is that cell's amount. */
  lemma UniqueLookup(cells: seq<Cell>, c: Cell)
    requires UniqueIds(cells) && c in cells
    ensures c.id in Ids(cells) && Lookup(cells, c.id) == c && AmountOf(cells, c.id) == c.amount
  {
    var k :| 0 <= k < |cells| && cells[k] == c;
    LookupAt(cells, k);
  }

  // ---------------------------------------------------------------------------
  // Filters

  /** The cells of `kind`, in order. */
  function OfKind(cells: seq<Cell>, kind: int): (r: seq<Cell>)
    ensures forall c :: c in r <==> c in cells && c.kind == kind
  {
    if cells == [] then []
    else (if cells[0].kind == kind then [cells[0]] else []) + OfKind(cells[1..], kind)
  }

  /** The cells of `kind` that still hold resources, in order. */
  function PositiveOfKind(cells: seq<Cell>, kind: int): (r: seq<Cell>)
    ensures forall c :: c in r <==> c in cells && c.kind == kind && c.amount > 0
  {
    if cells == [] then []
    else
      (if cells[0].kind == kind && cells[0].amount > 0 then [cells[0]] else []) +
      PositiveOfKind(cells[1..], kind)
  }

  /** The cells that still hold resources, whatever their kind, in order. */
  function Positive(cells: seq<Cell>): (r: seq<Cell>)
    ensures forall c :: c in r <==> c in cells && c.amount > 0
  {
    if cells == [] then []
    else (if cells[0].amount > 0 then [cells[0]] else []) + Positive(cells[1..])
  }

  /**
   * The filter keeps every occurrence of a cell of `kind` and no other, so its
   * length is the number of such cells (the `count()` of the filter).
   */
  lemma {:induction false} OfKindCount(cells: seq<Cell>, kind: int)
    ensures forall c :: multiset(OfKind(cells, kind))[c] == if c.kind == kind then multiset(cells)[c] else 0
  {
    if cells != [] {
      OfKindCount(cells[1..], kind);
      assert cells == [cells[0]] + cells[1..];
    }
  }

  /** Likewise for the cells of `kind` that still hold resources. */
  lemma {:induction false} PositiveOfKindCount(cells: seq<Cell>, kind: int)
    ensures forall c :: multiset(PositiveOfKind(cells, kind))[c] ==
              if c.kind == kind && c.amount > 0 then multiset(cells)[c] else 0
  {
    if cells != [] {
      PositiveOfKindCount(cells[1..], kind);
      assert cells == [cells[0]] + cells[1..];
    }
  }

  // ---------------------------------------------------------------------------
  // The AllData counters

  /** Sum of the ant counts on my side, an unknown count counting 0. */
  function SumMyAnts(cells: seq<Cell>): int {
    if cells == [] then 0 else cells[0].myAnts.GetOr(0) + SumMyAnts(cells[1..])
  }

  /** Sum of the opponent's ant counts, an unknown count counting 0. */
  function SumOppAnts(cells: seq<Cell>): int {
    if cells == [] then 0 else cells[0].oppAnts.GetOr(0) + SumOppAnts(cells[1..])
  }

  function MyTotalInsects(data: AllData): int {
    SumMyAnts(data.cells)
  }

  function EnemyTotalInsects(data: AllData): int {
    SumOppAnts(data.cells)
  }

  function InitialNestCount(data: AllData): int {
    |OfKind(data.initialCells, EGGS)|
  }

  function CurrentNestCount(data: AllData): int {
    |PositiveOfKind(data.cells, EGGS)|
  }

  function DestroyedNestCount(data: AllData): int {
    InitialNestCount(data) - CurrentNestCount(data)
  }

  function InitialCrystalCount(data: AllData): int {
    |OfKind(data.initialCells, CRYSTALS)|
  }

  function CurrentCrystalCount(data: AllData): int {
    |PositiveOfKind(data.cells, CRYSTALS)|
  }

  function DestroyedCrystalCount(data: AllData): int {
    InitialCrystalCount(data) - CurrentCrystalCount(data)
  }

  /** Before any turn's input every ant count is unknown, and the totals are 0. */
  lemma {:induction false} UnknownAntsSumToZero(cells: seq<Cell>)
    requires forall c :: c in cells ==> c.myAnts.None? && c.oppAnts.None?
    ensures SumMyAnts(cells) == 0 && SumOppAnts(cells) == 0
  {
    if cells != [] {
      assert cells[0] in cells;
      assert forall c :: c in cells[1..] ==> c in cells;
      UnknownAntsSumToZero(cells[1..]);
    }
  }
}
