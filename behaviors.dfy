/**
 * The strategies. Each one turns the turn's `AllData` into a list of actions;
 * `execute_actions` writes that list as one line. The stateless strategies are
 * functions, gathered behind the `Strategy` datatype that stands for the
 * boxed strategy objects; `BasicIA`, which remembers its target between turns,
 * is a class.
 */
module Behaviors {
  import opened Options
  import opened Model
  import opened Sorting
  import opened Helpers
  import opened PathFinder
  import opened Commands

  /** Turn thresholds of the tiered strategies, and the insect threshold of Bronze. */
  const EARLY_TURN: int := 7
  const LATE_TURN: int := 12
  const INSECT_THRESHOLD: int := 30

  // ---------------------------------------------------------------------------
  // Lines towards every cell of a kind, richest first

  /**
   * The cells of `kind` that hold resources, in `sort_immut` order, are
   * exactly those cells, each once, and their amounts never increase.
   */
  lemma RankedSpec(cells: seq<Cell>, kind: int)
    ensures var ranked := SortedDescending(PositiveOfKind(cells, kind));
            && |ranked| == |PositiveOfKind(cells, kind)|
            && (forall k :: 0 <= k < |ranked| ==>
                  ranked[k] in cells && ranked[k].kind == kind && ranked[k].amount > 0)
            && (forall c :: c in cells && c.kind == kind && c.amount > 0 ==> c in ranked)
            && (forall i, j :: 0 <= i < j < |ranked| ==> ranked[i].amount >= ranked[j].amount)
  {
    var p := PositiveOfKind(cells, kind);
    SortedDescendingMembers(p);
    SortedDescendingOrdered(p);
  }

  /**
   * One LINE with `weight` from `base` to every cell of `kind` that holds
   * resources, richest first (the filter, `sort_immut` and `map` chain).
   */
  function ResourceLines(base: int, cells: seq<Cell>, kind: int, weight: int): (r: seq<Action>)
    ensures |r| == |PositiveOfKind(cells, kind)|
    ensures forall k :: 0 <= k < |r| ==>
              r[k].Line? && r[k].src == base && r[k].weight == weight && IsMatch(cells, r[k].tgt, kind)
    ensures forall c :: c in cells && c.kind == kind && c.amount > 0 ==>
              exists k :: 0 <= k < |r| && r[k].tgt == c.id
  {
    var ranked := SortedDescending(PositiveOfKind(cells, kind));
    var r := seq(|ranked|, k requires 0 <= k < |ranked| => Line(base, ranked[k].id, weight));
    RankedSpec(cells, kind);
    assert forall k :: 0 <= k < |r| ==> r[k].tgt == ranked[k].id && ranked[k] in cells;
    assert forall c :: c in ranked ==> exists k :: 0 <= k < |ranked| && ranked[k] == c;
    r
  }

  /** With unique ids, the cells the lines reach hold non-increasing amounts. */
  lemma ResourceLinesOrdered(base: int, cells: seq<Cell>, kind: int, weight: int, i: int, j: int)
    requires UniqueIds(cells)
    requires 0 <= i < j < |ResourceLines(base, cells, kind, weight)|
    ensures var r := ResourceLines(base, cells, kind, weight);
            AmountOf(cells, r[i].tgt) >= AmountOf(cells, r[j].tgt)
  {
    var ranked := SortedDescending(PositiveOfKind(cells, kind));
    RankedSpec(cells, kind);
    UniqueLookup(cells, ranked[i]);
    UniqueLookup(cells, ranked[j]);
  }

  /** A search answer as an action: LINE to the found cell, or WAIT for (-1, -1). */
  function LineOrWait(base: int, f: Found, weight: int): (a: Action)
    ensures a == Wait <==> f.id == -1
    ensures f.id != -1 ==> a.Line? && a.src == base && a.tgt == f.id && a.weight == weight
  {
    if f.id != -1 then Line(base, f.id, weight) else Wait
  }

  // ---------------------------------------------------------------------------
  // The stateless strategies

  /** `BasicIAAttrapeToutCrystaux`: a LINE of strength 20 to every crystal cell that holds crystals. */
  function AttrapeToutActions(data: AllData): (r: seq<Action>)
    ensures |r| == |PositiveOfKind(data.cells, CRYSTALS)|
    ensures r == [] <==> forall c :: c in data.cells ==> c.kind != CRYSTALS || c.amount <= 0
    ensures forall k :: 0 <= k < |r| ==>
              r[k].Line? && r[k].src == data.myBase && r[k].weight == 20 &&
              IsMatch(data.cells, r[k].tgt, CRYSTALS)
    ensures forall c :: c in data.cells && c.kind == CRYSTALS && c.amount > 0 ==>
              exists k :: 0 <= k < |r| && r[k].tgt == c.id
  {
    var p := PositiveOfKind(data.cells, CRYSTALS);
    assert p != [] ==> p[0] in p;
    ResourceLines(data.myBase, data.cells, CRYSTALS, 20)
  }

  /**
   * With unique ids, the crystal cells `AttrapeToutCrystaux` targets come in
   * `sort_immut` order: their amounts never increase along the list.
   */
  lemma AttrapeToutOrdered(data: AllData, i: int, j: int)
    requires UniqueIds(data.cells)
    requires 0 <= i < j < |AttrapeToutActions(data)|
    ensures var r := AttrapeToutActions(data);
            AmountOf(data.cells, r[i].tgt) >= AmountOf(data.cells, r[j].tgt)
  {
    ResourceLinesOrdered(data.myBase, data.cells, CRYSTALS, 20, i, j);
  }

  /**
   * `BasicIARechercheNidProche`: a single action, a LINE of strength 10 to the
   * egg cell the search finds, or WAIT when it finds none.
   */
  function RechercheNidProcheActions(data: AllData): (r: seq<Action>)
    requires WellFormed(data.cells) && data.myBase in Ids(data.cells)
    ensures |r| == 1
    ensures NearestEggs(data.myBase, data.cells) == NotFound ==> r[0] == Wait
    ensures NearestEggs(data.myBase, data.cells).id >= 0 ==>
              r[0] == Line(data.myBase, NearestEggs(data.myBase, data.cells).id, 10)
    ensures r[0].Line? ==>
              r[0] == Line(data.myBase, NearestEggs(data.myBase, data.cells).id, 10) &&
              IsMatch(data.cells, r[0].tgt, EGGS)
    ensures (forall c :: c in data.cells ==> c.id >= 0) ==>
              (r[0] == Wait <==> NearestEggs(data.myBase, data.cells) == NotFound)
  {
    var f := NearestEggs(data.myBase, data.cells);
    [if f.id > -1 then Line(data.myBase, f.id, 10) else Wait]
  }

  /**
   * `BasicIAWithEggsFirst`: before turn 7, one LINE of strength 1 to the egg
   * cell first in `sort_immut` order, one with the most eggs; from turn 7 on,
   * a LINE of strength 2 to every crystal cell that holds crystals.
   */
  function WithEggsFirstActions(data: AllData): (r: seq<Action>)
    requires data.turn < EARLY_TURN ==> PositiveOfKind(data.cells, EGGS) != []
    ensures data.turn < EARLY_TURN ==>
              |r| == 1 && r[0].Line? && r[0].src == data.myBase && r[0].weight == 1 &&
              exists c :: c in data.cells && c.id == r[0].tgt && c.kind == EGGS && c.amount > 0 &&
                forall d :: d in data.cells && d.kind == EGGS && d.amount > 0 ==> d.amount <= c.amount
    ensures data.turn >= EARLY_TURN ==>
              |r| == |PositiveOfKind(data.cells, CRYSTALS)| &&
              (forall k :: 0 <= k < |r| ==>
                 r[k].Line? && r[k].src == data.myBase && r[k].weight == 2 &&
                 IsMatch(data.cells, r[k].tgt, CRYSTALS)) &&
              (forall c :: c in data.cells && c.kind == CRYSTALS && c.amount > 0 ==>
                 exists k :: 0 <= k < |r| && r[k].tgt == c.id)
  {
    if data.turn < EARLY_TURN then
      var eggs := PositiveOfKind(data.cells, EGGS);
      var best := SortedDescending(eggs)[0];
      SortedDescendingFirstIsMax(eggs);
      [Line(data.myBase, best.id, 1)]
    else
      ResourceLines(data.myBase, data.cells, CRYSTALS, 2)
  }

  /**
   * `BasicIAWithPathFinder`: before turn 7, the nearest egg cell with strength
   * 10; before turn 12, the nearest egg cell with strength 4 and the nearest
   * crystal cell with strength 10; later, the nearest crystal cell with
   * strength 10 followed by a LINE of strength 2 to every crystal cell that
   * holds crystals. A search that finds nothing gives WAIT in its place.
   */
  function WithPathFinderActions(data: AllData): (r: seq<Action>)
    requires WellFormed(data.cells) && data.myBase in Ids(data.cells)
    ensures |r| == if data.turn < EARLY_TURN then 1
                   else if data.turn < LATE_TURN then 2
                   else 1 + |PositiveOfKind(data.cells, CRYSTALS)|
    ensures forall k :: 0 <= k < |r| && r[k].Line? ==>
              r[k].src == data.myBase &&
              (IsMatch(data.cells, r[k].tgt, EGGS) || IsMatch(data.cells, r[k].tgt, CRYSTALS))
    ensures var eggs := NearestEggs(data.myBase, data.cells);
            data.turn < LATE_TURN ==>
              (r[0] == Wait <==> eggs == NotFound) &&
              (eggs != NotFound ==>
                 r[0] == Line(data.myBase, eggs.id, if data.turn < EARLY_TURN then 10 else 4))
    ensures var crystals := NearestCrystals(data.myBase, data.cells);
            var k := if data.turn < LATE_TURN then 1 else 0;
            data.turn >= EARLY_TURN ==>
              (r[k] == Wait <==> crystals == NotFound) &&
              (crystals != NotFound ==> r[k] == Line(data.myBase, crystals.id, 10))
    ensures data.turn >= LATE_TURN ==> r[1..] == ResourceLines(data.myBase, data.cells, CRYSTALS, 2)
  {
    var eggs := NearestEggs(data.myBase, data.cells);
    var crystals := NearestCrystals(data.myBase, data.cells);
    if data.turn < EARLY_TURN then
      [LineOrWait(data.myBase, eggs, 10)]
    else if data.turn < LATE_TURN then
      [LineOrWait(data.myBase, eggs, 4), LineOrWait(data.myBase, crystals, 10)]
    else
      [LineOrWait(data.myBase, crystals, 10)] + ResourceLines(data.myBase, data.cells, CRYSTALS, 2)
  }

  /** Bronze goes for the nearest nest while no nest is destroyed and it has fewer than 30 ants. */
  predicate NestPhase(data: AllData) {
    DestroyedNestCount(data) < 1 && MyTotalInsects(data) < INSECT_THRESHOLD
  }

  /**
   * `BasicIABronze`, the strategy the bot runs: `RechercheNidProche` during the
   * nest phase, `AttrapeToutCrystaux` afterwards.
   */
  function BronzeActions(data: AllData): (r: seq<Action>)
    requires NestPhase(data) ==> WellFormed(data.cells) && data.myBase in Ids(data.cells)
    ensures NestPhase(data) ==>
              |r| == 1 &&
              (NearestEggs(data.myBase, data.cells) == NotFound ==> r == [Wait]) &&
              (NearestEggs(data.myBase, data.cells).id >= 0 ==>
                 r == [Line(data.myBase, NearestEggs(data.myBase, data.cells).id, 10)]) &&
              (r[0].Line? ==>
                 r[0] == Line(data.myBase, NearestEggs(data.myBase, data.cells).id, 10) &&
                 IsMatch(data.cells, r[0].tgt, EGGS))
    ensures NestPhase(data) && (forall c :: c in data.cells ==> c.id >= 0) ==>
              (r == [Wait] <==> NearestEggs(data.myBase, data.cells) == NotFound)
    ensures !NestPhase(data) ==>
              |r| == |PositiveOfKind(data.cells, CRYSTALS)| &&
              (forall k :: 0 <= k < |r| ==>
                 r[k].Line? && r[k].src == data.myBase && r[k].weight == 20 &&
                 IsMatch(data.cells, r[k].tgt, CRYSTALS)) &&
              (forall c :: c in data.cells && c.kind == CRYSTALS && c.amount > 0 ==>
                 exists k :: 0 <= k < |r| && r[k].tgt == c.id)
  {
    if NestPhase(data) then RechercheNidProcheActions(data) else AttrapeToutActions(data)
  }

  /**
   * On the snapshot of a turn, Bronze is in its nest phase exactly when no egg
   * cell's reading shows it emptied and my ant readings sum to less than 30.
   */
  lemma BronzeOnTurn(initial: seq<Cell>, readings: seq<Reading>, myBase: int, oppBase: int, turn: int)
    requires |readings| == |initial| && Dense(initial)
    ensures var data := TurnData(initial, readings, myBase, oppBase, turn);
            NestPhase(data) <==>
              CountEmptied(initial, readings, EGGS) == 0 && SumMyReadings(readings) < INSECT_THRESHOLD
  {
    DestroyedCountsAfterUpdate(initial, readings, myBase, oppBase, turn);
    InsectTotalsAfterUpdate(initial, readings, myBase, oppBase, turn);
  }

  // ---------------------------------------------------------------------------
  // Dispatch over the boxed strategy objects

  datatype Strategy =
    | AttrapeToutCrystaux
    | RechercheNidProche
    | WithEggsFirst
    | WithPathFinder
    | Bronze

  /** What each strategy's `unwrap`s need of the snapshot. */
  predicate CanBuild(s: Strategy, data: AllData) {
    match s
    case AttrapeToutCrystaux => true
    case RechercheNidProche => WellFormed(data.cells) && data.myBase in Ids(data.cells)
    case WithEggsFirst => data.turn < EARLY_TURN ==> PositiveOfKind(data.cells, EGGS) != []
    case WithPathFinder => WellFormed(data.cells) && data.myBase in Ids(data.cells)
    case Bronze => NestPhase(data) ==> WellFormed(data.cells) && data.myBase in Ids(data.cells)
  }

  /**
   * `build_actions` of a strategy. Whatever the strategy, every LINE starts at
   * my base, has a positive strength and ends at a cell that holds eggs or
   * crystals.
   */
  function BuildActions(s: Strategy, data: AllData): (r: seq<Action>)
    requires CanBuild(s, data)
    ensures forall k :: 0 <= k < |r| && r[k].Line? ==>
              r[k].src == data.myBase && r[k].weight > 0 &&
              (IsMatch(data.cells, r[k].tgt, EGGS) || IsMatch(data.cells, r[k].tgt, CRYSTALS))
  {
    match s
    case AttrapeToutCrystaux => AttrapeToutActions(data)
    case RechercheNidProche => RechercheNidProcheActions(data)
    case WithEggsFirst =>
      var r := WithEggsFirstActions(data);
      assert data.turn < EARLY_TURN ==> IsMatch(data.cells, r[0].tgt, EGGS);
      r
    case WithPathFinder =>
      var r := WithPathFinderActions(data);
      assert forall k :: 0 <= k < |r| && r[k].Line? ==> r[k].weight in {2, 4, 10} by {
        if data.turn >= LATE_TURN {
          assert forall k :: 1 <= k < |r| ==> r[k] == r[1..][k - 1];
        }
      }
      r
    case Bronze => BronzeActions(data)
  }

  /** `execute_actions`: the line written for a strategy's actions. */
  function ExecuteLine(s: Strategy, data: AllData): string
    requires CanBuild(s, data)
  {
    Encode(BuildActions(s, data))
  }

  /**
   * The written line is empty exactly when there are no actions (an empty
   * list gives an empty line, not WAIT), and it reads back as the actions.
   */
  lemma ExecuteLineReadsBack(s: Strategy, data: AllData)
    requires CanBuild(s, data)
    ensures ExecuteLine(s, data) == [] <==> BuildActions(s, data) == []
    ensures Decode(ExecuteLine(s, data)) == Some(BuildActions(s, data))
  {
    EncodeRoundTrip(BuildActions(s, data));
  }

  // ---------------------------------------------------------------------------
  // BasicIA, the strategy that remembers its target

  /** Some cell of the list has id `id`. */
  predicate HasId(cells: seq<Cell>, id: int) {
    exists k :: 0 <= k < |cells| && cells[k].id == id
  }

  /**
   * The target `update_target` keeps: the current one while some listed cell
   * has its id (-1 standing for no target), otherwise the first listed cell's
   * id, or none for an empty list.
   */
  function NextTarget(target: Option<int>, sorted: seq<Cell>): (r: Option<int>)
    ensures r.Some? ==> HasId(sorted, r.value)
    ensures target.Some? && HasId(sorted, target.value) ==> r == target
    ensures r.None? ==> sorted == [] || (target.None? && HasId(sorted, -1))
    ensures r != target ==> !HasId(sorted, target.GetOr(-1)) && (r.Some? ==> r == Some(sorted[0].id))
  {
    if HasId(sorted, target.GetOr(-1)) then target
    else if sorted == [] then None
    else Some(sorted[0].id)
  }

  /** Updating the target twice with the same list is updating it once. */
  lemma NextTargetIdempotent(target: Option<int>, sorted: seq<Cell>)
    ensures NextTarget(NextTarget(target, sorted), sorted) == NextTarget(target, sorted)
  {
    var t := NextTarget(target, sorted);
    if t != target && t.Some? {
      assert sorted[0].id == t.value;
    }
  }

  /**
   * The target BasicIA picks from the cells holding resources, in
   * `sort_immut` order, is one of those cells; a new pick is one with the
   * largest amount.
   */
  lemma BasicTargetChoice(target: Option<int>, cells: seq<Cell>)
    ensures var t := NextTarget(target, SortedDescending(Positive(cells)));
            && (t.Some? ==> exists c :: c in cells && c.amount > 0 && c.id == t.value)
            && (t != target && t.Some? ==>
                  exists c :: c in cells && c.amount > 0 && c.id == t.value &&
                    forall d :: d in cells && d.amount > 0 ==> d.amount <= c.amount)
  {
    var p := Positive(cells);
    var sorted := SortedDescending(p);
    var t := NextTarget(target, sorted);
    SortedDescendingMembers(p);
    if t.Some? {
      var k :| 0 <= k < |sorted| && sorted[k].id == t.value;
      assert sorted[k] in sorted;
    }
    if t != target && t.Some? {
      SortedDescendingFirstIsMax(p);
    }
  }

  /** `iter().find(|c| c.identifiant == id).is_some()`. */
  method ContainsId(cells: seq<Cell>, id: int) returns (found: bool)
    ensures found == HasId(cells, id)
  {
    var k := 0;
    while k < |cells|
      invariant 0 <= k <= |cells|
      invariant forall j :: 0 <= j < k ==> cells[j].id != id
    {
      if cells[k].id == id {
        return true;
      }
      k := k + 1;
    }
    return false;
  }

  class BasicIA {
    var currentTarget: Option<int>

    constructor(target: Option<int>)
      ensures currentTarget == target
    {
      currentTarget := target;
    }

    /** `update_target`: keep the target while it is listed, else take the first listed cell. */
    method UpdateTarget(sorted: seq<Cell>)
      modifies this
      ensures currentTarget == NextTarget(old(currentTarget), sorted)
    {
      var exists_ := ContainsId(sorted, currentTarget.GetOr(-1));
      if !exists_ {
        if sorted == [] {
          currentTarget := None;
        } else {
          currentTarget := Some(sorted[0].id);
        }
      }
    }

    /**
     * `build_actions`: rank the cells that hold resources, update the target,
     * and emit one LINE of strength 1 to it, to cell 1 when there is none.
     */
    method BuildActions(data: AllData) returns (acts: seq<Action>)
      modifies this
      ensures currentTarget == NextTarget(old(currentTarget), SortedDescending(Positive(data.cells)))
      ensures acts == [Line(data.myBase, currentTarget.GetOr(1), 1)]
    {
      var sorted := SortImmut(Positive(data.cells));
      UpdateTarget(sorted);
      acts := [Line(data.myBase, currentTarget.GetOr(1), 1)];
    }

    /** `execute_actions`: the line written for this turn's single LINE. */
    method ExecuteActions(data: AllData) returns (line: string)
      modifies this
      ensures currentTarget == NextTarget(old(currentTarget), SortedDescending(Positive(data.cells)))
      ensures Decode(line) == Some([Line(data.myBase, currentTarget.GetOr(1), 1)])
    {
      var acts := BuildActions(data);
      line := Encode(acts);
      EncodeRoundTrip(acts);
    }
  }
}
