/**
 * The brute-force nearest-resource search (`BrutalPathFinder`).
 *
 * It is a depth-first recursion, not a breadth-first search. Each call holds
 * the list of ids its own branch has already seen. It first tests the current
 * cell's neighbours that branch has not seen, in slot order, and returns the
 * first one of the requested kind that still holds resources, at distance
 * `iteration + 1`. Failing that, it recurses into every unseen neighbour,
 * adding all of them to the seen list. It keeps the results that found
 * something, sorts them stably by distance and takes the first whose cell still
 * holds resources; with no such result it answers (-1, -1). The origin itself is
 * never a candidate at the first level, and a direct neighbour scores distance 2.
 */
module PathFinder {
  import opened Options
  import opened Model
  import opened Sorting

  /** A search answer: a cell id and its distance; (-1, -1) means nothing was found. */
  datatype Found = Found(id: int, dist: int)

  const NotFound: Found := Found(-1, -1)

  function Dist(f: Found): int {
    f.dist
  }

  /** Some cell with id `id` is of `kind` and still holds resources. */
  predicate IsMatch(cells: seq<Cell>, id: int, kind: int) {
    exists c :: c in cells && c.id == id && c.kind == kind && c.amount > 0
  }

  /** The first-level test as a predicate on ids. */
  function MatchOf(cells: seq<Cell>, kind: int): int -> bool {
    v => IsMatch(cells, v, kind)
  }

  /** A neighbour slot value that the first level returns: an edge, unseen, and a match. */
  function HitOf(cells: seq<Cell>, seen: seq<int>, kind: int): int -> bool {
    v => v != -1 && v !in seen && IsMatch(cells, v, kind)
  }

  /** The filter applied after sorting: the first cell with the result's id still holds resources. */
  function StillPositive(cells: seq<Cell>): Found -> bool {
    (f: Found) => AmountOf(cells, f.id) > 0
  }

  /** The ids of the cell graph not in `seen`: what is left for a branch to visit. */
  function Unvisited(cells: seq<Cell>, seen: seq<int>): set<int> {
    set v | v in Ids(cells) && v !in seen
  }

  /** The ids a branch has seen, as a set. */
  function SeenSet(seen: seq<int>): set<int> {
    set v | v in seen
  }

  /** The neighbour slots that hold an edge and are not in `seen`, in slot order (`voisin_existants`). */
  function Unseen(neighbors: seq<int>, seen: seq<int>): (r: seq<int>)
    ensures forall v :: v in r <==> v in neighbors && v != -1 && v !in seen
  {
    if neighbors == [] then []
    else
      (if neighbors[0] != -1 && neighbors[0] !in seen then [neighbors[0]] else []) +
      Unseen(neighbors[1..], seen)
  }

  lemma CardinalityMonotone<T>(a: set<T>, b: set<T>)
    requires a <= b
    ensures |a| <= |b|
    decreases b
  {
    if a != {} {
      var x :| x in a;
      CardinalityMonotone(a - {x}, b - {x});
    }
  }

  /**
   * Termination of the search: passing `seen + unseen` to the recursive calls,
   * where `unseen` is non-empty and holds only unseen ids of the graph, strictly
   * grows the seen set and strictly shrinks the finite set left to visit.
   */
  lemma SeenGrows(cells: seq<Cell>, seen: seq<int>, unseen: seq<int>)
    requires unseen != []
    requires forall v :: v in unseen ==> v in Ids(cells) && v !in seen
    ensures SeenSet(seen) < SeenSet(seen + unseen)
    ensures |Unvisited(cells, seen + unseen)| < |Unvisited(cells, seen)|
  {
    var x := unseen[0];
    assert x in seen + unseen && x !in seen;
    assert x in Unvisited(cells, seen);
    assert x in SeenSet(seen + unseen) && x !in SeenSet(seen);
    assert Unvisited(cells, seen + unseen) <= Unvisited(cells, seen) - {x};
    CardinalityMonotone(Unvisited(cells, seen + unseen), Unvisited(cells, seen) - {x});
  }

  /**
   * `nearest_element(origin, cells, seen, kind, iteration)`.
   *
   * A found answer names a cell of `kind` that holds resources, never -1, at a
   * distance between `iteration + 1` and `iteration` plus the number of cells
   * this branch has not seen; any other answer is exactly (-1, -1).
   */
  function NearestElement(cells: seq<Cell>, origin: int, seen: seq<int>, kind: int, iteration: int): (r: Found)
    requires WellFormed(cells) && origin in Ids(cells) && iteration >= 1
    ensures r == NotFound ||
            (r.id != -1 && IsMatch(cells, r.id, kind) &&
             iteration + 1 <= r.dist <= iteration + |Unvisited(cells, seen)|)
    decreases |Unvisited(cells, seen)|, 0
  {
    var current := Lookup(cells, origin);
    var unseen := Unseen(current.neighbors, seen);
    assert forall v :: v in unseen ==> v in Unvisited(cells, seen);
    match FirstWhere(unseen, MatchOf(cells, kind))
    case Some(v) =>
      assert v in unseen;
      Found(v, iteration + 1)
    case None =>
      // With no unseen neighbour there is nothing to recurse into: the
      // result list is empty and the answer is (-1, -1).
      if unseen == [] then NotFound
      else
        SeenGrows(cells, seen, unseen);
        Choose(cells, Explore(cells, unseen, seen + unseen, kind, iteration + 1))
  }

  /** The search from each neighbour of `todo`, in slot order (the `map` over `voisin_existants`). */
  function Answers(cells: seq<Cell>, todo: seq<int>, seen: seq<int>, kind: int, iteration: int): (rs: seq<Found>)
    requires WellFormed(cells) && iteration >= 1
    requires forall v :: v in todo ==> v in Ids(cells)
    ensures |rs| == |todo|
    ensures forall j :: 0 <= j < |rs| ==>
              rs[j] == NotFound ||
              (rs[j].id != -1 && IsMatch(cells, rs[j].id, kind) &&
               iteration + 1 <= rs[j].dist <= iteration + |Unvisited(cells, seen)|)
    decreases |Unvisited(cells, seen)|, 1
  {
    seq(|todo|, j requires 0 <= j < |todo| =>
      assert todo[j] in todo;
      NearestElement(cells, todo[j], seen, kind, iteration))
  }

  /** The answers that found something (`filter(|e| e.1 != -1)`), in their order. */
  function KeepFound(rs: seq<Found>): (r: seq<Found>)
    ensures |r| <= |rs|
    ensures forall i :: 0 <= i < |r| ==> r[i].dist != -1 && r[i] in rs
  {
    if rs == [] then []
    else
      assert forall f :: f in rs[1..] ==> f in rs;
      (if rs[0].dist != -1 then [rs[0]] else []) + KeepFound(rs[1..])
  }

  /** The recursive answers for the neighbours `todo`, in slot order, with those that found nothing dropped. */
  function Explore(cells: seq<Cell>, todo: seq<int>, seen: seq<int>, kind: int, iteration: int): (rs: seq<Found>)
    requires WellFormed(cells) && iteration >= 1
    requires forall v :: v in todo ==> v in Ids(cells)
    ensures |rs| <= |todo|
    ensures forall i :: 0 <= i < |rs| ==>
              rs[i].id != -1 && IsMatch(cells, rs[i].id, kind) &&
              iteration + 1 <= rs[i].dist <= iteration + |Unvisited(cells, seen)|
    decreases |Unvisited(cells, seen)|, 2
  {
    KeepFound(Answers(cells, todo, seen, kind, iteration))
  }

  /** Stable sort by distance, then the first answer whose cell still holds resources, else (-1, -1). */
  function Choose(cells: seq<Cell>, rs: seq<Found>): (r: Found)
    ensures r == NotFound || r in rs
  {
    match FirstWhere(SortBy(rs, Dist), StillPositive(cells))
    case Some(f) =>
      SortByPermutation(rs, Dist);
      assert f in multiset(SortBy(rs, Dist));
      f
    case None => NotFound
  }

  /** `nearest_eggs`: the search for egg cells from `base`, starting at iteration 1. */
  function NearestEggs(base: int, cells: seq<Cell>): (r: Found)
    requires WellFormed(cells) && base in Ids(cells)
    ensures r == NotFound || (r.id != -1 && IsMatch(cells, r.id, EGGS) && 2 <= r.dist <= 1 + |Ids(cells)|)
  {
    assert Unvisited(cells, []) == Ids(cells);
    NearestElement(cells, base, [], EGGS, 1)
  }

  /** `nearest_crystals`: the search for crystal cells from `base`, starting at iteration 1. */
  function NearestCrystals(base: int, cells: seq<Cell>): (r: Found)
    requires WellFormed(cells) && base in Ids(cells)
    ensures r == NotFound || (r.id != -1 && IsMatch(cells, r.id, CRYSTALS) && 2 <= r.dist <= 1 + |Ids(cells)|)
  {
    assert Unvisited(cells, []) == Ids(cells);
    NearestElement(cells, base, [], CRYSTALS, 1)
  }

  // ---------------------------------------------------------------------------
  // Which answer the search selects

  lemma {:induction false} FirstHitInSlotOrder(cells: seq<Cell>, neighbors: seq<int>, seen: seq<int>, kind: int)
    ensures FirstWhere(Unseen(neighbors, seen), MatchOf(cells, kind)) == FirstWhere(neighbors, HitOf(cells, seen, kind))
  {
    if neighbors != [] {
      var head := if neighbors[0] != -1 && neighbors[0] !in seen then [neighbors[0]] else [];
      FirstWhereAppend(head, Unseen(neighbors[1..], seen), MatchOf(cells, kind));
      FirstHitInSlotOrder(cells, neighbors[1..], seen, kind);
      if head != [] {
        assert head[1..] == [];
      }
    }
  }

  /**
   * First level: when some neighbour slot holds an unseen matching cell, the
   * answer is the first such slot's cell at distance `iteration + 1`.
   */
  lemma NearestDirectHit(cells: seq<Cell>, origin: int, seen: seq<int>, kind: int, iteration: int, k: int)
    requires WellFormed(cells) && origin in Ids(cells) && iteration >= 1
    requires 0 <= k < |Lookup(cells, origin).neighbors|
    requires HitOf(cells, seen, kind)(Lookup(cells, origin).neighbors[k])
    requires forall j :: 0 <= j < k ==> !HitOf(cells, seen, kind)(Lookup(cells, origin).neighbors[j])
    ensures NearestElement(cells, origin, seen, kind, iteration) ==
            Found(Lookup(cells, origin).neighbors[k], iteration + 1)
  {
    var ns := Lookup(cells, origin).neighbors;
    FirstHitInSlotOrder(cells, ns, seen, kind);
    var f := FirstWhere(ns, HitOf(cells, seen, kind));
    var i :| 0 <= i < |ns| && ns[i] == f.value && HitOf(cells, seen, kind)(ns[i]) &&
             forall j :: 0 <= j < i ==> !HitOf(cells, seen, kind)(ns[j]);
    assert i == k;
  }

  /**
   * The selection after recursion: no answer when no result passes the
   * amount filter; otherwise a passing result of least distance, the earliest
   * one among equal distances (the sort is stable).
   */
  lemma ChooseSelects(cells: seq<Cell>, rs: seq<Found>)
    ensures (forall i :: 0 <= i < |rs| ==> !StillPositive(cells)(rs[i])) ==> Choose(cells, rs) == NotFound
    ensures (exists i :: 0 <= i < |rs| && StillPositive(cells)(rs[i])) ==>
              exists i :: IsEarliestMin(rs, Dist, StillPositive(cells), i) && Choose(cells, rs) == rs[i]
  {
    FirstWhereSortBy(rs, Dist, StillPositive(cells));
    BestOfIsEarliestMin(rs, Dist, StillPositive(cells));
  }

  /** Filtering a concatenation filters each part. */
  lemma {:induction false} KeepFoundAppend(a: seq<Found>, b: seq<Found>)
    ensures KeepFound(a + b) == KeepFound(a) + KeepFound(b)
  {
    if a == [] {
      assert a + b == b;
    } else {
      assert (a + b)[0] == a[0] && (a + b)[1..] == a[1..] + b;
      KeepFoundAppend(a[1..], b);
    }
  }

  /** An answer that found something survives the filter. */
  lemma {:induction false} KeepFoundKeeps(rs: seq<Found>, j: int)
    requires 0 <= j < |rs| && rs[j].dist != -1
    ensures rs[j] in KeepFound(rs)
  {
    if j > 0 {
      assert rs[1..][j - 1] == rs[j];
      KeepFoundKeeps(rs[1..], j - 1);
    }
  }

  /** Two answers that found something keep their relative order through the filter. */
  lemma KeepFoundOrder(rs: seq<Found>, j1: int, j2: int)
    requires 0 <= j1 < j2 < |rs| && rs[j1].dist != -1 && rs[j2].dist != -1
    ensures exists i1, i2 :: 0 <= i1 < i2 < |KeepFound(rs)| && KeepFound(rs)[i1] == rs[j1] && KeepFound(rs)[i2] == rs[j2]
  {
    var front, back := rs[..j2], rs[j2..];
    assert front + back == rs;
    KeepFoundAppend(front, back);
    assert front[j1] == rs[j1] && back[0] == rs[j2];
    KeepFoundKeeps(front, j1);
    KeepFoundKeeps(back, 0);
    var a, b := KeepFound(front), KeepFound(back);
    var i1 :| 0 <= i1 < |a| && a[i1] == rs[j1];
    var i2 :| 0 <= i2 < |b| && b[i2] == rs[j2];
    assert (a + b)[i1] == a[i1] && (a + b)[|a| + i2] == b[i2];
  }

  /** Every neighbour whose own search found something has its answer in the list. */
  lemma ExploreKeepsFound(cells: seq<Cell>, todo: seq<int>, seen: seq<int>, kind: int, iteration: int, j: int)
    requires WellFormed(cells) && iteration >= 1
    requires forall v :: v in todo ==> v in Ids(cells)
    requires 0 <= j < |todo|
    ensures todo[j] in Ids(cells)
    ensures var f := NearestElement(cells, todo[j], seen, kind, iteration);
            f != NotFound ==> f in Explore(cells, todo, seen, kind, iteration)
  {
    assert todo[j] in todo;
    var rs := Answers(cells, todo, seen, kind, iteration);
    if rs[j] != NotFound {
      KeepFoundKeeps(rs, j);
    }
  }

  /** Every answer in the list is the found answer of some neighbour's own search. */
  lemma ExploreOnlyFound(cells: seq<Cell>, todo: seq<int>, seen: seq<int>, kind: int, iteration: int, i: int)
    requires WellFormed(cells) && iteration >= 1
    requires forall v :: v in todo ==> v in Ids(cells)
    requires 0 <= i < |Explore(cells, todo, seen, kind, iteration)|
    ensures var rs := Explore(cells, todo, seen, kind, iteration);
            rs[i] != NotFound &&
            exists j :: 0 <= j < |todo| && todo[j] in Ids(cells) &&
              rs[i] == NearestElement(cells, todo[j], seen, kind, iteration)
  {
    var rs := Answers(cells, todo, seen, kind, iteration);
    var j :| 0 <= j < |rs| && rs[j] == KeepFound(rs)[i];
    assert todo[j] in todo;
  }

  /** The list keeps the neighbours' slot order: an earlier neighbour's answer comes first. */
  lemma ExploreInSlotOrder(cells: seq<Cell>, todo: seq<int>, seen: seq<int>, kind: int, iteration: int, j1: int, j2: int)
    requires WellFormed(cells) && iteration >= 1
    requires forall v :: v in todo ==> v in Ids(cells)
    requires 0 <= j1 < j2 < |todo|
    requires todo[j1] in Ids(cells) && todo[j2] in Ids(cells)
    requires NearestElement(cells, todo[j1], seen, kind, iteration) != NotFound
    requires NearestElement(cells, todo[j2], seen, kind, iteration) != NotFound
    ensures var rs := Explore(cells, todo, seen, kind, iteration);
            exists i1, i2 :: 0 <= i1 < i2 < |rs| &&
              rs[i1] == NearestElement(cells, todo[j1], seen, kind, iteration) &&
              rs[i2] == NearestElement(cells, todo[j2], seen, kind, iteration)
  {
    var rs := Answers(cells, todo, seen, kind, iteration);
    assert rs[j1] == NearestElement(cells, todo[j1], seen, kind, iteration) && rs[j1].dist != -1;
    assert rs[j2] == NearestElement(cells, todo[j2], seen, kind, iteration) && rs[j2].dist != -1;
    KeepFoundOrder(rs, j1, j2);
    var kept := KeepFound(rs);
    assert kept == Explore(cells, todo, seen, kind, iteration);
    var i1, i2 :| 0 <= i1 < i2 < |kept| && kept[i1] == rs[j1] && kept[i2] == rs[j2];
  }

  /** With unique ids every recursive answer passes the amount filter. */
  lemma ExploreAllPositive(cells: seq<Cell>, todo: seq<int>, seen: seq<int>, kind: int, iteration: int)
    requires WellFormed(cells) && iteration >= 1 && UniqueIds(cells)
    requires forall v :: v in todo ==> v in Ids(cells)
    ensures var rs := Explore(cells, todo, seen, kind, iteration);
            forall j :: 0 <= j < |rs| ==> StillPositive(cells)(rs[j]) && rs[j].id != -1
  {
    var rs := Explore(cells, todo, seen, kind, iteration);
    forall j | 0 <= j < |rs|
      ensures StillPositive(cells)(rs[j]) && rs[j].id != -1
    {
      var c :| c in cells && c.id == rs[j].id && c.kind == kind && c.amount > 0;
      UniqueLookup(cells, c);
    }
  }

  /** Without a first-level hit the answer is the selection among the recursive answers. */
  lemma NearestWithoutHit(cells: seq<Cell>, origin: int, seen: seq<int>, kind: int, iteration: int)
    requires WellFormed(cells) && origin in Ids(cells) && iteration >= 1
    requires forall v :: v in Lookup(cells, origin).neighbors ==> !HitOf(cells, seen, kind)(v)
    ensures var unseen := Unseen(Lookup(cells, origin).neighbors, seen);
            (forall v :: v in unseen ==> v in Ids(cells)) &&
            NearestElement(cells, origin, seen, kind, iteration) ==
              if unseen == [] then NotFound
              else Choose(cells, Explore(cells, unseen, seen + unseen, kind, iteration + 1))
  {
    FirstHitInSlotOrder(cells, Lookup(cells, origin).neighbors, seen, kind);
  }

  /** `rs[i]` has the least distance in `rs`, and every earlier answer is strictly farther. */
  predicate LeastEarliest(rs: seq<Found>, i: int)
    requires 0 <= i < |rs|
  {
    (forall j :: 0 <= j < |rs| ==> rs[i].dist <= rs[j].dist) &&
    (forall j :: 0 <= j < i ==> rs[i].dist < rs[j].dist)
  }

  /**
   * When every answer passes the amount filter and names a cell, the selection
   * is (-1, -1) exactly for an empty list, and otherwise an answer of least
   * distance, the earliest one among equal distances.
   */
  lemma ChooseLeast(cells: seq<Cell>, rs: seq<Found>)
    requires forall j :: 0 <= j < |rs| ==> StillPositive(cells)(rs[j]) && rs[j].id != -1
    ensures rs == [] <==> Choose(cells, rs) == NotFound
    ensures rs != [] ==>
              exists i :: 0 <= i < |rs| && Choose(cells, rs) == rs[i] && LeastEarliest(rs, i)
  {
    ChooseSelects(cells, rs);
    if rs != [] {
      assert 0 < |rs| && StillPositive(cells)(rs[0]);
      var i :| IsEarliestMin(rs, Dist, StillPositive(cells), i) && Choose(cells, rs) == rs[i];
      forall j | 0 <= j < |rs| ensures rs[i].dist <= rs[j].dist {
        assert StillPositive(cells)(rs[j]);
      }
      forall j | 0 <= j < i ensures rs[i].dist < rs[j].dist {
        assert StillPositive(cells)(rs[j]);
      }
      assert LeastEarliest(rs, i);
    }
  }

  /**
   * Without a first-level hit, and with unique ids: the answer is (-1, -1)
   * exactly when no neighbour's recursion found anything; otherwise it is the
   * recursive answer of least distance, ties going to the earliest neighbour slot.
   */
  lemma NearestFromRecursion(cells: seq<Cell>, origin: int, seen: seq<int>, kind: int, iteration: int)
    requires WellFormed(cells) && origin in Ids(cells) && iteration >= 1 && UniqueIds(cells)
    requires forall v :: v in Lookup(cells, origin).neighbors ==> !HitOf(cells, seen, kind)(v)
    requires Unseen(Lookup(cells, origin).neighbors, seen) != []
    ensures var unseen := Unseen(Lookup(cells, origin).neighbors, seen);
            var r := NearestElement(cells, origin, seen, kind, iteration);
            var rs := Explore(cells, unseen, seen + unseen, kind, iteration + 1);
            && (rs == [] <==> r == NotFound)
            && (rs != [] ==> exists i :: 0 <= i < |rs| && r == rs[i] && LeastEarliest(rs, i))
  {
    var unseen := Unseen(Lookup(cells, origin).neighbors, seen);
    var rs := Explore(cells, unseen, seen + unseen, kind, iteration + 1);
    var r := NearestElement(cells, origin, seen, kind, iteration);
    NearestWithoutHit(cells, origin, seen, kind, iteration);
    assert r == Choose(cells, rs);
    ExploreAllPositive(cells, unseen, seen + unseen, kind, iteration + 1);
    ChooseLeast(cells, rs);
    if rs != [] {
      var i :| 0 <= i < |rs| && Choose(cells, rs) == rs[i] && LeastEarliest(rs, i);
      assert r == rs[i];
    }
  }

  /** A base next to a cell with eggs finds the first such neighbour slot at distance 2. */
  lemma NearestEggsAdjacent(base: int, cells: seq<Cell>, k: int)
    requires WellFormed(cells) && base in Ids(cells)
    requires 0 <= k < |Lookup(cells, base).neighbors|
    requires HitOf(cells, [], EGGS)(Lookup(cells, base).neighbors[k])
    requires forall j :: 0 <= j < k ==> !HitOf(cells, [], EGGS)(Lookup(cells, base).neighbors[j])
    ensures NearestEggs(base, cells) == Found(Lookup(cells, base).neighbors[k], 2)
  {
    NearestDirectHit(cells, base, [], EGGS, 1, k);
  }

  /** A two-cell map: the base 0 holds crystals, its only neighbour 1 is empty. */
  function TwoCellMap(): seq<Cell> {
    [Cell(CRYSTALS, 0, 5, None, None, [1]), Cell(EMPTY, 1, 0, None, None, [0])]
  }

  lemma TwoCellMapFacts()
    ensures Ids(TwoCellMap()) == {0, 1} && WellFormed(TwoCellMap())
    ensures Lookup(TwoCellMap(), 0) == TwoCellMap()[0] && Lookup(TwoCellMap(), 1) == TwoCellMap()[1]
    ensures IsMatch(TwoCellMap(), 0, CRYSTALS) && !IsMatch(TwoCellMap(), 1, CRYSTALS)
    ensures AmountOf(TwoCellMap(), 0) == 5
  {
    var cells := TwoCellMap();
    assert cells[0] in cells && cells[1] in cells;
    assert Ids(cells) == {0, 1};
  }

  /** From the neighbour, with the neighbour already seen, the base is a first-level hit. */
  lemma TwoCellMapSecondLevel()
    ensures WellFormed(TwoCellMap()) && 1 in Ids(TwoCellMap())
    ensures NearestElement(TwoCellMap(), 1, [1], CRYSTALS, 2) == Found(0, 3)
  {
    TwoCellMapFacts();
    var cells := TwoCellMap();
    assert Unseen([0], [1]) == [0];
    assert FirstWhere([0], MatchOf(cells, CRYSTALS)) == Some(0);
  }

  /**
   * The base is skipped only at the first level: on the two-cell map the
   * search comes back to the base through its neighbour and answers it at
   * distance 3.
   */
  lemma BaseFoundThroughNeighbour()
    ensures WellFormed(TwoCellMap()) && 0 in Ids(TwoCellMap())
    ensures NearestCrystals(0, TwoCellMap()) == Found(0, 3)
  {
    TwoCellMapFacts();
    TwoCellMapSecondLevel();
    var cells := TwoCellMap();
    assert Unseen([1], []) == [1];
    assert FirstWhere([1], MatchOf(cells, CRYSTALS)) == None;
    assert [] + [1] == [1];
    assert Explore(cells, [1], [1], CRYSTALS, 2) == [Found(0, 3)];
    assert SortBy([Found(0, 3)], Dist) == [Found(0, 3)];
    assert Choose(cells, [Found(0, 3)]) == Found(0, 3);
  }
}
