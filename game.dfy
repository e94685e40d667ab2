/**
 * The game loop of `main`: the start-up cells and bases are read once, then
 * every turn the bot merges that turn's readings into a snapshot, numbers the
 * turn from 1, and writes the Bronze strategy's line.
 */
module Game {
  import opened Options
  import opened Model
  import opened Helpers
  import opened Commands
  import opened Behaviors

  /** One turn of the loop: the line Bronze writes for the snapshot built from the turn's readings. */
  function TurnLine(initial: seq<Cell>, readings: seq<Reading>, myBase: int, oppBase: int, turn: int): string
    requires Dense(initial) && WellFormed(initial) && myBase in Ids(initial)
    requires |readings| == |initial|
  {
    UpdateKeepsGraph(initial, readings);
    ExecuteLine(Bronze, TurnData(initial, readings, myBase, oppBase, turn))
  }

  /**
   * A turn's line reads back as Bronze's actions on that turn's snapshot:
   * the search actions while no nest is destroyed and fewer than 30 ants are
   * read, the crystal lines otherwise.
   */
  lemma TurnLineReadsBack(initial: seq<Cell>, readings: seq<Reading>, myBase: int, oppBase: int, turn: int)
    requires Dense(initial) && WellFormed(initial) && myBase in Ids(initial)
    requires |readings| == |initial|
    ensures var data := TurnData(initial, readings, myBase, oppBase, turn);
            WellFormed(data.cells) && myBase in Ids(data.cells) &&
            Decode(TurnLine(initial, readings, myBase, oppBase, turn)) ==
              Some(if CountEmptied(initial, readings, EGGS) == 0 && SumMyReadings(readings) < INSECT_THRESHOLD
                   then RechercheNidProcheActions(data)
                   else AttrapeToutActions(data))
  {
    UpdateKeepsGraph(initial, readings);
    BronzeOnTurn(initial, readings, myBase, oppBase, turn);
    ExecuteLineReadsBack(Bronze, TurnData(initial, readings, myBase, oppBase, turn));
  }

  /**
   * The lines the bot writes for a match whose turns bring the readings
   * `turns`, one line per turn; the `k`-th turn is numbered `k + 1`.
   */
  method PlayMatch(initial: seq<Cell>, myBase: int, oppBase: int, turns: seq<seq<Reading>>)
    returns (lines: seq<string>)
    requires Dense(initial) && WellFormed(initial) && myBase in Ids(initial)
    requires forall k :: 0 <= k < |turns| ==> |turns[k]| == |initial|
    ensures |lines| == |turns|
    ensures forall k :: 0 <= k < |turns| ==> lines[k] == TurnLine(initial, turns[k], myBase, oppBase, k + 1)
  {
    lines := [];
    var turn := 0;
    while turn < |turns|
      invariant 0 <= turn <= |turns| && |lines| == turn
      invariant forall k :: 0 <= k < turn ==> lines[k] == TurnLine(initial, turns[k], myBase, oppBase, k + 1)
    {
      turn := turn + 1;
      var line := TurnLine(initial, turns[turn - 1], myBase, oppBase, turn);
      ghost var before := lines;
      lines := lines + [line];
      forall k | 0 <= k < turn
        ensures lines[k] == TurnLine(initial, turns[k], myBase, oppBase, k + 1)
      {
        if k < turn - 1 {
          assert lines[k] == before[k];
        }
      }
    }
  }
}
