/** The game state and its transitions: placing the pending letter, drawing the next one, reset. */
module Game {
  import opened Options
  import opened Letters
  import opened Board
  import opened Detector
  import opened Bag

  /** The component's state: board, pending letter, remaining counts, the lost (`gameOver`) and won
      flags, the number of placed tiles, and the sequence that ended the game, if any. */
  datatype State = State(
    grid: Grid,
    current: Option<Letter>,
    remaining: Counts,
    gameOver: bool,
    gameWon: bool,
    placedCount: int,
    highlight: Option<Match>)

  /** The state a game starts from, at mount and after a reset, before its first draw. */
  function ResetGame(): (s: State)
    ensures WellFormed(s.grid) && forall row, col :: InBounds(row, col) ==> s.grid[row][col] == None
    ensures s.remaining == Counts(5, 6, 5)
    ensures !s.gameOver && !s.gameWon && s.placedCount == 0
    ensures s.current == None && s.highlight == None
  {
    State(EmptyGrid(), None, InitialCounts, false, false, 0, None)
  }

  /** The guard of `placeLetter`: the game is over, the cell is taken, or no letter is pending.
      A placement that goes ahead has a letter to place and a board with room for it. */
  predicate Rejected(s: State, row: int, col: int): (r: bool)
    requires WellFormed(s.grid) && InBounds(row, col)
    ensures IsFull(s.grid) ==> r
    ensures !r ==> s.current.Some? && !s.gameOver && !s.gameWon && !IsFull(s.grid)
  {
    s.gameOver || s.gameWon || s.grid[row][col] != None || s.current == None
  }

  /** The source's `placeLetter`. A rejected placement changes nothing. Otherwise exactly cell
      (row, col) receives the pending letter, only that letter's count drops, one more tile is
      placed, nothing is pending; the game is lost exactly when a FOX or XOF now runs through the
      cell (and that match is highlighted), and won exactly when it is not lost and this was the
      sixteenth tile. */
  function PlaceLetter(s: State, row: int, col: int): (s': State)
    requires WellFormed(s.grid) && InBounds(row, col)
    ensures WellFormed(s'.grid)
    ensures s' == s <==> Rejected(s, row, col)
    ensures !Rejected(s, row, col) ==>
      && s'.grid[row][col] == s.current
      && (forall r, c :: InBounds(r, c) && (r != row || c != col) ==> s'.grid[r][c] == s.grid[r][c])
      && Count(s'.remaining, s.current.value) == Count(s.remaining, s.current.value) - 1
      && (forall l :: l != s.current.value ==> Count(s'.remaining, l) == Count(s.remaining, l))
      && s'.placedCount == s.placedCount + 1
      && s'.current == None
      && (s'.gameOver <==> FoxThrough(s'.grid, row, col))
      && (s'.gameWon <==> !s'.gameOver && s.placedCount + 1 == TileTotal)
      && (s'.gameOver ==> s'.highlight == CheckForFox(s'.grid, row, col))
      && (!s'.gameOver ==> s'.highlight == s.highlight)
  {
    if Rejected(s, row, col) then s
    else
      var letter := s.current.value;
      var grid := SetCell(s.grid, row, col, letter);
      var placed := s.(grid := grid, remaining := Decrement(s.remaining, letter),
                       current := None, placedCount := s.placedCount + 1);
      var found := CheckForFox(grid, row, col);
      CheckForFoxFirstHit(grid, row, col);
      if found.Some? then placed.(gameOver := true, highlight := found)
      else if s.placedCount + 1 == TileTotal then placed.(gameWon := true)
      else placed
  }

  /** A lost game highlights the first losing window in scan order: directions as listed, FOX
      before XOF, anchor offset 0 before 1 before 2. */
  lemma LossHighlightsFirstHit(s: State, row: int, col: int)
    requires WellFormed(s.grid) && InBounds(row, col) && !Rejected(s, row, col)
    ensures var s' := PlaceLetter(s, row, col);
            s'.gameOver ==> s'.highlight.Some? && !s'.gameWon
                            && exists c :: FirstHit(s'.grid, row, col, c)
                                           && s'.highlight.value == CandidateMatch(row, col, c)
  {
    CheckForFoxFirstHit(PlaceLetter(s, row, col).grid, row, col);
  }

  /** The index a caller may supply to `PickRandomLetter`; it only matters when a draw happens. */
  predicate DrawIndexOk(s: State, i: int) {
    s.gameOver || s.gameWon || ValidIndex(s.remaining, i)
  }

  /** The source's `pickRandomLetter` with the random index supplied by the caller. A finished game
      is left alone; an empty bag wins the game; otherwise the pending letter becomes one that still
      has tiles left. Board, counts, placed count, lost flag and highlight never change. */
  function PickRandomLetter(s: State, i: int): (s': State)
    requires DrawIndexOk(s, i)
    ensures s'.grid == s.grid && s'.remaining == s.remaining && s'.placedCount == s.placedCount
    ensures s'.gameOver == s.gameOver && s'.highlight == s.highlight
    ensures s.gameOver || s.gameWon ==> s' == s
    ensures !(s.gameOver || s.gameWon) ==>
              (s'.gameWon <==> s.remaining.f <= 0 && s.remaining.o <= 0 && s.remaining.x <= 0)
    ensures s'.gameWon ==> s'.current == s.current
    ensures !s'.gameWon && !s.gameOver ==> s'.current.Some? && Count(s.remaining, s'.current.value) > 0
  {
    if s.gameOver || s.gameWon then s
    else
      var picked := PickLetter(s.remaining, i);
      if picked.None? then s.(gameWon := true) else s.(current := picked)
  }

  // ---------------------------------------------------------------------------------------------
  // The invariant of every reachable state.

  /** The tile bookkeeping: each letter's remaining count plus its tiles on the board is its initial
      count, so the counts plus the placed count make sixteen, and the placed count is the number of
      occupied cells. */
  ghost predicate Tallied(s: State) {
    && WellFormed(s.grid)
    && NonNegative(s.remaining)
    && (forall l :: Count(s.remaining, l) + GridCount(s.grid, Some(l)) == Count(InitialCounts, l))
    && Total(s.remaining) + s.placedCount == TileTotal
    && s.placedCount == Filled(s.grid)
  }

  /** The flags: lost and won never both hold; a highlight is present exactly when the game is lost
      and spells its sequence on the board; a won game has a full board; and a pending letter
      belongs to a running game and still has tiles left. */
  ghost predicate Consistent(s: State)
    requires WellFormed(s.grid)
  {
    && !(s.gameOver && s.gameWon)
    && (s.gameOver <==> s.highlight.Some?)
    && (s.highlight.Some? ==> Spells(s.grid, s.highlight.value))
    && (s.gameWon ==> s.placedCount == TileTotal)
    && (s.current.Some? ==> !s.gameOver && !s.gameWon && Count(s.remaining, s.current.value) > 0)
  }

  /** What holds of every state the game can reach. */
  ghost predicate Inv(s: State) {
    Tallied(s) && Consistent(s)
  }

  /** A fresh game satisfies the invariant. */
  lemma ResetEstablishesInv()
    ensures Inv(ResetGame())
  {
    var s := ResetGame();
    EmptyGridFilled();
    GridCountZero(s.grid, Some(F));
    GridCountZero(s.grid, Some(O));
    GridCountZero(s.grid, Some(X));
  }

  /** Placement keeps the tile bookkeeping: the tile leaves the counts and lands on the board. */
  lemma PlaceKeepsTally(s: State, row: int, col: int)
    requires Inv(s) && InBounds(row, col)
    ensures Tallied(PlaceLetter(s, row, col))
  {
    if !Rejected(s, row, col) {
      var l := s.current.value;
      var s' := PlaceLetter(s, row, col);
      assert s'.grid == SetCell(s.grid, row, col, l);
      SetCellFilled(s.grid, row, col, l);
      forall m
        ensures Count(s'.remaining, m) + GridCount(s'.grid, Some(m)) == Count(InitialCounts, m)
      {
        SetCellCount(s.grid, row, col, l, Some(m));
      }
    }
  }

  /** Placement keeps the flags consistent; a new highlight spells its sequence on the new board. */
  lemma PlaceKeepsConsistent(s: State, row: int, col: int)
    requires Inv(s) && InBounds(row, col)
    ensures Consistent(PlaceLetter(s, row, col))
  {
  }

  /** Placement, accepted or rejected, preserves the invariant. */
  lemma PlacePreservesInv(s: State, row: int, col: int)
    requires Inv(s) && InBounds(row, col)
    ensures Inv(PlaceLetter(s, row, col))
  {
    PlaceKeepsTally(s, row, col);
    PlaceKeepsConsistent(s, row, col);
  }

  /** Winning on an empty bag keeps the invariant: the counts are all zero, so the board is full. */
  lemma DrawEmptyInv(s: State)
    requires Inv(s) && !s.gameOver && !s.gameWon
    requires s.remaining.f <= 0 && s.remaining.o <= 0 && s.remaining.x <= 0
    ensures Inv(s.(gameWon := true))
  {
    assert forall l :: Count(s.remaining, l) <= 0;
  }

  /** Drawing, with any admissible index, preserves the invariant. */
  lemma DrawPreservesInv(s: State, i: int)
    requires Inv(s) && DrawIndexOk(s, i)
    ensures Inv(PickRandomLetter(s, i))
  {
    if !(s.gameOver || s.gameWon) {
      var s' := PickRandomLetter(s, i);
      if s'.gameWon {
        assert s' == s.(gameWon := true);
        DrawEmptyInv(s);
      } else {
        assert s' == s.(current := s'.current);
      }
    }
  }

  // ---------------------------------------------------------------------------------------------
  // Runs of actions from a fresh game.

  /** One player or timer action: place at a cell, draw with a supplied index, or reset. */
  datatype Action = Place(row: int, col: int) | Draw(index: int) | Reset

  /** The precondition of each action: placements name a cell of the board, draws an admissible index. */
  predicate Allowed(s: State, a: Action) {
    match a
    case Place(row, col) => WellFormed(s.grid) && InBounds(row, col)
    case Draw(i) => DrawIndexOk(s, i)
    case Reset => true
  }

  function Step(s: State, a: Action): State
    requires Allowed(s, a)
  {
    match a
    case Place(row, col) => PlaceLetter(s, row, col)
    case Draw(i) => PickRandomLetter(s, i)
    case Reset => ResetGame()
  }

  /** Every action of `actions` is allowed in the state it is applied to. */
  predicate AllowedRun(s: State, actions: seq<Action>)
    decreases |actions|
  {
    actions == [] || (Allowed(s, actions[0]) && AllowedRun(Step(s, actions[0]), actions[1..]))
  }

  /** The state after applying `actions` in order. */
  function Run(s: State, actions: seq<Action>): State
    requires AllowedRun(s, actions)
    decreases |actions|
  {
    if actions == [] then s else Run(Step(s, actions[0]), actions[1..])
  }

  /** Every action preserves the invariant. */
  lemma StepPreservesInv(s: State, a: Action)
    requires Inv(s) && Allowed(s, a)
    ensures Inv(Step(s, a))
  {
    match a
    case Place(row, col) => PlacePreservesInv(s, row, col);
    case Draw(i) => DrawPreservesInv(s, i);
    case Reset => ResetEstablishesInv();
  }

  /** Every run of allowed actions preserves the invariant. */
  lemma {:induction false} RunPreservesInv(s: State, actions: seq<Action>)
    requires Inv(s) && AllowedRun(s, actions)
    ensures Inv(Run(s, actions))
    decreases |actions|
  {
    if actions != [] {
      StepPreservesInv(s, actions[0]);
      RunPreservesInv(Step(s, actions[0]), actions[1..]);
    }
  }

  /** In every state reachable from a fresh game, the remaining counts and the placed count add up
      to sixteen, no count is negative, and the game is never both lost and won. */
  lemma ReachableConservation(actions: seq<Action>)
    requires AllowedRun(ResetGame(), actions)
    ensures var s := Run(ResetGame(), actions);
            && Total(s.remaining) + s.placedCount == TileTotal
            && NonNegative(s.remaining)
            && !(s.gameOver && s.gameWon)
            && s.placedCount == Filled(s.grid)
  {
    ResetEstablishesInv();
    RunPreservesInv(ResetGame(), actions);
  }

  /** A pending letter always has somewhere to go: the board has an empty cell. */
  lemma PendingLetterHasRoom(s: State)
    requires Inv(s) && s.current.Some?
    ensures exists row, col :: InBounds(row, col) && s.grid[row][col] == None
  {
    FullIffSixteenFilled(s.grid);
    assert !IsFull(s.grid);
  }

  /** An exhausted bag and a full board are the same condition. */
  lemma BagEmptyIffBoardFull(s: State)
    requires Inv(s)
    ensures AvailableLetters(s.remaining) == [] <==> IsFull(s.grid)
  {
    FullIffSixteenFilled(s.grid);
  }
}
