# FOX puzzle — a verified model of the game logic

The game is a single-player 4×4 tile puzzle. Letters are drawn one at a time from a bag holding
five F, six O and five X, and the player places each one on an empty cell. The game is lost as
soon as F‑O‑X or X‑O‑F runs through the cell just filled, in any of eight directions. It is won
when all sixteen cells are filled without that happening.

This project models the logic of `src/App.tsx` as pure Dafny functions over an immutable state:

- `Options`: the `Option` type. An empty cell, a missing pending letter, a detector miss and
  an absent highlight are each `None`.
- `Letters`: the letters, the per-letter counts (`LetterCounts`), the initial counts 5/6/5, and
  taking one tile of a letter out of the counts.
- `Board`: the grid as `seq<seq<Option<Letter>>>`, writing one cell, and counting the tiles on
  the board.
- `Detector`: `checkDirection` and `checkForFox` as three nested scans: directions, then
  targets, then anchor offsets. Beside them sit an independent definition of "a FOX/XOF passes
  through the anchor" and the scan order written as ranks of candidate windows.
- `Bag`: the expansion of the counts into one entry per tile (`availableLetters`) and the
  draw. The index the source obtains from `Math.random` is a parameter.
- `Game`: the component state, `placeLetter`, `pickRandomLetter`, `resetGame`, and the invariant
  that every reachable state keeps.

The main results:

- **Detector.** It reports a match exactly when an aligned FOX or XOF passes through the anchor,
  so there are no false positives and no misses. What it reports is the first such window in scan
  order. That window is three in-bounds cells, consecutive along a listed direction, one of which
  is the anchor, and they spell the target in order.
- **Placement.** A placement is either rejected with no change, or it changes exactly the one
  cell, that one letter's count, the placed count and the pending letter. Its outcome is a loss,
  a win or neither.
- **Invariant.** In every state reachable from a fresh game, where each draw reads the state
  as it is at the time of the draw:
  - each letter's remaining count plus its tiles on the board is its initial count;
  - the three counts plus the placed count make sixteen;
  - the game is never both lost and won.

The source stores a cell and the pending letter as a letter or `null`; here both are
`Option<Letter>`. The source stores a position as a `[row, col]` pair; here it is
`Pos(row, col)`. The source's direction pair `(dx, dy)` is `Dir(dRow, dCol)`: `dx` steps the
row and `dy` steps the column.

## Model

| member | source | states |
|---|---|---|
| Letters.Decrement | src/App.tsx:65-67 | taking a tile lowers exactly that letter's count by one, leaves the other two letters' counts alone, and lowers the total by one |
| Board.EmptyGrid | src/App.tsx:21 | the starting board is 4×4 with every cell empty |
| Board.SetCell | src/App.tsx:61-62 | the copied board is 4×4 and holds the letter at (row, col), with every other cell unchanged |
| Board.SetCellCount | src/App.tsx:61-62 | writing a letter into an empty cell adds one tile of that letter to the board, takes one empty cell away, and leaves the other letters' tile counts alone |
| Board.SetCellFilled | src/App.tsx:61-62 | writing into an empty cell raises the number of occupied cells by exactly one |
| Board.FullIffSixteenFilled | src/App.tsx:82 | the board is full exactly when sixteen of its cells are occupied |
| Board.EmptyGridFilled | src/App.tsx:21 | a fresh board has no occupied cell |
| Detector.CheckWindow | src/App.tsx:156-170 | one window gives a match exactly when the target has three letters and cell `anchor + (i - offset)·(dx, dy)` is in bounds and holds letter i of the target for each of i = 0, 1, 2; the match carries the target and those three cells |
| Detector.OffsetsFrom | src/App.tsx:125-178 | a match from the offset scan (the offset 0 block, then the offset 1..2 loop) spells the target on the board, and its positions are the window for one of the offsets not yet tried |
| Detector.SequencesFrom | src/App.tsx:118-179 | a match from the target scan spells one of the targets not yet tried, and its positions are one of the three windows through the anchor |
| Detector.CheckDirection | src/App.tsx:117-182 | a result is three in-bounds cells that spell FOX or XOF in order; the cells are `anchor + (i - offset)·(dx, dy)` for i = 0, 1, 2 and one offset in 0..2, and the cell at index `offset` is the anchor |
| Detector.OffsetsFromFirst | src/App.tsx:152 | the offset scan stops at the lowest offset whose window hits, and returns None only when no remaining offset hits |
| Detector.SequencesFromFirst | src/App.tsx:123 | the target scan of one direction stops at the first hit with FOX before XOF and, within each, offset 0 before 1 before 2; it returns None only when no window of that direction hits |
| Detector.DirectionsFromFirst | src/App.tsx:105-110 | the direction scan stops at the first hit in the listed direction order; it returns None only when no later direction hits |
| Detector.DirectionsFromSound | src/App.tsx:105-113 | a match from the direction scan, starting at any direction, spells FOX or XOF on the board and is a window through the anchor along one of the directions not yet tried |
| Detector.CheckForFox | src/App.tsx:93-114 | a reported match spells FOX or XOF on the board, and its three cells are a window along one of the eight listed directions with the anchor at the window's offset |
| Detector.CheckForFoxFirstHit | src/App.tsx:93-114 | `checkForFox` reports a match exactly when some listed direction, some target and some offset give an in-bounds window that spells the target, and what it reports is the lowest such window in scan order |
| Detector.CheckForFoxForward | src/App.tsx:94-103 | every line is also scanned from its other end, so the reported match always comes from one of the first four directions (0,1), (1,0), (1,1), (1,-1) |
| Bag.Repeat | src/App.tsx:41-43 | the inner push loop gives `count` copies of the letter, and none when the count is not positive |
| Bag.AvailableLetters | src/App.tsx:39-45 | the expanded bag has one entry per remaining tile, which is F + O + X when no count is negative, and each entry is a letter whose count is positive |
| Bag.AvailableMultiplicity | src/App.tsx:39-45 | each letter occurs in the bag exactly as often as it has tiles left |
| Bag.PickLetter | src/App.tsx:47-54 | the draw yields nothing exactly when no letter has tiles left, and otherwise yields a letter whose count is positive |
| Bag.EveryRemainingLetterDrawable | src/App.tsx:52-54 | every letter with tiles left is produced by some admissible index |
| Game.ResetGame | src/App.tsx:185-192 | a reset gives an empty 4×4 board, counts 5/6/5, neither flag set, nothing placed, no pending letter and no highlight |
| Game.Rejected | src/App.tsx:59 | a placement goes ahead only when a letter is pending, neither flag is set and the board has room; on a full board every placement is refused |
| Game.PlaceLetter | src/App.tsx:58-90 | a placement is rejected with the state unchanged exactly when the game is lost or won, the cell is taken or no letter is pending; otherwise only the cell, the letter's count, the placed count and the pending letter change, and the game is lost exactly when a FOX/XOF passes through the cell; it is won exactly when it is not lost and this was the sixteenth tile |
| Game.LossHighlightsFirstHit | src/App.tsx:76-80 | after a losing placement the win flag is clear and the highlight is the first losing window in scan order |
| Game.PickRandomLetter | src/App.tsx:36-55 | a finished game is left alone; otherwise an empty bag wins the game and keeps the pending letter, and a non-empty bag makes the pending letter one with tiles left; board, counts, placed count, lost flag and highlight never change |
| Game.ResetEstablishesInv | src/App.tsx:185-192 | the reset state satisfies the invariant |
| Game.PlaceKeepsTally | src/App.tsx:62-73 | after a placement each letter's count plus its tiles on the board is still its initial count, the counts plus the placed count still make sixteen, and the placed count still equals the occupied cells |
| Game.PlaceKeepsConsistent | src/App.tsx:76-89 | after a placement the game is never both lost and won, a highlight exists exactly when the game is lost and spells its sequence, a won game has sixteen tiles placed, and no letter is pending |
| Game.PlacePreservesInv | src/App.tsx:58-90 | placement preserves the invariant |
| Game.DrawEmptyInv | src/App.tsx:47-50 | winning on an empty bag preserves the invariant, since with all counts at zero the board holds sixteen tiles |
| Game.DrawPreservesInv | src/App.tsx:36-55 | drawing preserves the invariant |
| Game.StepPreservesInv | src/App.tsx:36-192 | each action (place, draw, reset) preserves the invariant |
| Game.RunPreservesInv | src/App.tsx:36-192 | every allowed sequence of actions preserves the invariant |
| Game.ReachableConservation | src/App.tsx:13-17 | in every state reachable from a fresh game, F + O + X + placed count = 16, no count is negative, the placed count is the number of occupied cells, and lost and won never both hold |
| Game.PendingLetterHasRoom | src/App.tsx:59 | in any reachable state with a pending letter, the board still has an empty cell for it |
| Game.BagEmptyIffBoardFull | src/App.tsx:47-50 | in any reachable state the bag is empty exactly when the board is full |

## Left out

- Rendering, styling, icons, the help modal and `toggleHelp` (src/App.tsx:196-322) are presentation and contain no game logic.
- The `Math.random` call (src/App.tsx:52) is replaced by a caller-supplied index into the bag. The distribution is not modelled. `Bag.AvailableMultiplicity` shows that each letter's share of the bag equals its count.
- React state hooks, `useEffect` and the 300 ms `setTimeout` (src/App.tsx:31-33, 89, 193) are left out. The draw is a separate `Draw` action applied to the state after the placement or reset.
- The delayed `pickRandomLetter` in the source reads the `remainingLetters`, `gameOver` and `gameWon` values of the render that scheduled it, not the updated ones. This is not modelled. For example, after a reset from a lost game the source's delayed draw still sees `gameOver` and draws nothing. The model's draw reads the current state. The stale read matters for placement too: `placeLetter` schedules the draw of its own render (src/App.tsx:89), which sees the counts from before the decrement (src/App.tsx:41, 66-67). With one F left and F pending, placing it sets F to 0, the delayed draw still sees F:1 and may draw F again, and placing that one sets F to -1 with a sixth F on the board. So `Letters.NonNegative`, the per-letter tally of `Game.Tallied` and `Game.BagEmptyIffBoardFull` hold for the model's draw only, not for the source's delayed one.
- Game.PlaceLetter: requires 0 <= row < 4 and 0 <= col < 4. `placeLetter` does not check its indices and relies on the board only offering grid cells, so the model has no rejection path for them.
- The source keeps lost and won as two booleans. The model does the same and proves that they never both hold, rather than using a single game-phase value.
- The detector tries the directions in the order of src/App.tsx:94-103.
- `Object.entries` (src/App.tsx:41) visits F, O, X in the order of the counts object's keys. The model expands the bag in that order.
