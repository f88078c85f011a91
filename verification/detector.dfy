/** The FOX/XOF detector: a scan of the eight directions through the cell just placed. */
module Detector {
  import opened Options
  import opened Letters
  import opened Board

  /** A direction vector: `dRow` is added to the row and `dCol` to the column on each step
      (the source's `dx` and `dy`). */
  datatype Dir = Dir(dRow: int, dCol: int)

  datatype Pos = Pos(row: int, col: int)

  /** A detected sequence: the target letters and the positions that spell them, in scan order. */
  datatype Match = Match(sequence: seq<Letter>, positions: seq<Pos>)

  /** The eight directions, in the order the detector tries them. */
  const Directions: seq<Dir> :=
    [Dir(0, 1), Dir(1, 0), Dir(1, 1), Dir(1, -1), Dir(-1, 1), Dir(-1, -1), Dir(-1, 0), Dir(0, -1)]

  const Fox: seq<Letter> := [F, O, X]
  const Xof: seq<Letter> := [X, O, F]

  /** The two target sequences, in the order the detector tries them. */
  const Targets: seq<seq<Letter>> := [Fox, Xof]

  /** Cell `i` (0, 1 or 2) of the window along `d` in which the anchor (row, col) sits at position `offset`. */
  function WindowCell(row: int, col: int, d: Dir, offset: int, i: int): Pos {
    Pos(row + (i - offset) * d.dRow, col + (i - offset) * d.dCol)
  }

  /** The three cells of that window, in order along `d`. */
  function Window(row: int, col: int, d: Dir, offset: int): seq<Pos> {
    [WindowCell(row, col, d, offset, 0), WindowCell(row, col, d, offset, 1), WindowCell(row, col, d, offset, 2)]
  }

  predicate OnBoard(p: Pos) {
    InBounds(p.row, p.col)
  }

  /** Position `p` is on the board and holds letter `l`. */
  predicate Holds(g: Grid, p: Pos, l: Letter)
    requires WellFormed(g)
  {
    OnBoard(p) && g[p.row][p.col] == Some(l)
  }

  /** Every position of `m` is on the board and holds the matching letter of `m.sequence`. */
  predicate Spells(g: Grid, m: Match)
    requires WellFormed(g)
  {
    && |m.sequence| == 3
    && |m.positions| == 3
    && Holds(g, m.positions[0], m.sequence[0])
    && Holds(g, m.positions[1], m.sequence[1])
    && Holds(g, m.positions[2], m.sequence[2])
  }

  /** One window of one target, the source's inner `i` loop: the window matches exactly when each
      of its three cells, stepping `(i - offset)` times along `d` from the anchor, is on the board and
      holds letter `i` of the target; a match records the target and those cells in order. */
  function CheckWindow(g: Grid, row: int, col: int, d: Dir, target: seq<Letter>, offset: int): (r: Option<Match>)
    requires WellFormed(g)
    ensures r.Some? <==> && |target| == 3
                         && Holds(g, WindowCell(row, col, d, offset, 0), target[0])
                         && Holds(g, WindowCell(row, col, d, offset, 1), target[1])
                         && Holds(g, WindowCell(row, col, d, offset, 2), target[2])
    ensures r.Some? ==> r.value.sequence == target && r.value.positions == Window(row, col, d, offset)
  {
    var m := Match(target, Window(row, col, d, offset));
    if Spells(g, m) then Some(m) else None
  }

  /** The windows of `target` with the anchor at position `offset`, then `offset + 1`, up to 2;
      the first that matches wins. */
  function OffsetsFrom(g: Grid, row: int, col: int, d: Dir, target: seq<Letter>, offset: nat): (r: Option<Match>)
    requires WellFormed(g) && offset <= 3
    ensures r.Some? ==> Spells(g, r.value) && r.value.sequence == target
    ensures r.Some? ==> exists o :: offset <= o < 3 && r.value.positions == Window(row, col, d, o)
    decreases 3 - offset
  {
    if offset == 3 then None
    else
      var w := CheckWindow(g, row, col, d, target, offset);
      if w.Some? then w else OffsetsFrom(g, row, col, d, target, offset + 1)
  }

  /** The targets from index `j` on, each with all its offsets; the first that matches wins. */
  function SequencesFrom(g: Grid, row: int, col: int, d: Dir, j: nat): (r: Option<Match>)
    requires WellFormed(g) && j <= |Targets|
    ensures r.Some? ==> Spells(g, r.value)
    ensures r.Some? ==> exists i :: j <= i < |Targets| && r.value.sequence == Targets[i]
    ensures r.Some? ==> exists o :: 0 <= o < 3 && r.value.positions == Window(row, col, d, o)
    decreases |Targets| - j
  {
    if j == |Targets| then None
    else
      var r := OffsetsFrom(g, row, col, d, Targets[j], 0);
      if r.Some? then r else SequencesFrom(g, row, col, d, j + 1)
  }

  /** The source's `checkDirection`: FOX then XOF, each at offsets 0, 1, 2, along `d`. Any result
      is three in-bounds positions, consecutive along `d`, one of them the anchor, spelling FOX or XOF. */
  function CheckDirection(g: Grid, row: int, col: int, d: Dir): (r: Option<Match>)
    requires WellFormed(g)
    ensures r.Some? ==> Spells(g, r.value)
    ensures r.Some? ==> r.value.sequence == Fox || r.value.sequence == Xof
    ensures r.Some? ==> exists o :: 0 <= o < 3 && r.value.positions == Window(row, col, d, o)
                                   && r.value.positions[o] == Pos(row, col)
  {
    SequencesFrom(g, row, col, d, 0)
  }

  /** The directions from index `k` on; the first that yields a match wins. */
  function DirectionsFrom(g: Grid, row: int, col: int, k: nat): Option<Match>
    requires WellFormed(g) && k <= |Directions|
    decreases |Directions| - k
  {
    if k == |Directions| then None
    else
      var r := CheckDirection(g, row, col, Directions[k]);
      if r.Some? then r else DirectionsFrom(g, row, col, k + 1)
  }

  /** A match from the direction scan from index `k` on spells FOX or XOF along one of those
      directions, through the anchor. */
  lemma {:induction false} DirectionsFromSound(g: Grid, row: int, col: int, k: nat)
    requires WellFormed(g) && k <= |Directions|
    ensures var r := DirectionsFrom(g, row, col, k);
            r.Some? ==> && Spells(g, r.value)
                        && (r.value.sequence == Fox || r.value.sequence == Xof)
                        && exists i, o :: k <= i < |Directions| && 0 <= o < 3
                                          && r.value.positions == Window(row, col, Directions[i], o)
                                          && r.value.positions[o] == Pos(row, col)
    decreases |Directions| - k
  {
    if k < |Directions| {
      var here := CheckDirection(g, row, col, Directions[k]);
      assert DirectionsFrom(g, row, col, k) == if here.Some? then here else DirectionsFrom(g, row, col, k + 1);
      if here.None? {
        DirectionsFromSound(g, row, col, k + 1);
      }
    }
  }

  /** The source's `checkForFox`: `Some(m)` where the source returns true and records `m` as the
      highlighted sequence, `None` where it returns false. A match is three in-bounds cells spelling
      FOX or XOF in order, consecutive along one of the listed directions, one of them the anchor. */
  function CheckForFox(g: Grid, row: int, col: int): (r: Option<Match>)
    requires WellFormed(g)
    ensures r.Some? ==> Spells(g, r.value)
    ensures r.Some? ==> r.value.sequence == Fox || r.value.sequence == Xof
    ensures r.Some? ==> exists i, o :: 0 <= i < |Directions| && 0 <= o < 3
                                      && r.value.positions == Window(row, col, Directions[i], o)
                                      && r.value.positions[o] == Pos(row, col)
  {
    DirectionsFromSound(g, row, col, 0);
    DirectionsFrom(g, row, col, 0)
  }

  // ---------------------------------------------------------------------------------------------
  // Reference definition of a losing line, and the scan order as ranks of candidates.

  /** Some aligned FOX or XOF passes through (row, col): a listed direction, a target and an anchor
      offset whose window lies on the board and spells the target. */
  ghost predicate FoxThrough(g: Grid, row: int, col: int)
    requires WellFormed(g)
  {
    exists d, t, o :: d in Directions && t in Targets && 0 <= o < 3 && Spells(g, Match(t, Window(row, col, d, o)))
  }

  /** A window the detector considers, by indices into `Directions` and `Targets` and the anchor offset. */
  datatype Candidate = Candidate(dir: int, target: int, offset: int)

  predicate IsCandidate(c: Candidate) {
    0 <= c.dir < |Directions| && 0 <= c.target < |Targets| && 0 <= c.offset < 3
  }

  /** The position of a candidate in scan order: directions outermost, then targets, then offsets. */
  function Rank(c: Candidate): int {
    6 * c.dir + 3 * c.target + c.offset
  }

  function CandidateMatch(row: int, col: int, c: Candidate): Match
    requires IsCandidate(c)
  {
    Match(Targets[c.target], Window(row, col, Directions[c.dir], c.offset))
  }

  predicate Hits(g: Grid, row: int, col: int, c: Candidate)
    requires WellFormed(g)
  {
    IsCandidate(c) && Spells(g, CandidateMatch(row, col, c))
  }

  /** `c` hits and no candidate earlier in scan order does. */
  ghost predicate FirstHit(g: Grid, row: int, col: int, c: Candidate)
    requires WellFormed(g)
  {
    Hits(g, row, col, c) && forall c' :: Hits(g, row, col, c') ==> Rank(c) <= Rank(c')
  }

  /** No candidate of rank `lo` up to (not including) `hi` hits. */
  ghost predicate NoHitIn(g: Grid, row: int, col: int, lo: int, hi: int)
    requires WellFormed(g)
  {
    forall c {:trigger Hits(g, row, col, c)} :: Hits(g, row, col, c) ==> !(lo <= Rank(c) < hi)
  }

  /** Rank is one-to-one on candidates: a rank names one direction, target and offset. */
  lemma RankIdentifies(c: Candidate, k: int, j: int, o: int)
    requires IsCandidate(c) && 0 <= j < |Targets| && 0 <= o < 3
    requires Rank(c) == 6 * k + 3 * j + o
    ensures c == Candidate(k, j, o)
  {
  }

  /** One window decides the one candidate of its rank. */
  lemma {:induction false} CheckWindowDecides(g: Grid, row: int, col: int, k: int, j: int, o: int)
    requires WellFormed(g) && IsCandidate(Candidate(k, j, o))
    ensures var r := CheckWindow(g, row, col, Directions[k], Targets[j], o);
            && (r.None? ==> NoHitIn(g, row, col, Rank(Candidate(k, j, o)), Rank(Candidate(k, j, o)) + 1))
            && (r.Some? ==> Hits(g, row, col, Candidate(k, j, o)) && r.value == CandidateMatch(row, col, Candidate(k, j, o)))
  {
    var c := Candidate(k, j, o);
    var r := CheckWindow(g, row, col, Directions[k], Targets[j], o);
    assert CandidateMatch(row, col, c) == Match(Targets[j], Window(row, col, Directions[k], o));
    assert r.Some? <==> Hits(g, row, col, c);
    if r.None? {
      forall c' | Hits(g, row, col, c') && Rank(c) <= Rank(c') < Rank(c) + 1
        ensures false
      {
        RankIdentifies(c', k, j, o);
      }
    }
  }

  /** The offset scan of one direction and target: `c` is the candidate it stops at. */
  lemma {:induction false} OffsetsFromFirst(g: Grid, row: int, col: int, k: int, j: int, offset: nat) returns (c: Candidate)
    requires WellFormed(g) && 0 <= k < |Directions| && 0 <= j < |Targets| && offset <= 3
    ensures var r := OffsetsFrom(g, row, col, Directions[k], Targets[j], offset);
            && (r.None? ==> NoHitIn(g, row, col, 6 * k + 3 * j + offset, 6 * k + 3 * j + 3))
            && (r.Some? ==> && Hits(g, row, col, c) && 6 * k + 3 * j + offset <= Rank(c) < 6 * k + 3 * j + 3
                            && r.value == CandidateMatch(row, col, c)
                            && NoHitIn(g, row, col, 6 * k + 3 * j + offset, Rank(c)))
    decreases 3 - offset
  {
    c := Candidate(k, j, offset);
    if offset < 3 {
      CheckWindowDecides(g, row, col, k, j, offset);
      if CheckWindow(g, row, col, Directions[k], Targets[j], offset).None? {
        c := OffsetsFromFirst(g, row, col, k, j, offset + 1);
      }
    }
  }

  /** The target scan of one direction: `c` is the candidate it stops at. */
  lemma {:induction false} SequencesFromFirst(g: Grid, row: int, col: int, k: int, j: nat) returns (c: Candidate)
    requires WellFormed(g) && 0 <= k < |Directions| && j <= |Targets|
    ensures var r := SequencesFrom(g, row, col, Directions[k], j);
            && (r.None? ==> NoHitIn(g, row, col, 6 * k + 3 * j, 6 * k + 6))
            && (r.Some? ==> && Hits(g, row, col, c) && 6 * k + 3 * j <= Rank(c) < 6 * k + 6
                            && r.value == CandidateMatch(row, col, c)
                            && NoHitIn(g, row, col, 6 * k + 3 * j, Rank(c)))
    decreases |Targets| - j
  {
    c := Candidate(k, 0, 0);
    if j < |Targets| {
      c := OffsetsFromFirst(g, row, col, k, j, 0);
      if OffsetsFrom(g, row, col, Directions[k], Targets[j], 0).None? {
        c := SequencesFromFirst(g, row, col, k, j + 1);
      }
    }
  }

  /** The direction scan from index `k` on: `c` is the candidate it stops at. */
  lemma {:induction false} DirectionsFromFirst(g: Grid, row: int, col: int, k: nat) returns (c: Candidate)
    requires WellFormed(g) && k <= |Directions|
    ensures var r := DirectionsFrom(g, row, col, k);
            && (r.None? ==> NoHitIn(g, row, col, 6 * k, 6 * |Directions|))
            && (r.Some? ==> && Hits(g, row, col, c) && 6 * k <= Rank(c)
                            && r.value == CandidateMatch(row, col, c)
                            && NoHitIn(g, row, col, 6 * k, Rank(c)))
    decreases |Directions| - k
  {
    c := Candidate(0, 0, 0);
    if k < |Directions| {
      var here := SequencesFrom(g, row, col, Directions[k], 0);
      assert DirectionsFrom(g, row, col, k) == if here.Some? then here else DirectionsFrom(g, row, col, k + 1);
      c := SequencesFromFirst(g, row, col, k, 0);
      if here.None? {
        c := DirectionsFromFirst(g, row, col, k + 1);
        if DirectionsFrom(g, row, col, k + 1).Some? {
          NoHitJoin(g, row, col, 6 * k, 6 * k + 6, Rank(c));
        } else {
          NoHitJoin(g, row, col, 6 * k, 6 * k + 6, 6 * |Directions|);
        }
      }
    }
  }

  /** Two adjacent hit-free rank ranges make one. */
  lemma NoHitJoin(g: Grid, row: int, col: int, lo: int, mid: int, hi: int)
    requires WellFormed(g) && NoHitIn(g, row, col, lo, mid) && NoHitIn(g, row, col, mid, hi)
    ensures NoHitIn(g, row, col, lo, hi)
  {
  }

  /** The reference definition and the candidate encoding describe the same windows. */
  lemma FoxThroughIffHit(g: Grid, row: int, col: int)
    requires WellFormed(g)
    ensures FoxThrough(g, row, col) <==> exists c :: Hits(g, row, col, c)
  {
    if FoxThrough(g, row, col) {
      var d, t, o :| d in Directions && t in Targets && 0 <= o < 3 && Spells(g, Match(t, Window(row, col, d, o)));
      var k :| 0 <= k < |Directions| && Directions[k] == d;
      var j :| 0 <= j < |Targets| && Targets[j] == t;
      assert Hits(g, row, col, Candidate(k, j, o));
    }
    if c :| Hits(g, row, col, c) {
      assert Directions[c.dir] in Directions && Targets[c.target] in Targets;
    }
  }

  /** The detector fires exactly when an aligned FOX or XOF passes through the anchor (no false
      positives, no misses), and what it reports is the first such window in scan order. */
  lemma CheckForFoxFirstHit(g: Grid, row: int, col: int)
    requires WellFormed(g)
    ensures CheckForFox(g, row, col).Some? <==> FoxThrough(g, row, col)
    ensures CheckForFox(g, row, col).Some? ==>
              exists c :: FirstHit(g, row, col, c) && CheckForFox(g, row, col).value == CandidateMatch(row, col, c)
  {
    var c := DirectionsFromFirst(g, row, col, 0);
    FoxThroughIffHit(g, row, col);
  }

  /** The window with the anchor at position `o` has the anchor at index `o`. */
  lemma WindowHoldsAnchor(row: int, col: int, d: Dir, o: int)
    requires 0 <= o < 3
    ensures Window(row, col, d, o)[o] == Pos(row, col)
  {
  }

  /** The candidate that reads the same cells backwards: opposite direction, other target,
      mirrored offset. */
  function Mirror(c: Candidate): Candidate {
    Candidate(|Directions| - 1 - c.dir, |Targets| - 1 - c.target, 2 - c.offset)
  }

  /** The directions are listed so that the k-th from the end is the opposite of the k-th. */
  lemma OppositeDirections(k: int)
    requires 0 <= k < |Directions|
    ensures Directions[|Directions| - 1 - k] == Dir(-Directions[k].dRow, -Directions[k].dCol)
  {
  }

  /** Cell `i` of a window is cell `2 - i` of the mirrored window along the opposite direction. */
  lemma MirrorWindow(row: int, col: int, k: int, o: int, i: int)
    requires 0 <= k < |Directions| && 0 <= o < 3 && 0 <= i < 3
    ensures WindowCell(row, col, Directions[|Directions| - 1 - k], 2 - o, 2 - i) == WindowCell(row, col, Directions[k], o, i)
  {
  }

  /** A hit read backwards is a hit: the opposite direction sees the same three cells. */
  lemma MirrorHits(g: Grid, row: int, col: int, c: Candidate)
    requires WellFormed(g) && Hits(g, row, col, c)
    ensures Hits(g, row, col, Mirror(c))
  {
    var m := Mirror(c);
    var w := Window(row, col, Directions[c.dir], c.offset);
    var w' := Window(row, col, Directions[m.dir], m.offset);
    MirrorWindow(row, col, c.dir, c.offset, 0);
    MirrorWindow(row, col, c.dir, c.offset, 1);
    MirrorWindow(row, col, c.dir, c.offset, 2);
    assert w'[0] == w[2] && w'[1] == w[1] && w'[2] == w[0];
    assert Targets[m.target] == [Targets[c.target][2], Targets[c.target][1], Targets[c.target][0]];
  }

  /** Because every line is also scanned from the other end, the reported match always comes
      from one of the first four directions: (0,1), (1,0), (1,1) or (1,-1). */
  lemma CheckForFoxForward(g: Grid, row: int, col: int)
    requires WellFormed(g)
    ensures CheckForFox(g, row, col).Some? ==>
              exists c :: FirstHit(g, row, col, c) && c.dir < 4 && CheckForFox(g, row, col).value == CandidateMatch(row, col, c)
  {
    var c := DirectionsFromFirst(g, row, col, 0);
    if CheckForFox(g, row, col).Some? {
      if c.dir >= 4 {
        MirrorHits(g, row, col, c);
        assert false;
      }
      assert FirstHit(g, row, col, c);
    }
  }
}
