/** The letter bag: the remaining counts expanded into one entry per tile, and a draw from it. */
module Bag {
  import opened Options
  import opened Letters

  /** `n` copies of `l`; none when `n` is not positive, as a `for (i = 0; i < n; i++)` loop gives. */
  function Repeat(l: Letter, n: int): (r: seq<Letter>)
    ensures |r| == if n > 0 then n else 0
    ensures forall i :: 0 <= i < |r| ==> r[i] == l
    decreases n
  {
    if n <= 0 then [] else Repeat(l, n - 1) + [l]
  }

  function Positive(n: int): int {
    if n > 0 then n else 0
  }

  /** The number of tiles left in the bag. */
  function BagSize(c: Counts): int {
    Positive(c.f) + Positive(c.o) + Positive(c.x)
  }

  /** The source's `availableLetters`: every remaining F, then every O, then every X. Its length is
      the number of tiles left (F + O + X when no count is negative), and each entry is a letter
      whose count is positive. */
  function AvailableLetters(c: Counts): (bag: seq<Letter>)
    ensures |bag| == BagSize(c)
    ensures NonNegative(c) ==> |bag| == Total(c)
    ensures forall i :: 0 <= i < |bag| ==> Count(c, bag[i]) > 0
  {
    var fs, os, xs := Repeat(F, c.f), Repeat(O, c.o), Repeat(X, c.x);
    assert forall i :: 0 <= i < |fs + os + xs| ==>
      (fs + os + xs)[i] == if i < |fs| then F else if i < |fs| + |os| then O else X;
    fs + os + xs
  }

  lemma {:induction false} RepeatMultiplicity(l: Letter, n: int, m: Letter)
    ensures multiset(Repeat(l, n))[m] == if m == l then Positive(n) else 0
    decreases n
  {
    if n > 0 {
      RepeatMultiplicity(l, n - 1, m);
      assert multiset(Repeat(l, n)) == multiset(Repeat(l, n - 1)) + multiset{l};
    }
  }

  /** Each letter appears in the bag as many times as it has tiles left, so a uniformly chosen
      index picks a letter with probability proportional to its count. */
  lemma AvailableMultiplicity(c: Counts, l: Letter)
    ensures multiset(AvailableLetters(c))[l] == Positive(Count(c, l))
  {
    RepeatMultiplicity(F, c.f, l);
    RepeatMultiplicity(O, c.o, l);
    RepeatMultiplicity(X, c.x, l);
    var fs, os, xs := Repeat(F, c.f), Repeat(O, c.o), Repeat(X, c.x);
    assert multiset(fs + os + xs) == multiset(fs) + multiset(os) + multiset(xs);
  }

  /** The index a caller may supply for a draw: any entry of a non-empty bag. */
  predicate ValidIndex(c: Counts, i: int) {
    BagSize(c) == 0 || 0 <= i < BagSize(c)
  }

  /** The drawing step of the source's `pickRandomLetter`, with `Math.random` replaced by the index
      `i`: nothing from an empty bag, otherwise a letter that still has tiles left. */
  function PickLetter(c: Counts, i: int): (r: Option<Letter>)
    requires ValidIndex(c, i)
    ensures r.None? <==> (c.f <= 0 && c.o <= 0 && c.x <= 0)
    ensures r.Some? ==> Count(c, r.value) > 0
  {
    if BagSize(c) == 0 then None else Some(AvailableLetters(c)[i])
  }

  /** Every letter with tiles left can be drawn: some index yields it. */
  lemma EveryRemainingLetterDrawable(c: Counts, l: Letter)
    requires Count(c, l) > 0
    ensures exists i :: ValidIndex(c, i) && PickLetter(c, i) == Some(l)
  {
    AvailableMultiplicity(c, l);
    var bag := AvailableLetters(c);
    assert l in multiset(bag);
    var i :| 0 <= i < |bag| && bag[i] == l;
    assert PickLetter(c, i) == Some(l);
  }
}
