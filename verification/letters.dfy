/** The three tile letters and the per-letter tile counts of the bag. */
module Letters {

  /** A tile letter. An empty cell is `None` of an `Option<Letter>`. */
  datatype Letter = F | O | X

  /** Remaining tiles per letter. The source keeps them as plain numbers, so they are
      unbounded integers here and nothing stops them from going negative on their own. */
  datatype Counts = Counts(f: int, o: int, x: int)

  /** The bag at the start of every game: five F, six O and five X. */
  const InitialCounts: Counts := Counts(5, 6, 5)

  /** The number of tiles the board holds, and the size of the initial bag. */
  const TileTotal: int := 16

  function Count(c: Counts, l: Letter): int {
    match l
    case F => c.f
    case O => c.o
    case X => c.x
  }

  function Total(c: Counts): int {
    c.f + c.o + c.x
  }

  predicate NonNegative(c: Counts) {
    c.f >= 0 && c.o >= 0 && c.x >= 0
  }

  /** Takes one tile of letter `l` out of the counts; the other letters keep theirs. */
  function Decrement(c: Counts, l: Letter): (r: Counts)
    ensures Count(r, l) == Count(c, l) - 1
    ensures forall m :: m != l ==> Count(r, m) == Count(c, m)
    ensures Total(r) == Total(c) - 1
  {
    match l
    case F => c.(f := c.f - 1)
    case O => c.(o := c.o - 1)
    case X => c.(x := c.x - 1)
  }
}
