/** The two sides of a sibling gap. The source encodes them as -1 and 1 so
    that negation flips one into the other; here they are two constructors
    and `Opposite` is the flip. */
module Direction {

  datatype Dir = L | R

  /** The other side: `-L == R` and `-R == L` in the source. */
  function Opposite(d: Dir): (o: Dir)
    ensures o != d
  {
    if d == L then R else L
  }

  /** The source's numeric encoding of a side: `L` is -1 and `R` is 1,
      chosen so that negating a side gives the opposite side. */
  function Sign(d: Dir): (v: int)
    ensures v == -1 || v == 1
    ensures d == L <==> v < 0
  {
    if d == L then -1 else 1
  }

  /** The encoding's contract: the opposite side is the negation. */
  lemma OppositeIsNegation(d: Dir)
    ensures Sign(Opposite(d)) == -Sign(d)
    ensures Opposite(Opposite(d)) == d
  {
  }
}
