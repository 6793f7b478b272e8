/** The elements of a sequence. */
module Collections {

  function Elements<T(==)>(xs: seq<T>): set<T> {
    set x | x in xs
  }

  lemma ElementsConcat<T>(xs: seq<T>, ys: seq<T>)
    ensures Elements(xs + ys) == Elements(xs) + Elements(ys)
  {
  }
}
