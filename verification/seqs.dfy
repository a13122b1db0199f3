/** Sequences viewed as sets: the `set(lst)` of the source. */
module Seqs {

  /** The elements of a sequence, as a set. */
  ghost function Elems<X>(xs: seq<X>): set<X> {
    set x | x in xs
  }
}
