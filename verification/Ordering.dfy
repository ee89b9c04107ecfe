/** Keys and the comparison objects that order them. */
module Ordering {

  /** What a comparator looks at in a node.  Nothing is known about it. */
  type Key(!new)

  type Comparator = (Key, Key) -> bool

  /** The requirement every container of the library puts on its comparator. */
  ghost predicate StrictWeakOrder(comp: Comparator)
  {
    && (forall a :: !comp(a, a))
    && (forall a, b, c :: comp(a, b) && comp(b, c) ==> comp(a, c))
    && (forall a, b, c :: !comp(a, b) && !comp(b, c) ==> !comp(a, c))
  }
}
