/** A single-pass, finite iterator over a sequence of elements: the model of
    the java.util.Iterator values handed out by the table accessor. */
module Iterators {

  class Cursor<T> {
    /** Everything the iterator will ever yield, in order. */
    const elements: seq<T>
    /** How many elements have been consumed by `Next` so far. */
    var position: nat

    ghost predicate Valid()
      reads this
    {
      position <= |elements|
    }

    /** The elements not yet consumed. */
    ghost function Remaining(): seq<T>
      reads this
      requires Valid()
    {
      elements[position..]
    }

    constructor (elements: seq<T>)
      ensures Valid()
      ensures this.elements == elements && position == 0
    {
      this.elements := elements;
      position := 0;
    }

    /** `hasNext`: true exactly when an element is left; consumes nothing. */
    method HasNext() returns (b: bool)
      requires Valid()
      ensures b <==> position < |elements|
    {
      b := position < |elements|;
    }

    /** `next`: yields the first unconsumed element and moves past it. */
    method Next() returns (x: T)
      requires Valid() && position < |elements|
      modifies this
      ensures Valid()
      ensures x == elements[old(position)] && position == old(position) + 1
    {
      x := elements[position];
      position := position + 1;
    }
  }
}
