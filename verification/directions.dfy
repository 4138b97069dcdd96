/**
 * The two directions in which the goto actions move through the result table.
 * The status actions pick a direction by subclassing (NextHost steps by +1,
 * PrevHost by -1); the text search keeps it as an integer constant, NEXT = 1
 * or PREV = -1, that is checked when it is set.
 */
module Directions {
  import opened Wrappers

  datatype Direction = Next | Prev {
    /** The amount added to a row index to move one row in this direction. */
    function Step(): (r: int)
      ensures r == 1 || r == -1
      ensures r > 0 <==> Next?
    {
      if Next? then 1 else -1
    }
  }

  /** The integer constants of the text search. */
  const NEXT: int := 1
  const PREV: int := -1

  /**
   * The validity check of the direction setter: only NEXT and PREV are
   * directions, every other value is refused.
   */
  function FromInt(value: int): (r: Option<Direction>)
    ensures r.Some? <==> (value == NEXT || value == PREV)
    ensures r.Some? ==> r.value.Step() == value
  {
    if value == NEXT then Some(Next)
    else if value == PREV then Some(Prev)
    else None
  }

  /** Converting a direction to its constant and back loses nothing. */
  lemma FromIntStep(d: Direction)
    ensures FromInt(d.Step()) == Some(d)
  {
  }
}
