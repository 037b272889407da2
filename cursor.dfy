/**
 * A forward-only character cursor over one source text. It stands for
 * Rust's `CharIndices` in the span tree and for `Peekable<Chars>` in the
 * builder; both are shared by reference (`Rc<RefCell<...>>`), which here is
 * simply two owners holding the same `Cursor` object.
 */
module CharCursor {
  import opened Wrappers

  class Cursor {
    /** The text iterated over. */
    const text: string
    /** Number of characters already yielded. */
    var pos: nat

    ghost predicate Valid()
      reads this`pos
    {
      pos <= |text|
    }

    /** A cursor at the first character of `text`. */
    constructor (text: string)
      ensures Valid()
      ensures this.text == text && pos == 0
    {
      this.text, pos := text, 0;
    }

    /** A copy of `other` with its own position (`RefCell::clone` of the iterator). */
    constructor Copy(other: Cursor)
      requires other.Valid()
      ensures Valid()
      ensures text == other.text && pos == other.pos
    {
      text, pos := other.text, other.pos;
    }

    /** The next character without consuming it (`Peekable::peek`). */
    method Peek() returns (c: Option<char>)
      requires Valid()
      ensures c.None? <==> pos == |text|
      ensures c.Some? ==> c.value == text[pos]
    {
      c := if pos < |text| then Some(text[pos]) else None;
    }

    /** Yields the next character and moves past it (`Iterator::next`). */
    method Next() returns (c: Option<char>)
      requires Valid()
      modifies this`pos
      ensures Valid()
      ensures old(pos) < |text| ==> c == Some(text[old(pos)]) && pos == old(pos) + 1
      ensures old(pos) == |text| ==> c == None && pos == old(pos)
    {
      if pos < |text| {
        c := Some(text[pos]);
        pos := pos + 1;
      } else {
        c := None;
      }
    }
  }
}
