/**
 * The parser builder of src/lib.rs: a character cursor shared by every
 * builder derived from the same one, plus the builder's own span. `Test`
 * is the probe a parser uses to take one character when it fits.
 *
 * The builder's cursor (`Peekable<Chars>`) and the cursor inside its span
 * (`CharIndices`) are separate objects in the source, and stay separate here.
 */
module Builders {
  import opened Wrappers
  import opened CharCursor
  import opened Spans

  class Builder {
    /** The character cursor, shared by derived builders. */
    const chars: Cursor
    /** This builder's span. */
    const span: Span

    /**
     * `Builder::new`: a cursor at the first character of `source` and a
     * default span, taken to be a root span over the empty text.
     */
    constructor New(source: string)
      ensures fresh(chars) && chars.text == source && chars.pos == 0 && chars.Valid()
      ensures fresh(span) && span.Valid() && span.parent == null && span.latestChild == null
      ensures span.bounds == Range(0, 0) && span.sliceBounds == Range(0, 0)
      ensures !span.blocked && span.alive
      ensures fresh(span.indices) && span.indices.text == "" && span.indices.pos == 0 && span.indices.Valid()
    {
      chars := new Cursor(source);
      span := new Span.New("");
    }

    /** The struct literal `Self { chars, span }`. */
    constructor Of(chars: Cursor, span: Span)
      ensures this.chars == chars && this.span == span
    {
      this.chars, this.span := chars, span;
    }

    /**
     * `Builder::derive`: a builder over the same cursor, so what either
     * consumes the other no longer sees, whose span is derived from this
     * builder's span.
     */
    method Derive() returns (b: Builder)
      requires span.Valid()
      modifies span`latestChild, (if span.latestChild == null then {} else {span.latestChild})`blocked
      ensures fresh(b) && b.chars == chars
      ensures fresh(b.span) && b.span.parent == span && span.latestChild == b.span && span.Valid()
      ensures b.span.indices == span.indices && !b.span.blocked && b.span.alive
      ensures b.span.Valid() && b.span.latestChild == null
      ensures b.span.depth == span.depth + 1 && b.span.above == {span} + span.above
      ensures b.span.sliceBounds == Range(span.sliceBounds.end, span.sliceBounds.end)
      ensures var start := if old(span.latestChild) == null then span.bounds.end else old(span.latestChild.bounds.end);
        b.span.bounds == Range(start, start)
      ensures old(span.latestChild) != null ==> old(span.latestChild).blocked
      ensures span.bounds == old(span.bounds) && span.sliceBounds == old(span.sliceBounds)
      ensures span.blocked == old(span.blocked)
    {
      var child := span.Derive();
      b := new Builder.Of(chars, child);
    }

    /**
     * `Builder::test`: peeks at the next character and consumes it only when
     * `test` accepts it. The result and the new position depend on `test`
     * only through its value on the peeked character, and not at all when
     * the input is exhausted. The ghost `probed` records, by the body's own
     * bookkeeping, the one character the predicate is applied to (none at
     * the end of the input).
     */
    method Test(test: char -> bool) returns (r: Option<char>, ghost probed: seq<char>)
      requires chars.Valid()
      modifies chars`pos
      ensures chars.Valid()
      ensures old(chars.pos) == |chars.text| ==> r.None? && probed == [] && chars.pos == old(chars.pos)
      ensures old(chars.pos) < |chars.text| ==> probed == [chars.text[old(chars.pos)]]
      ensures old(chars.pos) < |chars.text| && !test(chars.text[old(chars.pos)]) ==>
        r.None? && chars.pos == old(chars.pos)
      ensures old(chars.pos) < |chars.text| && test(chars.text[old(chars.pos)]) ==>
        r == Some(chars.text[old(chars.pos)]) && chars.pos == old(chars.pos) + 1
      ensures r.Some? <==> old(chars.pos) < |chars.text| && test(chars.text[old(chars.pos)])
    {
      var peeked := chars.Peek();
      if peeked.None? {
        return None, [];
      }
      probed := [peeked.value];
      if !test(peeked.value) {
        return None, probed;
      }
      r := chars.Next();
    }
  }

  /**
   * Builders derive repeatedly, as recursive descent does, and a derived
   * builder's span can be expanded. Because the default span of a new
   * builder covers the empty text, its descendants can grow by zero
   * characters but not by one.
   */
  method DeriveTwiceThenExpand(source: string) returns (empty: Result<(), Error>, one: Result<(), Error>)
    ensures empty == Ok(()) && one == Err(OutOfBounds)
  {
    var b := new Builder.New(source);
    var c := b.Derive();
    var d := c.Derive();
    empty := d.span.Expand(0);
    one := d.span.Expand(1);
  }
}
