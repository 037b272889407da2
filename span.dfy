/**
 * The span tree of src/span.rs. A `Span` records two ranges over one source
 * text: `bounds` in characters and `sliceBounds` in bytes. Spans share a
 * character cursor with the span they were derived from, keep a weak link to
 * that parent and a strong link to their latest child, and can be blocked
 * from resizing once a younger sibling exists.
 *
 * `parent` and `indices` are never reassigned in the source, so they are
 * `const` here, and so are the ghost `depth` and `above` (the set of all
 * ancestors) that describe the chain. A `Weak` link that no longer upgrades
 * is the parent's `alive` flag being false.
 */
module Spans {
  import opened Wrappers
  import opened Utf8
  import opened CharCursor

  /** `core::ops::Range<usize>`: `start..end`. */
  datatype Range = Range(start: nat, end: nat)

  /** The character and byte ranges of one span, as a value. */
  datatype Extent = Extent(bounds: Range, sliceBounds: Range) {
    /** Both starts kept, the character end `amount` further, the byte end at `sliceEnd`. */
    function Grow(amount: nat, sliceEnd: nat): Extent {
      Extent(Range(bounds.start, bounds.end + amount), Range(sliceBounds.start, sliceEnd))
    }
  }

  /** Why a resize was refused. */
  datatype Error = BlockedResize | BlockedParentResize | ParentDeallocated | OutOfBounds

  class Span {
    /** Byte range in the source that corresponds to `bounds`. */
    var sliceBounds: Range
    /** The character cursor, shared with the spans derived from this one. */
    const indices: Cursor
    /** Character range in the source. */
    var bounds: Range
    /** The span this one was derived from (a `Weak` link). */
    const parent: Span?
    /** The most recently derived child. */
    var latestChild: Span?
    /** Set once a younger sibling was derived: this span may no longer resize. */
    var blocked: bool
    /** False once the last strong handle is gone, so a `Weak` link to it no longer upgrades. */
    var alive: bool
    /** Number of ancestors. */
    ghost const depth: nat
    /** All ancestors: `parent`, its parent, and so on up to the root. */
    ghost const above: set<Span>

    /** `depth` and `above` describe the parent chain. */
    ghost predicate Linked()
      decreases depth
    {
      if parent == null then depth == 0 && above == {}
      else depth == parent.depth + 1 && above == {parent} + parent.above && parent.Linked()
    }

    /** The chain is linked and the latest child sits one level below. */
    ghost predicate Valid()
      reads this`latestChild
    {
      Linked() && (latestChild != null ==> latestChild.depth == depth + 1)
    }

    /** The character end is the cursor position and the byte end its byte offset. */
    ghost predicate Synced()
      reads this`bounds, this`sliceBounds, indices`pos
    {
      bounds.end == indices.pos <= |indices.text| &&
      sliceBounds.end == Width(indices.text[..indices.pos])
    }

    /** The two ranges of this span, as one value. */
    ghost function Ranges(): Extent
      reads this`bounds, this`sliceBounds
    {
      Extent(bounds, sliceBounds)
    }

    /** Every ancestor sits strictly higher, so a span is never its own ancestor. */
    lemma {:induction false} AncestorsAreHigher()
      requires Linked()
      ensures forall a :: a in above ==> a.depth < depth
      ensures this !in above
      decreases depth
    {
      if parent != null {
        parent.AncestorsAreHigher();
      }
    }

    /**
     * The nearest ancestor that is deallocated or blocked, where a resize
     * travelling up from this span stops; null when the whole chain is live
     * and unblocked.
     */
    ghost function Stopper(): (s: Span?)
      requires Linked()
      reads above`alive, above`blocked
      decreases depth
      ensures s != null ==> s in above && (!s.alive || s.blocked)
      ensures forall a :: a in above && Reached(a, s) ==> a.alive && !a.blocked
    {
      if parent == null then null
      else
        parent.AncestorsAreHigher();
        if !parent.alive || parent.blocked then parent
        else parent.Stopper()
    }

    /** `Span::new`: a root span over `text` with empty ranges at 0. */
    constructor New(text: string)
      ensures sliceBounds == Range(0, 0) && bounds == Range(0, 0)
      ensures parent == null && latestChild == null && !blocked && alive
      ensures fresh(indices) && indices.text == text && indices.pos == 0 && indices.Valid()
      ensures Valid() && Synced()
    {
      sliceBounds := Range(0, 0);
      indices := new Cursor(text);
      bounds := Range(0, 0);
      parent := null;
      latestChild := null;
      blocked := false;
      alive := true;
      depth := 0;
      above := {};
    }

    /** The struct literal in `derive`: an empty child of `p` whose character range sits at `start`. */
    constructor Child(p: Span, start: nat)
      requires p.Linked()
      ensures parent == p && depth == p.depth + 1 && above == {p} + p.above && indices == p.indices
      ensures sliceBounds == Range(p.sliceBounds.end, p.sliceBounds.end)
      ensures bounds == Range(start, start)
      ensures latestChild == null && !blocked && alive
      ensures Valid()
    {
      indices := p.indices;
      sliceBounds := Range(p.sliceBounds.end, p.sliceBounds.end);
      bounds := Range(start, start);
      parent := p;
      latestChild := null;
      blocked := false;
      alive := true;
      depth := p.depth + 1;
      above := {p} + p.above;
    }

    /**
     * `Clone for Span`: same ranges, parent, latest child and blocked flag,
     * but the cursor is copied into a cell of its own.
     */
    constructor Clone(other: Span)
      requires other.indices.Valid()
      ensures sliceBounds == other.sliceBounds && bounds == other.bounds
      ensures parent == other.parent && latestChild == other.latestChild
      ensures blocked == other.blocked && alive
      ensures depth == other.depth && above == other.above
      ensures fresh(indices) && indices.text == other.indices.text
      ensures indices.pos == other.indices.pos && indices.Valid()
      ensures other.Valid() ==> Valid()
    {
      sliceBounds := other.sliceBounds;
      indices := new Cursor.Copy(other.indices);
      bounds := other.bounds;
      parent := other.parent;
      latestChild := other.latestChild;
      blocked := other.blocked;
      alive := true;
      depth := other.depth;
      above := other.above;
    }

    /** The last strong handle to this span is dropped: a `Weak` link to it no longer upgrades. */
    method Drop()
      modifies this`alive
      ensures !alive
    {
      alive := false;
    }

    /**
     * `expand`: grows the span by `amount` characters taken from the shared
     * cursor, then pushes the growth up the ancestor chain.
     */
    method Expand(amount: nat) returns (r: Result<(), Error>)
      requires Linked() && indices.Valid()
      modifies this`bounds, this`sliceBounds, above`bounds, above`sliceBounds, indices`pos
      ensures indices.Valid()
      ensures old(blocked) ==>
        r == Err(BlockedResize) && Ranges() == old(Ranges()) && indices.pos == old(indices.pos)
        && unchanged(above)
      ensures !old(blocked) && old(indices.pos) + amount > |indices.text| ==>
        r == Err(OutOfBounds) && Ranges() == old(Ranges()) && indices.pos == old(indices.pos)
        && unchanged(above)
      ensures !old(blocked) && old(indices.pos) + amount <= |indices.text| ==>
        var newEnd := old(sliceBounds.end) + Width(indices.text[old(indices.pos)..old(indices.pos) + amount]);
        var s := old(Stopper());
        && indices.pos == old(indices.pos) + amount
        && Ranges() == old(Ranges()).Grow(amount, newEnd)
        && (forall a :: a in above ==>
              a.Ranges() == if Reached(a, s) then old(a.Ranges()).Grow(amount, newEnd) else old(a.Ranges()))
        && r == StopOutcome(s)
      ensures old(Synced()) && (r.Ok? || r == Err(BlockedParentResize) || r == Err(ParentDeallocated)) ==>
        Synced()
    {
      ghost var p0, text := indices.pos, indices.text;
      r := BackpropagationExpand(amount, None);
      if old(Synced()) && !old(blocked) && p0 + amount <= |text| {
        WidthSplit(text, p0, p0 + amount);
      }
    }

    /**
     * `backpropagation_expand`. With `parentSliceEnd == None` the span reads
     * `amount` characters off its cursor, adding each one's UTF-8 length to
     * the byte end and rolling both back if the input runs out. With
     * `Some(e)` (a child's call) it sets its byte end to `e` and leaves the
     * cursor alone. Either way the character end grows by `amount` and the
     * call moves on to a live parent; growth already applied is kept when a
     * higher ancestor refuses.
     */
    method BackpropagationExpand(amount: nat, parentSliceEnd: Option<nat>) returns (r: Result<(), Error>)
      requires Linked() && (parentSliceEnd.None? ==> indices.Valid())
      modifies this`bounds, this`sliceBounds, above`bounds, above`sliceBounds
      modifies (if parentSliceEnd.None? then {indices} else {})`pos
      decreases depth, 2
      ensures parentSliceEnd.None? ==> indices.Valid()
      ensures old(blocked) ==>
        r == Err(BlockedResize) && Ranges() == old(Ranges()) && indices.pos == old(indices.pos)
        && unchanged(above)
      ensures !old(blocked) && parentSliceEnd.None? && old(indices.pos) + amount > |indices.text| ==>
        r == Err(OutOfBounds) && Ranges() == old(Ranges()) && indices.pos == old(indices.pos)
        && unchanged(above)
      ensures !old(blocked) && (parentSliceEnd.Some? || old(indices.pos) + amount <= |indices.text|) ==>
        var newEnd := if parentSliceEnd.Some? then parentSliceEnd.value
                      else old(sliceBounds.end) + Width(indices.text[old(indices.pos)..old(indices.pos) + amount]);
        var s := old(Stopper());
        && indices.pos == old(indices.pos) + (if parentSliceEnd.None? then amount else 0)
        && Ranges() == old(Ranges()).Grow(amount, newEnd)
        && (forall a :: a in above ==>
              a.Ranges() == if Reached(a, s) then old(a.Ranges()).Grow(amount, newEnd) else old(a.Ranges()))
        && r == StopOutcome(s)
    {
      AncestorsAreHigher();
      if blocked {
        return Err(BlockedResize);
      }
      var taken := true;
      match parentSliceEnd {
        case Some(sliceEnd) =>
          sliceBounds := sliceBounds.(end := sliceEnd);
        case None =>
          taken := TakeChars(amount);
      }
      if !taken {
        return Err(OutOfBounds);
      }
      r := GrowAndPropagate(amount);
    }

    /** The character end grows by `amount`; then the growth goes up the chain. */
    method GrowAndPropagate(amount: nat) returns (r: Result<(), Error>)
      requires Linked()
      modifies this`bounds, above`bounds, above`sliceBounds
      decreases depth, 1
      ensures Ranges() == old(Ranges()).(bounds := Range(old(bounds.start), old(bounds.end) + amount))
      ensures var s := old(Stopper());
        && (forall a :: a in above ==>
              a.Ranges() == if Reached(a, s) then old(a.Ranges()).Grow(amount, sliceBounds.end) else old(a.Ranges()))
        && r == StopOutcome(s)
    {
      AncestorsAreHigher();
      bounds := bounds.(end := bounds.end + amount);
      r := PropagateToParent(amount);
    }

    /**
     * The cursor branch of `backpropagation_expand`: reads `amount`
     * characters, adding each one's UTF-8 length to the byte end; when the
     * input runs out, restores the cursor and the byte end from snapshots.
     */
    method TakeChars(amount: nat) returns (taken: bool)
      requires indices.Valid()
      modifies this`sliceBounds, indices`pos
      ensures indices.Valid()
      ensures taken <==> old(indices.pos) + amount <= |indices.text|
      ensures taken ==> indices.pos == old(indices.pos) + amount
      ensures taken ==>
        sliceBounds == old(sliceBounds).(end := old(sliceBounds.end) + Width(indices.text[old(indices.pos)..indices.pos]))
      ensures !taken ==> indices.pos == old(indices.pos) && sliceBounds == old(sliceBounds)
    {
      var snapshot := indices.pos;
      var oldSliceEnd := sliceBounds.end;
      for i := 0 to amount
        invariant indices.Valid() && indices.pos == snapshot + i
        invariant sliceBounds == old(sliceBounds).(end := oldSliceEnd + Width(indices.text[snapshot..indices.pos]))
      {
        var next := indices.Next();
        if next.None? {
          indices.pos := snapshot;
          sliceBounds := sliceBounds.(end := oldSliceEnd);
          return false;
        }
        WidthSnoc(indices.text, snapshot, snapshot + i);
        sliceBounds := sliceBounds.(end := sliceBounds.end + Utf8Len(next.value));
      }
      taken := true;
    }

    /**
     * The tail of `backpropagation_expand`: hands this span's byte end to a
     * live parent and maps the parent's refusal to the caller's error.
     */
    method PropagateToParent(amount: nat) returns (r: Result<(), Error>)
      requires Linked()
      modifies above`bounds, above`sliceBounds
      decreases depth, 0
      ensures var s := old(Stopper());
        && (forall a :: a in above ==>
              a.Ranges() == if Reached(a, s) then old(a.Ranges()).Grow(amount, sliceBounds.end) else old(a.Ranges()))
        && r == StopOutcome(s)
    {
      AncestorsAreHigher();
      if parent == null {
        return Ok(());
      }
      if !parent.alive {
        return Err(ParentDeallocated);
      }
      parent.AncestorsAreHigher();
      ghost var s := Stopper();
      if parent.blocked {
        assert s == parent;
      } else {
        assert s == parent.Stopper();
      }
      var result := parent.BackpropagationExpand(amount, Some(sliceBounds.end));
      match result {
        case Err(BlockedResize) => r := Err(BlockedParentResize);
        case Err(BlockedParentResize) => r := Err(BlockedParentResize);
        case Err(ParentDeallocated) => r := Err(ParentDeallocated);
        case Err(OutOfBounds) => assert false;
        case Ok(_) => r := Ok(());
      }
    }

    /**
     * `BranchSpan::derive`: blocks the previous latest child, and returns a
     * fresh empty child sharing this span's cursor, placed at the byte end of
     * this span and at the character end of the previous child (of this span
     * when there is none).
     */
    method Derive() returns (child: Span)
      requires Valid()
      modifies this`latestChild, (if latestChild == null then {} else {latestChild})`blocked
      ensures fresh(child) && Valid() && child.Valid()
      ensures latestChild == child
      ensures child.parent == this && child.depth == depth + 1 && child.above == {this} + above
      ensures child.indices == indices
      ensures child.sliceBounds == Range(sliceBounds.end, sliceBounds.end)
      ensures var start := if old(latestChild) == null then bounds.end else old(latestChild.bounds.end);
        child.bounds == Range(start, start)
      ensures !child.blocked && child.alive && child.latestChild == null
      ensures old(latestChild) != null ==> old(latestChild).blocked
      ensures bounds == old(bounds) && sliceBounds == old(sliceBounds) && blocked == old(blocked)
      ensures old(Synced()) && (old(latestChild) == null || old(latestChild.bounds.end) == bounds.end) ==>
        child.Synced()
    {
      var start;
      if latestChild != null {
        latestChild.blocked := true;
        start := latestChild.bounds.end;
      } else {
        start := bounds.end;
      }
      child := new Span.Child(this, start);
      latestChild := child;
    }
  }

  /** A resize travelling up stopped at `s` (null: it did not stop) and so reached ancestor `a`. */
  ghost predicate Reached(a: Span, s: Span?) {
    s == null || a.depth > s.depth
  }

  /** What a resize that got past its own span reports, given where it stopped. */
  function StopOutcome(s: Span?): Result<(), Error>
    reads if s == null then {} else {s}
  {
    if s == null then Ok(())
    else if !s.alive then Err(ParentDeallocated)
    else Err(BlockedParentResize)
  }

  /**
   * A child's `expand` moves the cursor it shares with its parent: after a
   * child of a root over "ab" expands by one, the root's cursor has moved
   * past "a" too, and the root has grown to 0..1.
   */
  method DerivedChildAdvancesParent() returns (parentPos: nat, parentEnd: nat)
    ensures parentPos == 1 && parentEnd == 1
  {
    var root := new Span.New("ab");
    var child := root.Derive();
    var r := child.Expand(1);
    parentPos, parentEnd := root.indices.pos, root.bounds.end;
  }

  /**
   * A clone reads from a copy of the cursor: expanding the clone of a root
   * over "ab" leaves the original's cursor where it was.
   */
  method CloneKeepsCursorApart() returns (originalPos: nat, clonePos: nat)
    ensures originalPos == 0 && clonePos == 1
  {
    var original := new Span.New("ab");
    var copy := new Span.Clone(original);
    var r := copy.Expand(1);
    originalPos, clonePos := original.indices.pos, copy.indices.pos;
  }

  /**
   * Deriving a second child blocks the first: its `expand` is refused with
   * `BlockedResize` and the parent is left as it was.
   */
  method OlderSiblingIsBlocked() returns (r: Result<(), Error>, parentEnd: nat)
    ensures r == Err(BlockedResize) && parentEnd == 0
  {
    var root := new Span.New("ab");
    var first := root.Derive();
    var second := root.Derive();
    r := first.Expand(1);
    parentEnd := root.bounds.end;
  }

  /**
   * An ancestor's byte end is overwritten with the child's, not extended:
   * a root over "abcd" derives a child, expands itself by two (byte end 2),
   * then the child, still at 0..0, expands by one and sets the root's byte
   * end to 1.
   */
  method AncestorSliceEndCanShrink() returns (before: nat, after: nat)
    ensures before == 2 && after == 1
  {
    var root := new Span.New("abcd");
    var child := root.Derive();
    var r := root.Expand(2);
    before := root.sliceBounds.end;
    r := child.Expand(1);
    after := root.sliceBounds.end;
  }
}
