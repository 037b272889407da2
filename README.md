# arrseq/parser: span tree, intern table and builder probe

This project models the three pieces of bookkeeping at the core of the
`parser` crate, a recursive-descent parsing library, and proves what each
promises.

- **Span tree** (`src/span.rs`, module `Spans`). A `Span` covers part of
  the source twice: `bounds` counts characters and `sliceBounds` counts
  UTF-8 bytes. A span shares a character cursor with the spans derived from
  it. It keeps a weak link to its parent and a link to its latest child, and
  it is `blocked` once a younger sibling exists. `Expand` takes characters
  off the cursor and pushes the growth up through every ancestor until an
  ancestor that is blocked or deallocated stops it. `Derive` makes a new
  empty child and blocks the previous one. UTF-8 lengths (module `Utf8`)
  follow section 3 of RFC 3629.
- **Intern table** (`src/string.rs`, module `Interning`). This is an
  insertion-ordered map from text to token. `TryInternalize` is
  lookup-or-create: it returns the existing index, or appends the entry with
  the callback's token, or inserts nothing when the callback gives no token.
  An `Intern` handle reads its token through a `TokenGuard`.
- **Builder** (`src/lib.rs`, module `Builders`). `Test` peeks at one
  character and consumes it only when the predicate accepts it. `Derive`
  returns a builder over the same cursor, with a span derived from its own.

Shared `Rc<RefCell<...>>` cells are Dafny objects held by several owners;
`CharCursor.Cursor` stands for both `CharIndices` and `Peekable<Chars>`.
A parent whose `Weak` link no longer upgrades is a span whose `alive` flag
was cleared by `Drop`. The methods specify the new state of every field
they may change. The lookup is also given on values, as
`Interning.Internalize`, and the table's laws are proved as lemmas about
that function. `TryInternalize` is proved equal to it.

`Spans.Span.Stopper` is the nearest ancestor that is deallocated or
blocked. A growth that starts at a span reaches exactly the ancestors below
that one. Each of them gets `amount` more characters and takes the child's
byte end. Nothing above it changes. The error reported is
`ParentDeallocated` if the stopper is deallocated and `BlockedParentResize`
if it is blocked. Growth already applied below the stopper is kept.

An ancestor's byte end is overwritten with the child's byte end, not
extended (`src/span.rs:74`). So an ancestor's `sliceBounds.end` can
decrease when the ancestor was expanded after deriving the child.
`Spans.AncestorSliceEndCanShrink` proves a concrete case of this. A span's
own ends and every `bounds.end` only grow.

## Model

| member | source | states |
|---|---|---|
| Utf8.Utf8Len | src/span.rs:90 | `len_utf8`: 1 to 4 bytes per scalar value, by the code point ranges of RFC 3629 section 3 |
| Utf8.EncodeAgreesWithLength | src/span.rs:90 | the length matches the RFC 3629 encoding of the character: that many bytes, a lead byte announcing that length, continuation bytes after it, and decoding gives the code point back |
| Utf8.Width | src/span.rs:82-91 | the byte length of a text lies between its character count and four times it, and equals the character count exactly when every character is one byte |
| Utf8.WidthIsEncodedLength | src/span.rs:82-91 | the byte length of a text is the length of its UTF-8 encoding |
| Utf8.WidthAppend | src/span.rs:82-91 | byte lengths add up over concatenation |
| Utf8.WidthSplit | src/span.rs:82-91 | the byte length of a prefix is that of a shorter prefix plus the bytes between them |
| Utf8.WidthSnoc | src/span.rs:90 | taking one more character adds that character's UTF-8 length |
| CharCursor.Cursor.Peek | src/lib.rs:41 | the next character, `None` exactly when the input is exhausted, without moving |
| CharCursor.Cursor.Next | src/span.rs:83 | yields the character at the position and moves past it, or `None` with no move at the end |
| CharCursor.Cursor.Copy | src/span.rs:113 | a separate cursor with the same text and position |
| Spans.Span.New | src/span.rs:50-59 | a root span: both ranges 0..0, no parent, no child, not blocked, cursor at the start |
| Spans.Span.Child | src/span.rs:136-143 | the derived child: shares the cursor, empty byte range at the parent's byte end, empty character range at the given start, not blocked |
| Spans.Span.Clone | src/span.rs:109-119 | same ranges, links and blocked flag; the cursor is a fresh copy at the same position |
| Spans.Span.Drop | src/span.rs:97 | after the last strong handle goes, the span is no longer alive, so `upgrade` fails |
| Spans.Span.AncestorsAreHigher | src/span.rs:20-25 | every ancestor sits higher in the parent chain, so a span is never its own ancestor |
| Spans.Span.Stopper | src/span.rs:96-101 | the nearest deallocated or blocked ancestor; every ancestor below it is alive and unblocked |
| Spans.Span.Expand | src/span.rs:66-68 | blocked: `BlockedResize`, nothing changes. Too few characters left: `OutOfBounds`, nothing changes. Otherwise the cursor moves `amount` on, `bounds.end` grows by `amount`, `sliceBounds.end` grows by the bytes of the characters taken, both starts stay, the ancestors below the stopper grow to match, and the result names the stopper; a span in step with its cursor stays in step |
| Spans.Span.BackpropagationExpand | src/span.rs:70-106 | as `Expand`; when called from a child with its byte end, the cursor is not touched, the byte end is set to the child's, and `OutOfBounds` cannot occur |
| Spans.Span.TakeChars | src/span.rs:76-91 | succeeds exactly when `amount` characters remain; then the cursor moves `amount` on and the byte end grows by their UTF-8 lengths; otherwise cursor and byte end are restored |
| Spans.Span.GrowAndPropagate | src/span.rs:94-105 | `bounds.end` grows by `amount`; the ancestors below the stopper grow by `amount` and take this span's byte end; those above are unchanged |
| Spans.Span.PropagateToParent | src/span.rs:96-105 | no parent: `Ok`; deallocated parent: `ParentDeallocated`; a blocked ancestor: `BlockedParentResize`; growth reaches exactly the ancestors below the stopper |
| Spans.Span.Derive | src/span.rs:127-146 | the previous latest child becomes blocked; the new child shares the cursor and starts empty at the parent's byte end and at the previous child's character end (the parent's, without one); it becomes the latest child; the parent's ranges stay unchanged |
| Spans.DerivedChildAdvancesParent | src/span.rs:137 | a child's expansion moves the cursor the parent sees, and grows the parent |
| Spans.CloneKeepsCursorApart | src/span.rs:113 | expanding a clone leaves the original's cursor where it was |
| Spans.OlderSiblingIsBlocked | src/span.rs:130-133 | once a second child is derived, the first one's expansion is refused with `BlockedResize` and the parent does not grow |
| Spans.AncestorSliceEndCanShrink | src/span.rs:74 | an ancestor's byte end can decrease (2 to 1) when a child expands after the ancestor did |
| Interning.IndexOf | src/string.rs:24 | the lookup finds the first entry whose key is the text, and finds nothing exactly when no entry has that key |
| Interning.IndexOfDistinct | src/string.rs:24-28 | with distinct keys, the entry holding the text is the one found |
| Interning.InternalizeExisting | src/string.rs:24-28 | a key already present yields its own index and leaves the table unchanged, whatever the callback would give |
| Interning.InternalizeMissing | src/string.rs:29-38 | a missing key with a token is appended at the old length and that index is returned; without a token, nothing is inserted and no handle is returned |
| Interning.InternalizeAppendOnly | src/string.rs:24-38 | the table is unchanged or grows by the one new entry at the end, and its keys stay distinct |
| Interning.InternalizeHandle | src/string.rs:24-38 | a returned index holds the text, with the token already stored or the callback's new one; no handle exactly when the key is missing and the callback gives no token |
| Interning.InternalizeIdempotent | src/string.rs:24-38 | interning the same text again returns the same index and leaves the table as it is |
| Interning.ParserString.Deref | src/string.rs:56-62 | the text the string holds, whether borrowed or owned |
| Interning.Intern.Token | src/string.rs:89-95 | for a handle whose index is in the table, the guard dereferences to exactly the token stored at that index |
| Interning.TokenGuard.Deref | src/string.rs:81-87 | the token of the entry at the guard's index; with distinct keys, that entry's key is found at exactly this index |
| Interning.ParserString.SetOwned | src/string.rs:43-47 | the text becomes owned and `Deref` yields the same string as before |
| Interning.ParserString.TryInternalize | src/string.rs:17-41 | equals `Internalize` on the table. Present key: its index, table unchanged, callback not consulted. Missing key: callback consulted, and the entry is appended at the old length or nothing is inserted. Earlier entries keep their indices, keys stay distinct, and a handle's `Token().Deref()` is the token stored for the text |
| Builders.Builder.New | src/lib.rs:32-37 | the cursor is at the first character of the source; the span is an unblocked root with empty ranges and its own fresh cursor over the empty text |
| Builders.Builder.Derive | src/lib.rs:25-30 | the new builder shares the same cursor; its span is derived from this builder's span, with everything `Span.Derive` promises: it is a valid, unblocked, childless child one level below, the previous child is blocked, and the parent's ranges and blocked flag stay unchanged |
| Builders.DeriveTwiceThenExpand | src/lib.rs:25-37 | a builder derived from a derived builder can expand its span; over the default empty text it grows by zero characters and is refused one with `OutOfBounds` |
| Builders.Builder.Test | src/lib.rs:39-44 | input exhausted or predicate false: `None`, nothing consumed; predicate true: `Some` of the next character and the cursor moves by one; the outcome depends on the predicate only through its value on the peeked character |

## Left out

- `String::token` (src/string.rs:49-53) ends in `todo!()`. It has no lookup semantics to model.
- `Builder::parse` (src/lib.rs:46-48) has an empty body. The `Parsable` trait and `Node` have no behaviour.
- `Span::default()` (src/lib.rs:35) is not defined anywhere in the repository at this revision. `Builders.Builder.New` takes it to be a root span over the empty text.
- The builder's cursor and its span's cursor are separate objects, as in the source. Nothing in the modelled code keeps them in step.
- The `println!` on the out-of-bounds path (src/span.rs:84) is I/O.
- `RefCell` borrow panics are not modelled.
- `Weak` reference counting is not modelled. Liveness is the `alive` flag that `Drop` clears.
- Arithmetic is on unbounded naturals. The source uses plain `+=` on `usize`.
- The `test` and `on_create` closures are modelled by their results: a total `char -> bool`, and the `Option` token the callback would return. Side effects of the closures are not modelled.
- Interning.TokenGuard.Deref: requires the guard's index to be inside the table, so the panic that `&self.borrow[self.index]` raises on an out-of-range index (src/string.rs:85) is not modelled. Handles returned by `TryInternalize` are always in range, and the table only grows.
- The `test` and `on_create` closures are never called by the model, so "called at most once" is not proved about a call. What is proved is narrower. `Test`'s result and new position depend only on `test` applied to the peeked character. `TryInternalize`'s outcome depends on `on_create` only when the key is missing.
- `IndexMap` hashing is not modelled. The lookup is a scan for the key, which gives the same index when keys are distinct.
- `try_internalize` takes `self` by value. Here it is a method that leaves the string owned, and the caller may keep using it.
- `examples/`, `src/node/space.rs`, `src/snapshot.rs`, `src/error.rs` and `src/span/test.rs` are not part of this model. They are demos, rules over an undefined parser API, data-only structs, and a test without assertions.
- Unicode character classes are not modelled. Only the UTF-8 length of a character is.
