/**
 * The string intern table of src/string.rs. `Strings` is the shared,
 * insertion-ordered map from text to token (an `IndexMap` behind
 * `Rc<RefCell<...>>`); a parser string looks its text up in it and either
 * gets the index of the existing entry or appends a new one whose token a
 * callback supplies. An `Intern` handle is that index together with the
 * shared table, and reading its token goes through a `TokenGuard`.
 *
 * The callback `on_create` is modelled by the value it would return. The
 * contracts of `TryInternalize` show that this value matters only when the
 * key is missing; its ghost out-parameter `consulted` marks that case, by
 * the body's own bookkeeping rather than by observing a call.
 */
module Interning {
  import opened Wrappers

  /** The contents of an `IndexMap<String, Tok>`: its entries in insertion order. */
  type Entries<Tok> = seq<(string, Tok)>

  /** No key occurs twice, as in any map. */
  predicate DistinctKeys<Tok>(es: Entries<Tok>) {
    forall i, j :: 0 <= i < j < |es| ==> es[i].0 != es[j].0
  }

  /** The position of `key` in the table, as `IndexMap::entry` finds it. */
  function IndexOf<Tok>(es: Entries<Tok>, key: string): (r: Option<nat>)
    ensures r.Some? ==> r.value < |es| && es[r.value].0 == key
    ensures r.Some? ==> forall i :: 0 <= i < r.value ==> es[i].0 != key
    ensures r.None? <==> forall i :: 0 <= i < |es| ==> es[i].0 != key
  {
    if |es| == 0 then None
    else if es[0].0 == key then Some(0)
    else match IndexOf(es[1..], key) {
      case None => None
      case Some(i) => Some(i + 1)
    }
  }

  /** In a table with distinct keys, the entry holding `key` is the one `IndexOf` finds. */
  lemma IndexOfDistinct<Tok>(es: Entries<Tok>, key: string, i: nat)
    requires DistinctKeys(es) && i < |es| && es[i].0 == key
    ensures IndexOf(es, key) == Some(i)
  {
  }

  /** The table after a lookup-or-create, and the index handed out (`None`: no handle). */
  datatype Outcome<Tok> = Outcome(entries: Entries<Tok>, index: Option<nat>)

  /**
   * `try_internalize` on values: an existing key yields its index and leaves
   * the table alone; a missing key is appended with the token `onCreate`
   * supplies, or, when it supplies none, nothing is inserted and no index
   * is returned.
   */
  function Internalize<Tok>(es: Entries<Tok>, key: string, onCreate: Option<Tok>): Outcome<Tok> {
    match IndexOf(es, key) {
      case Some(i) => Outcome(es, Some(i))
      case None =>
        match onCreate {
          case None => Outcome(es, None)
          case Some(token) => Outcome(es + [(key, token)], Some(|es|))
        }
    }
  }

  /** A key already in the table: its own index comes back, whatever the callback would supply. */
  lemma InternalizeExisting<Tok>(es: Entries<Tok>, key: string, onCreate: Option<Tok>, i: nat)
    requires DistinctKeys(es) && i < |es| && es[i].0 == key
    ensures Internalize(es, key, onCreate) == Outcome(es, Some(i))
  {
  }

  /** A missing key: appended at the old length when the callback supplies a token, otherwise nothing. */
  lemma InternalizeMissing<Tok>(es: Entries<Tok>, key: string, onCreate: Option<Tok>)
    requires forall i :: 0 <= i < |es| ==> es[i].0 != key
    ensures onCreate.Some? ==> Internalize(es, key, onCreate) == Outcome(es + [(key, onCreate.value)], Some(|es|))
    ensures onCreate.None? ==> Internalize(es, key, onCreate) == Outcome(es, None)
  {
  }

  /**
   * The table only grows, by at most one entry at the end: every entry
   * already there keeps its index, key and token, and keys stay distinct.
   */
  lemma InternalizeAppendOnly<Tok>(es: Entries<Tok>, key: string, onCreate: Option<Tok>)
    requires DistinctKeys(es)
    ensures var o := Internalize(es, key, onCreate);
      && (o.entries == es || o.entries == es + [(key, onCreate.value)])
      && DistinctKeys(o.entries)
  {
  }

  /**
   * A returned index names the entry for `key`, whose token is the one
   * already stored under it or, when the entry is new, the callback's.
   */
  lemma InternalizeHandle<Tok>(es: Entries<Tok>, key: string, onCreate: Option<Tok>)
    ensures var o := Internalize(es, key, onCreate);
      o.index.Some? ==>
        && o.index.value < |o.entries|
        && o.entries[o.index.value].0 == key
        && o.entries[o.index.value].1 ==
             if IndexOf(es, key).Some? then es[IndexOf(es, key).value].1 else onCreate.value
    ensures Internalize(es, key, onCreate).index.None? <==> IndexOf(es, key).None? && onCreate.None?
  {
  }

  /**
   * Interning the same text twice: once the first call handed out an index,
   * the second returns the same index, leaves the table alone and never
   * needs its callback.
   */
  lemma {:induction false} InternalizeIdempotent<Tok>(es: Entries<Tok>, key: string, first: Option<Tok>, second: Option<Tok>)
    requires DistinctKeys(es)
    requires Internalize(es, key, first).index.Some?
    ensures var o := Internalize(es, key, first);
      && IndexOf(o.entries, key).Some?
      && Internalize(o.entries, key, second) == o
  {
    var o := Internalize(es, key, first);
    InternalizeAppendOnly(es, key, first);
    InternalizeHandle(es, key, first);
    InternalizeExisting(o.entries, key, second, o.index.value);
  }

  /** `Strings<Token>`: the shared table. */
  class Strings<Tok> {
    var entries: Entries<Tok>

    ghost predicate Valid()
      reads this`entries
    {
      DistinctKeys(entries)
    }

    /** An empty table. */
    constructor ()
      ensures entries == [] && Valid()
    {
      entries := [];
    }
  }

  /** `Cow<'a, str>`: text borrowed from the source, or an owned copy. */
  datatype Cow = Borrowed(text: string) | Owned(text: string)

  /** `Intern<Token>`: a handle to the entry at `index` of a shared table. */
  datatype Intern<Tok> = Intern(strings: Strings<Tok>, index: nat) {
    /** `Intern::token`: a read guard on the table, at this handle's index. */
    function Token(): (g: TokenGuard<Tok>)
      reads strings`entries
      ensures index < |strings.entries| ==> g.index < |g.borrow.entries| && g.Deref() == strings.entries[index].1
    {
      TokenGuard(strings, index)
    }
  }

  /** `TokenGuard`: a shared borrow of the table plus an index. */
  datatype TokenGuard<Tok> = TokenGuard(borrow: Strings<Tok>, index: nat) {
    /** `Deref for TokenGuard`: the token stored at the index (Rust panics when it is out of range). */
    function Deref(): (t: Tok)
      reads borrow`entries
      requires index < |borrow.entries|
      ensures borrow.entries[index] == (borrow.entries[index].0, t)
      ensures DistinctKeys(borrow.entries) ==> IndexOf(borrow.entries, borrow.entries[index].0) == Some(index)
    {
      borrow.entries[index].1
    }
  }

  /**
   * The library's own `String`: a piece of text, borrowed or owned, tied to
   * the table it is interned into.
   */
  class ParserString<Tok> {
    const strings: Strings<Tok>
    var slice: Cow

    constructor (strings: Strings<Tok>, slice: Cow)
      ensures this.strings == strings && this.slice == slice
    {
      this.strings, this.slice := strings, slice;
    }

    /** `Deref for String`: the text, whichever way it is held. */
    function Deref(): (s: string)
      reads this`slice
      ensures slice == Borrowed(s) || slice == Owned(s)
    {
      slice.text
    }

    /** `set_owned`: a borrowed text becomes an owned copy; the text itself does not change. */
    method SetOwned()
      modifies this`slice
      ensures slice.Owned?
      ensures Deref() == old(Deref())
      ensures old(slice.Owned?) ==> slice == old(slice)
    {
      if slice.Borrowed? {
        slice := Owned(slice.text);
      }
    }

    /**
     * `try_internalize`: makes the text owned, then looks it up in the shared
     * table. An existing key yields a handle to its index without consulting
     * the callback; a missing key consults it and, given a token, appends
     * the entry at the old length and yields a handle to it, and otherwise
     * returns `None` with the table untouched.
     */
    method TryInternalize(onCreate: Option<Tok>) returns (r: Option<Intern<Tok>>, ghost consulted: bool)
      requires strings.Valid()
      modifies this`slice, strings`entries
      ensures strings.Valid()
      ensures slice == Owned(old(Deref()))
      ensures var o := Internalize(old(strings.entries), old(Deref()), onCreate);
        && strings.entries == o.entries
        && r == if o.index.Some? then Some(Intern(strings, o.index.value)) else None
      ensures consulted <==> forall i :: 0 <= i < old(|strings.entries|) ==> old(strings.entries[i].0) != old(Deref())
      ensures !consulted ==>
        && strings.entries == old(strings.entries) && r.Some?
        && old(strings.entries[r.value.index].0) == old(Deref())
      ensures consulted && onCreate.None? ==> r.None? && strings.entries == old(strings.entries)
      ensures consulted && onCreate.Some? ==>
        && strings.entries == old(strings.entries) + [(old(Deref()), onCreate.value)]
        && r == Some(Intern(strings, old(|strings.entries|)))
      ensures r.Some? ==>
        && r.value.index < |strings.entries| && strings.entries[r.value.index].0 == old(Deref())
        && r.value.Token().Deref() == if consulted then onCreate.value else old(strings.entries[r.value.index].1)
    {
      InternalizeAppendOnly(strings.entries, slice.text, onCreate);
      InternalizeHandle(strings.entries, slice.text, onCreate);
      SetOwned();
      var key := slice.text;
      match IndexOf(strings.entries, key) {
        case Some(i) =>
          r, consulted := Some(Intern(strings, i)), false;
        case None =>
          consulted := true;
          match onCreate {
            case None =>
              return None, consulted;
            case Some(token) =>
              var index := |strings.entries|;
              strings.entries := strings.entries + [(key, token)];
              r := Some(Intern(strings, index));
          }
      }
    }
  }
}
