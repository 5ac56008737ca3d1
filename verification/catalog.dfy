/**
 * The in-memory book catalog (`booksdb.js`'s `books` object) as an immutable
 * sequence of (ISBN, book) entries in `Object.keys` enumeration order, and the
 * two primitive reads the route handlers build on: `books[isbn]` and the
 * per-field match used by the author and title filters.
 */
module Catalog {
  import opened Wrappers
  import opened Text

  /**
   * A scalar JSON value as a request body or query string delivers it; the
   * review routes store `review` and `rating` exactly as sent.
   */
  datatype JsonScalar = JsonNull | JsonBool(b: bool) | JsonNumber(n: real) | JsonString(s: string)

  /** One user's review; the read-only queries pass it through untouched. */
  datatype Review = Review(review: Option<JsonScalar>, rating: Option<JsonScalar>)

  /** A book record. Every field may be absent, as in a plain JavaScript object. */
  datatype Book = Book(
    title: Option<string>,
    author: Option<string>,
    reviews: Option<map<string, Review>>
  )

  type Entry = (string, Book)

  /** `books`, enumerated as `Object.keys(books)` enumerates it. */
  type Store = seq<Entry>

  /** The fields the filters search on. */
  datatype Field = Author | Title

  /** Keys of a JavaScript object are distinct. */
  ghost predicate KeysDistinct(store: Store) {
    forall i, j :: 0 <= i < j < |store| ==> store[i].0 != store[j].0
  }

  ghost predicate HasKey(store: Store, key: string) {
    exists i :: 0 <= i < |store| && store[i].0 == key
  }

  /** `books[key]`: the book stored under `key`, or `undefined`. */
  function Lookup(store: Store, key: string): (r: Option<Book>)
    ensures r.None? <==> !HasKey(store, key)
    ensures r.Some? ==> exists i :: 0 <= i < |store| && store[i] == (key, r.value)
    ensures KeysDistinct(store) ==>
      forall i :: 0 <= i < |store| && store[i].0 == key ==> r == Some(store[i].1)
  {
    if |store| == 0 then None
    else if store[0].0 == key then Some(store[0].1)
    else
      var r := Lookup(store[1..], key);
      assert forall i :: 1 <= i < |store| ==> store[i] == store[1..][i - 1];
      assert HasKey(store[1..], key) ==> HasKey(store, key);
      r
  }

  /** JavaScript truthiness of an optional string: present and non-empty. */
  predicate Truthy(s: Option<string>) {
    s.Some? && s.value != ""
  }

  function FieldOf(b: Book, f: Field): Option<string> {
    match f
    case Author => b.author
    case Title => b.title
  }

  /** `b.<field> && b.<field>.toLowerCase() === query.toLowerCase()`. */
  predicate Matches(b: Book, f: Field, query: string)
  {
    Truthy(FieldOf(b, f)) && SameIgnoringCase(FieldOf(b, f).value, query)
  }

  /**
   * A matching field has exactly the query's length, so a match is a whole
   * string and never a part of one, and the query itself is non-empty.
   */
  lemma MatchIsWholeString(b: Book, f: Field, query: string)
    requires Matches(b, f, query)
    ensures query != "" && |FieldOf(b, f).value| == |query|
  {
  }

  /**
   * The match list as the `keys.forEach(k => ... matched.push(b))` fold
   * builds it: the matches among all but the last entry, then the last entry
   * if it matches.
   */
  function Filter(store: Store, f: Field, query: string): (r: seq<Book>)
    ensures |r| <= |store|
    ensures forall j :: 0 <= j < |r| ==> Matches(r[j], f, query)
  {
    if |store| == 0 then []
    else
      var prev := Filter(store[..|store| - 1], f, query);
      var b := store[|store| - 1].1;
      if Matches(b, f, query) then prev + [b] else prev
  }

  /**
   * The positions of the matching entries, in increasing order: an
   * independent description of which entries a filter must return.
   */
  ghost function MatchPositions(store: Store, f: Field, query: string): (r: seq<nat>)
    ensures forall j :: 0 <= j < |r| ==> r[j] < |store|
    ensures forall j, k :: 0 <= j < k < |r| ==> r[j] < r[k]
    ensures forall i :: 0 <= i < |store| ==> (i in r <==> Matches(store[i].1, f, query))
  {
    if |store| == 0 then []
    else
      var n := |store| - 1;
      var prev := MatchPositions(store[..n], f, query);
      assert forall i :: 0 <= i < n ==> store[..n][i] == store[i];
      if Matches(store[n].1, f, query) then prev + [n] else prev
  }

  /**
   * Exactness and order of the filter: the j-th returned book is the book of
   * the j-th matching entry, so every matching entry appears exactly once,
   * in store order, and nothing else appears.
   */
  lemma {:induction false} FilterIsMatchesInOrder(store: Store, f: Field, query: string)
    ensures |Filter(store, f, query)| == |MatchPositions(store, f, query)|
    ensures forall j :: 0 <= j < |Filter(store, f, query)| ==>
      Filter(store, f, query)[j] == store[MatchPositions(store, f, query)[j]].1
  {
    if |store| > 0 {
      var n := |store| - 1;
      var prev, pos := Filter(store[..n], f, query), MatchPositions(store[..n], f, query);
      FilterIsMatchesInOrder(store[..n], f, query);
      var r, rp := Filter(store, f, query), MatchPositions(store, f, query);
      if Matches(store[n].1, f, query) {
        assert r == prev + [store[n].1];
        assert rp == pos + [n];
      } else {
        assert r == prev;
        assert rp == pos;
      }
      forall j | 0 <= j < |r|
        ensures r[j] == store[rp[j]].1
      {
        if j < |prev| {
          assert r[j] == prev[j];
          assert rp[j] == pos[j];
          assert store[..n][pos[j]] == store[pos[j]];
        }
      }
    }
  }

  /** Completeness: the book of every matching entry is returned. */
  lemma {:induction false} FilterComplete(store: Store, f: Field, query: string, i: int)
    requires 0 <= i < |store|
    requires Matches(store[i].1, f, query)
    ensures store[i].1 in Filter(store, f, query)
  {
    var pos := MatchPositions(store, f, query);
    FilterIsMatchesInOrder(store, f, query);
    var j :| 0 <= j < |pos| && pos[j] == i;
    assert Filter(store, f, query)[j] == store[i].1;
  }

  /** A filter comes back empty exactly when no entry matches. */
  lemma {:induction false} FilterEmptyIff(store: Store, f: Field, query: string)
    ensures |Filter(store, f, query)| == 0 <==>
      forall i :: 0 <= i < |store| ==> !Matches(store[i].1, f, query)
  {
    if i :| 0 <= i < |store| && Matches(store[i].1, f, query) {
      FilterComplete(store, f, query, i);
    } else if |Filter(store, f, query)| > 0 {
      var first := Filter(store, f, query)[0];
      FilterIsMatchesInOrder(store, f, query);
      assert false;
    }
  }

  /**
   * A book whose field is absent or empty is never returned, and an empty
   * query returns nothing at all.
   */
  lemma FalsyNeverMatches(b: Book, f: Field, query: string)
    ensures !Truthy(FieldOf(b, f)) ==> !Matches(b, f, query)
    ensures query == "" ==> !Matches(b, f, query)
  {
    if Truthy(FieldOf(b, f)) && query == "" {
      EmptyMatchesOnlyEmpty(FieldOf(b, f).value);
    }
  }

  /** The empty query comes back with an empty match list. */
  lemma {:induction false} EmptyQueryFindsNothing(store: Store, f: Field, query: string)
    ensures query == "" ==> Filter(store, f, query) == []
  {
    var r := Filter(store, f, query);
    if query == "" && |r| > 0 {
      FalsyNeverMatches(r[0], f, query);
    }
  }
}
