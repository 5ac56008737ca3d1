/**
 * The public catalog routes of `router/general.js`: the synchronous handlers
 * (Tasks 1-5) and their Promise/async twins (Tasks 10-13). Each route is a
 * query over an immutable store that yields a structured response; the
 * JSON text of the body is not modelled.
 */
module General {
  import opened Wrappers
  import opened Text
  import opened Catalog

  /** What a handler answers: 200 with a value, 400 or 404. */
  datatype Response<T> = Ok(value: T) | BadRequest | NotFound

  /** 404 for an empty match list, 200 otherwise. */
  function Respond(matched: seq<Book>): Response<seq<Book>> {
    if |matched| == 0 then NotFound else Ok(matched)
  }

  /** A book's reviews, `{}` when the field is absent. */
  function ReviewsOf(b: Book): map<string, Review> {
    b.reviews.GetOr(map[])
  }

  /** GET '/': the whole catalog. Every key reads back its own book. */
  function GetAll(store: Store): (r: Response<Store>)
    ensures r.Ok?
    ensures |r.value| == |store|
    ensures KeysDistinct(store) ==>
      forall i :: 0 <= i < |store| ==> Lookup(r.value, store[i].0) == Some(store[i].1)
  {
    Ok(store)
  }

  /** GET '/async/books': the Promise twin of GetAll, with the same payload. */
  function AsyncGetAll(store: Store): (r: Response<Store>)
    ensures r == GetAll(store)
  {
    Ok(store)
  }

  /** GET '/isbn/:isbn'. An empty id is refused before the store is read. */
  function GetByIsbn(store: Store, id: string): (r: Response<Book>)
    ensures r.BadRequest? <==> id == ""
    ensures r.NotFound? <==> id != "" && !HasKey(store, id)
    ensures r.Ok? ==> exists i :: 0 <= i < |store| && store[i] == (id, r.value)
    ensures id != "" && KeysDistinct(store) ==>
      forall i :: 0 <= i < |store| && store[i].0 == id ==> r == Ok(store[i].1)
  {
    if id == "" then BadRequest
    else
      match Lookup(store, id)
      case Some(b) => Ok(b)
      case None => NotFound
  }

  /**
   * GET '/async/isbn/:isbn'. There is no empty-id guard: a missing book is
   * the only failure.
   */
  function AsyncGetByIsbn(store: Store, id: string): (r: Response<Book>)
    ensures !r.BadRequest?
    ensures r.NotFound? <==> !HasKey(store, id)
    ensures r.Ok? ==> exists i :: 0 <= i < |store| && store[i] == (id, r.value)
  {
    match Lookup(store, id)
    case Some(b) => Ok(b)
    case None => NotFound
  }

  /**
   * The two ISBN routes agree on every non-empty id; on the empty id the
   * synchronous route answers 400 where the async one looks the key up.
   */
  lemma IsbnSyncAsyncAgree(store: Store, id: string)
    ensures id != "" ==> GetByIsbn(store, id) == AsyncGetByIsbn(store, id)
    ensures id == "" ==> GetByIsbn(store, id) == BadRequest && !AsyncGetByIsbn(store, id).BadRequest?
  {
  }

  /**
   * The indexed `for` loop over `Object.keys(books)` that collects every
   * book `books[keys[i]]` whose field matches the query (Tasks 3 and 4).
   */
  method CollectMatches(store: Store, f: Field, query: string) returns (matched: seq<Book>)
    requires KeysDistinct(store)
    ensures matched == Filter(store, f, query)
    ensures forall j :: 0 <= j < |matched| ==> Matches(matched[j], f, query)
  {
    matched := [];
    var i := 0;
    while i < |store|
      invariant 0 <= i <= |store|
      invariant matched == Filter(store[..i], f, query)
    {
      var key := store[i].0;
      var b := Lookup(store, key).value;
      if Matches(b, f, query) {
        matched := matched + [b];
      }
      assert store[..i + 1][..i] == store[..i];
      i := i + 1;
    }
    assert store[..|store|] == store;
  }

  /**
   * GET '/author/:author'. 400 for an empty query; otherwise 404 exactly
   * when no book's author equals the query up to case, else the match list,
   * which is also what the async twin computes.
   */
  method GetByAuthor(store: Store, author: string) returns (r: Response<seq<Book>>)
    requires KeysDistinct(store)
    ensures r.BadRequest? <==> author == ""
    ensures r.NotFound? <==>
      author != "" && forall i :: 0 <= i < |store| ==> !Matches(store[i].1, Author, author)
    ensures r.Ok? ==> |r.value| > 0 && r.value == Filter(store, Author, author)
    ensures author != "" ==> r == AsyncGetByAuthor(store, author)
  {
    if author == "" {
      return BadRequest;
    }
    var matched := CollectMatches(store, Author, author);
    FilterEmptyIff(store, Author, author);
    if |matched| == 0 {
      return NotFound;
    }
    return Ok(matched);
  }

  /** GET '/title/:title': GetByAuthor on the title field. */
  method GetByTitle(store: Store, title: string) returns (r: Response<seq<Book>>)
    requires KeysDistinct(store)
    ensures r.BadRequest? <==> title == ""
    ensures r.NotFound? <==>
      title != "" && forall i :: 0 <= i < |store| ==> !Matches(store[i].1, Title, title)
    ensures r.Ok? ==> |r.value| > 0 && r.value == Filter(store, Title, title)
    ensures title != "" ==> r == AsyncGetByTitle(store, title)
  {
    if title == "" {
      return BadRequest;
    }
    var matched := CollectMatches(store, Title, title);
    FilterEmptyIff(store, Title, title);
    if |matched| == 0 {
      return NotFound;
    }
    return Ok(matched);
  }

  /**
   * GET '/async/author/:author' (`keys.forEach` inside a Promise). No empty
   * guard: an empty query matches nothing and so answers 404, never 400.
   */
  function AsyncGetByAuthor(store: Store, author: string): (r: Response<seq<Book>>)
    ensures !r.BadRequest?
    ensures r.NotFound? <==> forall i :: 0 <= i < |store| ==> !Matches(store[i].1, Author, author)
    ensures r.Ok? ==> forall j :: 0 <= j < |r.value| ==> Matches(r.value[j], Author, author)
    ensures author == "" ==> r == NotFound
  {
    FilterEmptyIff(store, Author, author);
    EmptyQueryFindsNothing(store, Author, author);
    var matched := Filter(store, Author, author);
    Respond(matched)
  }

  /**
   * GET '/async/title/:title': AsyncGetByAuthor on the title field. Task 13
   * collects with the same indexed loop as Task 4, which CollectMatches
   * proves equal to Filter.
   */
  function AsyncGetByTitle(store: Store, title: string): (r: Response<seq<Book>>)
    ensures !r.BadRequest?
    ensures r.NotFound? <==> forall i :: 0 <= i < |store| ==> !Matches(store[i].1, Title, title)
    ensures r.Ok? ==> forall j :: 0 <= j < |r.value| ==> Matches(r.value[j], Title, title)
    ensures title == "" ==> r == NotFound
  {
    FilterEmptyIff(store, Title, title);
    EmptyQueryFindsNothing(store, Title, title);
    var matched := Filter(store, Title, title);
    Respond(matched)
  }

  /**
   * GET '/review/:isbn'. Unknown ids answer 404; a known book answers with
   * its reviews, `{}` when it has none. There is no 400 branch.
   */
  function GetReviews(store: Store, id: string): (r: Response<map<string, Review>>)
    ensures !r.BadRequest?
    ensures r.NotFound? <==> !HasKey(store, id)
    ensures KeysDistinct(store) ==>
      forall i :: 0 <= i < |store| && store[i].0 == id ==> r == Ok(ReviewsOf(store[i].1))
    ensures r.Ok? && r.value != map[] ==>
      exists i :: 0 <= i < |store| && store[i].0 == id && store[i].1.reviews == Some(r.value)
  {
    match Lookup(store, id)
    case Some(b) => Ok(ReviewsOf(b))
    case None => NotFound
  }

  /** The single-book catalog of the author scenario. */
  function GatsbyStore(): Store {
    [("9783161484100", Book(Some("The Great Gatsby"), Some("F. Scott Fitzgerald"), None))]
  }

  /**
   * The author search matches the whole name in any case and does not match
   * a part of it.
   */
  lemma AuthorScenario()
    ensures AsyncGetByAuthor(GatsbyStore(), "f. scott fitzgerald") == Ok([GatsbyStore()[0].1])
    ensures AsyncGetByAuthor(GatsbyStore(), "Fitzgerald") == NotFound
  {
    var b := GatsbyStore()[0].1;
    assert Lower("F. Scott Fitzgerald") == Lower("f. scott fitzgerald");
    DifferentLengthsNeverMatch("F. Scott Fitzgerald", "Fitzgerald");
    assert GatsbyStore()[..0] == [];
    assert Matches(b, Author, "f. scott fitzgerald");
    assert Filter(GatsbyStore(), Author, "f. scott fitzgerald") == [b];
  }

  /**
   * A review whose rating was sent as the number 5 is read back unchanged,
   * together with the text stored beside it.
   */
  lemma NumericRatingReadBack()
    ensures GetReviews([("1", Book(None, None, Some(map["alice" := Review(Some(JsonString("great")), Some(JsonNumber(5.0)))])))], "1")
      == Ok(map["alice" := Review(Some(JsonString("great")), Some(JsonNumber(5.0)))])
  {
  }
}
