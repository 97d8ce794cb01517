/** routes/books.js: the public catalog (search, the list of libraries, one book) and the
    private favorites registry behind the bearer-token gate. */
module Catalog {
  import opened Wrappers
  import opened Collections
  import opened Tokens
  import opened Store
  import Text
  import Gate

  const InvalidBookIdMessage := "Invalid book ID format"
  const BookNotFoundMessage := "Book not found"
  const AlreadyFavoriteMessage := "Book already in favorites"
  const FavoriteNotFoundMessage := "Favorite not found"
  const SearchFailedMessage := "Search failed"

  // ---------------------------------------------------------------------------
  // Search

  /** A request's query-string parameter; `None` is `undefined`. */
  function Param(params: map<string, string>, key: string): Option<string>
  {
    if key in params then Some(params[key]) else None
  }

  /** The Mongo filter the search handler builds. `year` is `Some(None)` when
      `parseInt` gave `NaN`, which Mongoose refuses to cast to a Number, so that
      `find` rejects the whole filter. */
  datatype Query = Query(
    title: Option<string>,
    author: Option<string>,
    year: Option<Option<int>>,
    genre: Option<string>,
    library: Option<string>)

  /** `Book.find(query)`'s test of one document: every condition present in the filter
      holds. A regular expression on a path the document lacks (a book without a
      genre) does not match. */
  predicate Matches(q: Query, b: Book)
  {
    && (q.title.Some? ==> Text.ContainsIgnoreCase(b.title, q.title.value))
    && (q.author.Some? ==> Text.ContainsIgnoreCase(b.author, q.author.value))
    && (q.year.Some? ==> q.year.value == Some(b.publicationYear))
    && (q.genre.Some? ==> b.genre.Some? && Text.ContainsIgnoreCase(b.genre.value, q.genre.value))
    && (q.library.Some? ==> b.libraryName == q.library.value)
  }

  /** What a search asks for, criterion by criterion: each parameter given a non-empty
      value constrains its field, and the constraints are all required together. */
  predicate Wanted(params: map<string, string>, b: Book)
  {
    && (Given(Param(params, "title")) ==> Text.ContainsIgnoreCase(b.title, params["title"]))
    && (Given(Param(params, "author")) ==> Text.ContainsIgnoreCase(b.author, params["author"]))
    && (Given(Param(params, "publicationYear")) ==>
          Text.ParseInt(params["publicationYear"]) == Some(b.publicationYear))
    && (Given(Param(params, "genre")) ==>
          b.genre.Some? && Text.ContainsIgnoreCase(b.genre.value, params["genre"]))
    && (Given(Param(params, "library")) ==> b.libraryName == params["library"])
  }

  /** The year parameter is given but `parseInt` reads no digits from it. */
  predicate YearUnreadable(params: map<string, string>)
  {
    Given(Param(params, "publicationYear")) && Text.ParseInt(params["publicationYear"]).None?
  }

  /** No search parameter carries a non-empty value. */
  predicate NoCriteria(params: map<string, string>)
  {
    && !Given(Param(params, "title")) && !Given(Param(params, "author"))
    && !Given(Param(params, "publicationYear")) && !Given(Param(params, "genre"))
    && !Given(Param(params, "library"))
  }

  /** The filter, one field assignment per truthy parameter. */
  method BuildQuery(params: map<string, string>) returns (q: Query)
    ensures forall b :: Matches(q, b) <==> Wanted(params, b)
    ensures q.year == Some(None) <==> YearUnreadable(params)
  {
    q := Query(None, None, None, None, None);
    var title := Param(params, "title");
    if Given(title) {
      q := q.(title := Some(title.value));
    }
    var author := Param(params, "author");
    if Given(author) {
      q := q.(author := Some(author.value));
    }
    var year := Param(params, "publicationYear");
    if Given(year) {
      q := q.(year := Some(Text.ParseInt(year.value)));
    }
    var genre := Param(params, "genre");
    if Given(genre) {
      q := q.(genre := Some(genre.value));
    }
    var library := Param(params, "library");
    if Given(library) {
      q := q.(library := Some(library.value));
    }
  }

  /** `GET /api/books/search`: the books the filter matches, in catalog order, or
      500 when the year cannot be cast to a Number. */
  method Search(books: seq<Book>, params: map<string, string>) returns (r: Reply<seq<Book>>)
    ensures YearUnreadable(params) <==> r == Fail(500, SearchFailedMessage)
    ensures r.Fail? ==> YearUnreadable(params)
    ensures r.Ok? ==> r.value == Filter(books, (b: Book) => Wanted(params, b))
  {
    var q := BuildQuery(params);
    if q.year == Some(None) {
      return Fail(500, SearchFailedMessage);
    }
    var found := Filter(books, (b: Book) => Matches(q, b));
    FilterAgree(books, (b: Book) => Matches(q, b), (b: Book) => Wanted(params, b));
    r := Ok(found);
  }

  /** A search without criteria returns the whole catalog. */
  lemma NoCriteriaFindsAll(books: seq<Book>, params: map<string, string>)
    requires NoCriteria(params)
    ensures Filter(books, (b: Book) => Wanted(params, b)) == books
  {
    FilterAll(books, (b: Book) => Wanted(params, b));
  }

  /** A search by title alone finds every book whose title contains the text verbatim. */
  lemma TitleSearchFindsExactText(books: seq<Book>, title: string, b: Book, i: nat)
    requires title != "" && b in books && Text.OccursAt(b.title, title, i)
    ensures b in Filter(books, (c: Book) => Wanted(map["title" := title], c))
  {
    Text.ExactOccurrenceMatches(b.title, title, i);
    FilterMembers(books, (c: Book) => Wanted(map["title" := title], c));
  }

  /** A search by the decimal text of a year is answered (the text casts to a Number)
      and finds exactly the books of that year. */
  lemma YearSearchFindsThatYear(books: seq<Book>, year: int)
    ensures !YearUnreadable(map["publicationYear" := Text.IntToString(year)])
    ensures forall b :: (b in Filter(books, (c: Book) => Wanted(map["publicationYear" := Text.IntToString(year)], c))
      <==> b in books && b.publicationYear == year)
  {
    var wanted := (c: Book) => Wanted(map["publicationYear" := Text.IntToString(year)], c);
    Text.ParseIntOfIntToString(year);
    FilterMembers(books, wanted);
    forall b
      ensures b in Filter(books, wanted) <==> b in books && b.publicationYear == year
    {
      YearCriterion(year, b);
    }
  }

  /** The year criterion alone: the decimal text of `year` asks for that year exactly. */
  lemma YearCriterion(year: int, b: Book)
    ensures Wanted(map["publicationYear" := Text.IntToString(year)], b) <==> b.publicationYear == year
  {
    var text := Text.IntToString(year);
    var params := map["publicationYear" := text];
    assert params.Keys == {"publicationYear"};
    assert Param(params, "title") == None by { assert |"title"| != |"publicationYear"|; }
    assert Param(params, "author") == None by { assert |"author"| != |"publicationYear"|; }
    assert Param(params, "genre") == None by { assert |"genre"| != |"publicationYear"|; }
    assert Param(params, "library") == None by { assert |"library"| != |"publicationYear"|; }
    assert Param(params, "publicationYear") == Some(text);
    Text.ParseIntOfIntToString(year);
  }

  // ---------------------------------------------------------------------------
  // Libraries

  function LibraryNames(books: seq<Book>): (names: seq<string>)
    ensures |names| == |books|
    ensures forall i :: 0 <= i < |books| ==> names[i] == books[i].libraryName
  {
    seq(|books|, i requires 0 <= i < |books| => books[i].libraryName)
  }

  predicate HasLibrary(books: seq<Book>, name: string)
  {
    exists b :: b in books && b.libraryName == name
  }

  /** `Book.distinct('library_name')`, each name wrapped as `{ name }` by the handler. */
  function Libraries(books: seq<Book>): (names: seq<string>)
    ensures NoDuplicates(names)
    ensures forall n :: n in names <==> HasLibrary(books, n)
  {
    var all := LibraryNames(books);
    assert forall n :: n in all <==> HasLibrary(books, n) by {
      forall n | HasLibrary(books, n)
        ensures n in all
      {
        var b :| b in books && b.libraryName == n;
        var i :| 0 <= i < |books| && books[i] == b;
        assert all[i] == n;
      }
    }
    Distinct(all)
  }

  /** Every library that holds a book is listed exactly once, and nothing else is. */
  lemma LibrariesListedOnce(books: seq<Book>, name: string)
    ensures multiset(Libraries(books))[name] == if HasLibrary(books, name) then 1 else 0
  {
    NoDuplicatesCount(Libraries(books), name);
  }

  // ---------------------------------------------------------------------------
  // One book

  /** `GET /api/books/:id`. */
  function GetBook(books: seq<Book>, env: Env, id: string): (r: Reply<Book>)
    ensures !env.isValidId(id) ==> r == Fail(400, InvalidBookIdMessage)
    ensures env.isValidId(id) && (forall b :: b in books ==> b.id != id) ==> r == Fail(404, BookNotFoundMessage)
    ensures r.Ok? <==> env.isValidId(id) && exists b :: b in books && b.id == id
    ensures r.Ok? ==> r.value in books && r.value.id == id
  {
    if !env.isValidId(id) then Fail(400, InvalidBookIdMessage)
    else
      match FindBook(books, id)
      case None => Fail(404, BookNotFoundMessage)
      case Some(b) => Ok(b)
  }

  // ---------------------------------------------------------------------------
  // Favorites

  function AddedAt(f: Favorite): int
  {
    f.addedAt
  }

  /** `populate('bookId')` finds the favorite's book. */
  predicate Resolves(books: seq<Book>, f: Favorite)
  {
    FindBook(books, f.bookId).Some?
  }

  /** `Favorite.find({ userId }).sort({ addedAt: -1 })` with the favorites whose book no
      longer resolves filtered out. */
  function MyFavorites(favorites: seq<Favorite>, books: seq<Book>, user: Id): (r: seq<Favorite>)
    ensures SortedDesc(r, AddedAt)
    ensures forall f :: multiset(r)[f] == if f.userId == user && Resolves(books, f) then multiset(favorites)[f] else 0
    ensures forall i :: 0 <= i < |r| ==> r[i].userId == user && Resolves(books, r[i])
  {
    var mine := Filter(favorites, (f: Favorite) => f.userId == user);
    FilterCounts(favorites, (f: Favorite) => f.userId == user);
    var sorted := SortDesc(mine, AddedAt);
    FilterKeepsSorted(sorted, (f: Favorite) => Resolves(books, f), AddedAt);
    var r := Filter(sorted, (f: Favorite) => Resolves(books, f));
    FilterCounts(sorted, (f: Favorite) => Resolves(books, f));
    forall f
      ensures multiset(r)[f] == if f.userId == user && Resolves(books, f) then multiset(favorites)[f] else 0
    {
      assert multiset(sorted)[f] == multiset(mine)[f];
    }
    forall i | 0 <= i < |r|
      ensures r[i].userId == user
    {
      assert r[i] in multiset(r);
    }
    r
  }

  /** `GET /api/books/favorites` for an authenticated caller: the books of
      `MyFavorites`, in that order. */
  function FavoriteBooks(favorites: seq<Favorite>, books: seq<Book>, user: Id): (r: seq<Book>)
    ensures |r| == |MyFavorites(favorites, books, user)|
    ensures forall i :: 0 <= i < |r| ==> r[i] in books && r[i].id == MyFavorites(favorites, books, user)[i].bookId
  {
    var mine := MyFavorites(favorites, books, user);
    seq(|mine|, i requires 0 <= i < |mine| => FindBook(books, mine[i].bookId).value)
  }

  /** The books a caller's favorites list shows are the books they marked, newest mark
      first, and a favorite whose book is gone shows nothing. */
  lemma FavoriteListShowsOnlyOwnBooks(favorites: seq<Favorite>, books: seq<Book>, user: Id)
    ensures forall b :: b in FavoriteBooks(favorites, books, user) ==>
      b in books && exists f :: f in favorites && f.userId == user && f.bookId == b.id
    ensures forall f :: f in favorites && f.userId == user && Resolves(books, f) ==>
      f in MyFavorites(favorites, books, user)
  {
    var mine := MyFavorites(favorites, books, user);
    var shown := FavoriteBooks(favorites, books, user);
    forall b | b in shown
      ensures b in books && exists f :: f in favorites && f.userId == user && f.bookId == b.id
    {
      var i :| 0 <= i < |shown| && shown[i] == b;
      assert mine[i] in multiset(mine);
      assert mine[i] in multiset(favorites);
    }
    forall f | f in favorites && f.userId == user && Resolves(books, f)
      ensures f in mine
    {
      assert f in multiset(favorites);
      assert f in multiset(mine);
    }
  }

  /** `GET /api/books/favorites`, behind the gate. */
  function ListFavorites(header: Option<string>, env: Env, nowMs: nat, favorites: seq<Favorite>, books: seq<Book>): (r: Reply<seq<Book>>)
    ensures r.Fail? <==> Gate.Authorize(header, env, nowMs).Fail?
    ensures r.Fail? ==> r.status == 401
    ensures r.Ok? ==> r.value == FavoriteBooks(favorites, books, Gate.Authorize(header, env, nowMs).value)
  {
    match Gate.Authorize(header, env, nowMs)
    case Fail(status, message) => Fail(status, message)
    case Ok(user) => Ok(FavoriteBooks(favorites, books, user))
  }

  /** `POST /api/books/favorites` for the caller `user` with body field `bookId`
      (`None` when absent): the record to insert, or the refusal. */
  function AddFavoriteReply(favorites: seq<Favorite>, books: seq<Book>, env: Env, user: Id, bookId: Option<string>, nowMs: int): (r: Reply<Favorite>)
    ensures (bookId.None? || !env.isValidId(bookId.value)) ==> r == Fail(400, InvalidBookIdMessage)
    ensures bookId.Some? && env.isValidId(bookId.value) && FindBook(books, bookId.value).None? ==>
      r == Fail(404, BookNotFoundMessage)
    ensures (bookId.Some? && env.isValidId(bookId.value) && FindBook(books, bookId.value).Some?
      && FavoriteIndex(favorites, user, bookId.value).Some?) ==> r == Fail(400, AlreadyFavoriteMessage)
    ensures r.Ok? <==> (bookId.Some? && env.isValidId(bookId.value) && FindBook(books, bookId.value).Some?
      && FavoriteIndex(favorites, user, bookId.value).None?)
    ensures r.Ok? ==> (r.value == Favorite(user, bookId.value, nowMs) && Resolves(books, r.value)
      && forall f :: f in favorites ==> !SamePair(f, r.value))
  {
    if bookId.None? || !env.isValidId(bookId.value) then Fail(400, InvalidBookIdMessage)
    else if FindBook(books, bookId.value).None? then Fail(404, BookNotFoundMessage)
    else if FavoriteIndex(favorites, user, bookId.value).Some? then Fail(400, AlreadyFavoriteMessage)
    else Ok(Favorite(user, bookId.value, nowMs))
  }

  /** An accepted favorite keeps the (user, book) pairs unique. */
  lemma AddFavoriteKeepsPairsUnique(favorites: seq<Favorite>, books: seq<Book>, env: Env, user: Id, bookId: Option<string>, nowMs: int)
    requires FavoritePairsUnique(favorites)
    ensures var r := AddFavoriteReply(favorites, books, env, user, bookId, nowMs);
      r.Ok? ==> FavoritePairsUnique(favorites + [r.value])
  {
    var r := AddFavoriteReply(favorites, books, env, user, bookId, nowMs);
    if r.Ok? {
      var s := favorites + [r.value];
      forall i, j | 0 <= i < j < |s|
        ensures !SamePair(s[i], s[j])
      {
        if j == |favorites| {
          assert s[i] in favorites;
        }
      }
    }
  }

  /** Adding the same book twice: the second request is refused and adds nothing. */
  lemma AddFavoriteTwiceRefused(favorites: seq<Favorite>, books: seq<Book>, env: Env, user: Id, bookId: Option<string>, nowMs: int, laterMs: int)
    requires AddFavoriteReply(favorites, books, env, user, bookId, nowMs).Ok?
    ensures AddFavoriteReply(favorites + [AddFavoriteReply(favorites, books, env, user, bookId, nowMs).value], books, env, user, bookId, laterMs)
      == Fail(400, AlreadyFavoriteMessage)
  {
    var f := AddFavoriteReply(favorites, books, env, user, bookId, nowMs).value;
    var s := favorites + [f];
    assert s[|favorites|] == f;
    assert SamePair(s[|favorites|], Favorite(user, bookId.value, 0));
  }

  /** `POST /api/books/favorites`: the gate, then the checks, then one insert. */
  method AddFavorite(db: Db, header: Option<string>, env: Env, nowMs: nat, bookId: Option<string>) returns (r: Reply<Favorite>)
    requires db.Valid()
    modifies db`favorites
    ensures db.Valid()
    ensures var gate := Gate.Authorize(header, env, nowMs);
      if gate.Fail? then r == Fail(gate.status, gate.message) && db.favorites == old(db.favorites)
      else
        && r == AddFavoriteReply(old(db.favorites), db.books, env, gate.value, bookId, nowMs)
        && db.favorites == if r.Ok? then old(db.favorites) + [r.value] else old(db.favorites)
  {
    var gate := Gate.Authorize(header, env, nowMs);
    if gate.Fail? {
      return Fail(gate.status, gate.message);
    }
    var user := gate.value;
    if bookId.None? || !env.isValidId(bookId.value) {
      return Fail(400, InvalidBookIdMessage);
    }
    var book := FindBook(db.books, bookId.value);
    if book.None? {
      return Fail(404, BookNotFoundMessage);
    }
    var existing := FavoriteIndex(db.favorites, user, bookId.value);
    if existing.Some? {
      return Fail(400, AlreadyFavoriteMessage);
    }
    var favorite := Favorite(user, bookId.value, nowMs);
    AddFavoriteKeepsPairsUnique(db.favorites, db.books, env, user, bookId, nowMs);
    db.favorites := db.favorites + [favorite];
    r := Ok(favorite);
  }

  /** `Favorite.findOneAndDelete({ userId: user, bookId })`: the table without the first
      matching record, or the 404 when there is none. */
  function FavoriteRemoval(favorites: seq<Favorite>, user: Id, bookId: Id): (r: Reply<seq<Favorite>>)
    ensures r.Fail? <==> forall f :: f in favorites ==> !SamePair(f, Favorite(user, bookId, 0))
    ensures r.Fail? ==> r == Fail(404, FavoriteNotFoundMessage)
    ensures r.Ok? ==> |r.value| == |favorites| - 1 && multiset(r.value) <= multiset(favorites)
  {
    match FavoriteIndex(favorites, user, bookId)
    case None => Fail(404, FavoriteNotFoundMessage)
    case Some(i) =>
      assert favorites == favorites[..i] + [favorites[i]] + favorites[i + 1..];
      Ok(favorites[..i] + favorites[i + 1..])
  }

  /** With the pairs unique, removal deletes exactly the caller's record for that book
      and leaves every other favorite, in order. */
  lemma RemovalDeletesOnlyThatPair(favorites: seq<Favorite>, user: Id, bookId: Id)
    requires FavoritePairsUnique(favorites)
    ensures var r := FavoriteRemoval(favorites, user, bookId);
      r.Ok? ==> r.value == Filter(favorites, (f: Favorite) => !SamePair(f, Favorite(user, bookId, 0)))
  {
    var key := Favorite(user, bookId, 0);
    var found := FavoriteIndex(favorites, user, bookId);
    if found.Some? {
      var i := found.value;
      forall k | 0 <= k < |favorites| && k != i
        ensures !SamePair(favorites[k], key)
      {
        assert !SamePair(favorites[k], favorites[i]);
      }
      FilterDropsOne(favorites, (f: Favorite) => !SamePair(f, key), i);
    }
  }

  /** Removal keeps the pairs unique, and removing the same favorite again gives 404. */
  lemma RemoveTwiceNotFound(favorites: seq<Favorite>, user: Id, bookId: Id)
    requires FavoritePairsUnique(favorites)
    ensures var r := FavoriteRemoval(favorites, user, bookId);
      r.Ok? ==> (FavoritePairsUnique(r.value)
        && FavoriteRemoval(r.value, user, bookId) == Fail(404, FavoriteNotFoundMessage))
  {
    var key := Favorite(user, bookId, 0);
    var found := FavoriteIndex(favorites, user, bookId);
    if found.Some? {
      var i := found.value;
      var rest := favorites[..i] + favorites[i + 1..];
      assert forall k :: 0 <= k < |rest| ==> rest[k] == favorites[if k < i then k else k + 1];
      forall a, b | 0 <= a < b < |rest|
        ensures !SamePair(rest[a], rest[b])
      {
        assert !SamePair(favorites[if a < i then a else a + 1], favorites[if b < i then b else b + 1]);
      }
      forall f | f in rest
        ensures !SamePair(f, key)
      {
        var k :| 0 <= k < |rest| && rest[k] == f;
        var j := if k < i then k else k + 1;
        assert !SamePair(favorites[j], favorites[i]);
      }
    }
  }

  /** `DELETE /api/books/favorites/:bookId`: the gate, then the delete. */
  method RemoveFavorite(db: Db, header: Option<string>, env: Env, nowMs: nat, bookId: Id) returns (r: Reply<()>)
    requires db.Valid()
    modifies db`favorites
    ensures db.Valid()
    ensures var gate := Gate.Authorize(header, env, nowMs);
      if gate.Fail? then r == Fail(gate.status, gate.message) && db.favorites == old(db.favorites)
      else
        var removal := FavoriteRemoval(old(db.favorites), gate.value, bookId);
        if removal.Fail? then r == Fail(removal.status, removal.message) && db.favorites == old(db.favorites)
        else r == Ok(()) && db.favorites == removal.value
  {
    var gate := Gate.Authorize(header, env, nowMs);
    if gate.Fail? {
      return Fail(gate.status, gate.message);
    }
    var user := gate.value;
    var found := FavoriteIndex(db.favorites, user, bookId);
    if found.None? {
      return Fail(404, FavoriteNotFoundMessage);
    }
    RemoveTwiceNotFound(db.favorites, user, bookId);
    var i := found.value;
    db.favorites := db.favorites[..i] + db.favorites[i + 1..];
    r := Ok(());
  }
}
