/** routes/review.js: one review per (user, book), submitted as an upsert behind the
    gate, and the two listings (a book's reviews, which is public, and the caller's own,
    which is gated). */
module Reviews {
  import opened Wrappers
  import opened Collections
  import opened Tokens
  import opened Store
  import Text
  import Gate

  const RequiredMessage := "bookId and rating are required"
  const InvalidBookIdMessage := "Invalid bookId"
  const BookNotFoundMessage := "Book not found"
  const RatingRangeMessage := "Rating must be between 1 and 5"

  /** The request body: `None` is a missing (or `null`) field. */
  datatype ReviewBody = ReviewBody(bookId: Option<string>, rating: Option<real>, comment: Option<string>)

  /** `!bookId || !rating`: a missing or empty id, or a missing or zero rating. */
  predicate MissingRequired(body: ReviewBody)
  {
    !Given(body.bookId) || body.rating.None? || body.rating.value == 0.0
  }

  predicate SamePairAs(v: Review, user: Id, book: Id)
  {
    v.user == user && v.book == book
  }

  /** `POST /api/reviews` for the caller `user` at time `nowMs`: the review as stored
      after the upsert, or the refusal. An existing review for the pair keeps its
      `createdAt`; `updatedAt` is the time of this request. */
  function SubmitReviewReply(reviews: seq<Review>, books: seq<Book>, env: Env, user: Id, body: ReviewBody, nowMs: int): (r: Reply<Review>)
    ensures MissingRequired(body) ==> r == Fail(400, RequiredMessage)
    ensures !MissingRequired(body) && !env.isValidId(body.bookId.value) ==> r == Fail(400, InvalidBookIdMessage)
    ensures (!MissingRequired(body) && env.isValidId(body.bookId.value) && FindBook(books, body.bookId.value).None?)
      ==> r == Fail(404, BookNotFoundMessage)
    ensures (!MissingRequired(body) && env.isValidId(body.bookId.value) && FindBook(books, body.bookId.value).Some?
      && !(1.0 <= body.rating.value <= 5.0)) ==> r == Fail(400, RatingRangeMessage)
    ensures r.Ok? <==> (!MissingRequired(body) && env.isValidId(body.bookId.value)
      && FindBook(books, body.bookId.value).Some? && 1.0 <= body.rating.value <= 5.0)
    ensures r.Ok? ==> (SamePairAs(r.value, user, body.bookId.value)
      && r.value.rating == body.rating.value
      && r.value.comment == Text.Trim(if body.comment.Some? then body.comment.value else "")
      && r.value.updatedAt == nowMs)
    ensures r.Ok? ==> var earlier := ReviewIndex(reviews, user, body.bookId.value);
      r.value.createdAt == if earlier.Some? then reviews[earlier.value].createdAt else nowMs
  {
    if MissingRequired(body) then Fail(400, RequiredMessage)
    else if !env.isValidId(body.bookId.value) then Fail(400, InvalidBookIdMessage)
    else if FindBook(books, body.bookId.value).None? then Fail(404, BookNotFoundMessage)
    else
      var rating := body.rating.value;
      if rating < 1.0 || rating > 5.0 then Fail(400, RatingRangeMessage)
      else
        var comment := Text.Trim(if body.comment.Some? then body.comment.value else "");
        var createdAt := match ReviewIndex(reviews, user, body.bookId.value)
          case Some(i) => reviews[i].createdAt
          case None => nowMs;
        Ok(Review(user, body.bookId.value, rating, comment, createdAt, nowMs))
  }

  /** The review table after `findOneAndUpdate(..., { upsert: true })` wrote `v`: the
      existing review for its pair is replaced in place, or `v` is appended. */
  function Upsert(reviews: seq<Review>, v: Review): (s: seq<Review>)
    ensures |s| == if ReviewIndex(reviews, v.user, v.book).Some? then |reviews| else |reviews| + 1
    ensures v in s
  {
    match ReviewIndex(reviews, v.user, v.book)
    case Some(i) =>
      assert reviews[i := v][i] == v;
      reviews[i := v]
    case None =>
      assert (reviews + [v])[|reviews|] == v;
      reviews + [v]
  }

  /** An upsert of a review with a rating in range keeps one review per pair: the
      written review is the only one of its pair, and every other review stays as it
      was, in place. */
  lemma UpsertKeepsOnePerPair(reviews: seq<Review>, v: Review)
    requires ReviewsValid(reviews) && 1.0 <= v.rating <= 5.0
    ensures var s := Upsert(reviews, v);
      && ReviewsValid(s)
      && (forall i :: 0 <= i < |s| ==> (SamePairAs(s[i], v.user, v.book) <==> s[i] == v))
      && (forall i :: 0 <= i < |reviews| && !SamePairAs(reviews[i], v.user, v.book) ==> s[i] == reviews[i])
  {
    var s := Upsert(reviews, v);
    match ReviewIndex(reviews, v.user, v.book)
    case Some(k) =>
      assert s == reviews[k := v];
      forall i | 0 <= i < |s| && i != k
        ensures s[i] == reviews[i] && !SamePairAs(s[i], v.user, v.book)
      {
        if i < k {
          assert reviews[i].user != reviews[k].user || reviews[i].book != reviews[k].book;
        } else {
          assert reviews[k].user != reviews[i].user || reviews[k].book != reviews[i].book;
        }
      }
      forall i, j | 0 <= i < j < |s|
        ensures s[i].user != s[j].user || s[i].book != s[j].book
      {
        if i != k && j != k {
          assert s[i] == reviews[i] && s[j] == reviews[j];
        }
      }
    case None =>
      assert s == reviews + [v];
      forall i | 0 <= i < |reviews|
        ensures !SamePairAs(reviews[i], v.user, v.book)
      {
      }
  }

  /** After an accepted submission the caller has exactly one review of the book, the one
      just written; every other review is unchanged and in place, and the table still
      holds one review per pair with ratings between 1 and 5. */
  lemma SubmitKeepsOneReviewPerPair(reviews: seq<Review>, books: seq<Book>, env: Env, user: Id, body: ReviewBody, nowMs: int)
    requires ReviewsValid(reviews)
    requires SubmitReviewReply(reviews, books, env, user, body, nowMs).Ok?
    ensures var v := SubmitReviewReply(reviews, books, env, user, body, nowMs).value;
      var s := Upsert(reviews, v);
      && ReviewsValid(s)
      && (forall i :: 0 <= i < |s| ==> (SamePairAs(s[i], user, v.book) <==> s[i] == v))
      && (forall i :: 0 <= i < |reviews| && !SamePairAs(reviews[i], user, v.book) ==> s[i] == reviews[i])
  {
    UpsertKeepsOnePerPair(reviews, SubmitReviewReply(reviews, books, env, user, body, nowMs).value);
  }

  /** Submitting again for the same book replaces the review: the table does not grow. */
  lemma ResubmitReplaces(reviews: seq<Review>, books: seq<Book>, env: Env, user: Id, body: ReviewBody, again: ReviewBody, nowMs: int, laterMs: int)
    requires ReviewsValid(reviews)
    requires SubmitReviewReply(reviews, books, env, user, body, nowMs).Ok?
    requires again.bookId == body.bookId
    ensures var s := Upsert(reviews, SubmitReviewReply(reviews, books, env, user, body, nowMs).value);
      var r := SubmitReviewReply(s, books, env, user, again, laterMs);
      r.Ok? ==> (|Upsert(s, r.value)| == |s| && r.value.createdAt == SubmitReviewReply(reviews, books, env, user, body, nowMs).value.createdAt)
  {
    var v := SubmitReviewReply(reviews, books, env, user, body, nowMs).value;
    assert v.user == user && v.book == body.bookId.value;
    var s := Upsert(reviews, v);
    UpsertKeepsOnePerPair(reviews, v);
    var r := SubmitReviewReply(s, books, env, user, again, laterMs);
    if r.Ok? {
      assert r.value.user == user && r.value.book == v.book;
      var j :| 0 <= j < |s| && s[j] == v;
      assert SamePairAs(s[j], user, v.book);
      var found := ReviewIndex(s, user, v.book);
      assert found.Some?;
      var k := found.value;
      assert SamePairAs(s[k], user, v.book);
      assert s[k] == v;
      assert r.value.createdAt == s[k].createdAt;
    }
  }

  /** `POST /api/reviews`: the gate, the checks, then the upsert. */
  method SubmitReview(db: Db, header: Option<string>, env: Env, nowMs: nat, body: ReviewBody) returns (r: Reply<Review>)
    requires db.Valid()
    modifies db`reviews
    ensures db.Valid()
    ensures var gate := Gate.Authorize(header, env, nowMs);
      if gate.Fail? then r == Fail(gate.status, gate.message) && db.reviews == old(db.reviews)
      else
        && r == SubmitReviewReply(old(db.reviews), db.books, env, gate.value, body, nowMs)
        && db.reviews == if r.Ok? then Upsert(old(db.reviews), r.value) else old(db.reviews)
  {
    var gate := Gate.Authorize(header, env, nowMs);
    if gate.Fail? {
      return Fail(gate.status, gate.message);
    }
    var user := gate.value;
    if !Given(body.bookId) || body.rating.None? || body.rating.value == 0.0 {
      return Fail(400, RequiredMessage);
    }
    var bookId := body.bookId.value;
    if !env.isValidId(bookId) {
      return Fail(400, InvalidBookIdMessage);
    }
    var book := FindBook(db.books, bookId);
    if book.None? {
      return Fail(404, BookNotFoundMessage);
    }
    var rating := body.rating.value;
    if rating < 1.0 || rating > 5.0 {
      return Fail(400, RatingRangeMessage);
    }
    var comment := Text.Trim(if body.comment.Some? then body.comment.value else "");
    var existing := ReviewIndex(db.reviews, user, bookId);
    var review;
    if existing.Some? {
      review := Review(user, bookId, rating, comment, db.reviews[existing.value].createdAt, nowMs);
      SubmitKeepsOneReviewPerPair(db.reviews, db.books, env, user, body, nowMs);
      db.reviews := db.reviews[existing.value := review];
    } else {
      review := Review(user, bookId, rating, comment, nowMs, nowMs);
      SubmitKeepsOneReviewPerPair(db.reviews, db.books, env, user, body, nowMs);
      db.reviews := db.reviews + [review];
    }
    r := Ok(review);
  }

  // ---------------------------------------------------------------------------
  // Listings

  function CreatedAt(v: Review): int
  {
    v.createdAt
  }

  /** `Review.find(condition).sort({ createdAt: -1 })`. */
  function NewestFirst(reviews: seq<Review>, p: Review -> bool): (r: seq<Review>)
    ensures SortedDesc(r, CreatedAt)
    ensures forall v :: multiset(r)[v] == if p(v) then multiset(reviews)[v] else 0
    ensures forall i :: 0 <= i < |r| ==> p(r[i])
  {
    FilterCounts(reviews, p);
    var r := SortDesc(Filter(reviews, p), CreatedAt);
    assert forall i :: 0 <= i < |r| ==> p(r[i]) by {
      forall i | 0 <= i < |r|
        ensures p(r[i])
      {
        assert r[i] in multiset(r);
      }
    }
    r
  }

  /** A review is listed exactly when it is stored and matches the condition. */
  lemma NewestFirstMembers(reviews: seq<Review>, p: Review -> bool)
    ensures forall v :: v in NewestFirst(reviews, p) <==> v in reviews && p(v)
  {
    var r := NewestFirst(reviews, p);
    forall v
      ensures v in r <==> v in reviews && p(v)
    {
      assert v in r <==> v in multiset(r);
      assert v in reviews <==> v in multiset(reviews);
    }
  }

  /** What `populate('user', 'username')` leaves of the author. */
  datatype Author = Author(id: Id, username: string)

  /** What `populate('book', 'title')` leaves of the book. */
  datatype Title = Title(id: Id, title: string)

  /** A listed review with its populated reference; `None` when the referenced record
      no longer exists (Mongoose populates it as `null`). */
  datatype Listed<P> = Listed(review: Review, ref: Option<P>)

  function AuthorOf(users: seq<User>, id: Id): (a: Option<Author>)
    ensures a.Some? ==> a.value.id == id
    ensures a.None? <==> forall j :: 0 <= j < |users| ==> users[j].id != id
    ensures a.Some? ==> exists j :: 0 <= j < |users| && users[j].id == id && users[j].username == a.value.username
  {
    match UserIndex(users, id)
    case None => None
    case Some(i) => Some(Author(id, users[i].username))
  }

  function TitleOf(books: seq<Book>, id: Id): (t: Option<Title>)
    ensures t.Some? ==> t.value.id == id
    ensures t.Some? <==> FindBook(books, id).Some?
    ensures t.Some? ==> exists b :: b in books && b.id == id && b.title == t.value.title
  {
    match FindBook(books, id)
    case None => None
    case Some(b) => Some(Title(id, b.title))
  }

  /** `GET /api/books/:bookId/reviews` (public): the reviews of the book, newest first,
      each with its author reduced to the username. */
  function ReviewsForBook(reviews: seq<Review>, users: seq<User>, env: Env, bookId: string): (r: Reply<seq<Listed<Author>>>)
    ensures !env.isValidId(bookId) <==> r == Fail(400, InvalidBookIdMessage)
    ensures r.Ok? ==> (
      var chosen := NewestFirst(reviews, (v: Review) => v.book == bookId);
      && |r.value| == |chosen|
      && forall i :: 0 <= i < |chosen| ==> r.value[i] == Listed(chosen[i], AuthorOf(users, chosen[i].user)))
  {
    if !env.isValidId(bookId) then Fail(400, InvalidBookIdMessage)
    else
      var chosen := NewestFirst(reviews, (v: Review) => v.book == bookId);
      Ok(seq(|chosen|, i requires 0 <= i < |chosen| => Listed(chosen[i], AuthorOf(users, chosen[i].user))))
  }

  /** `GET /api/reviews/my`, behind the gate: the caller's reviews, newest first, each
      with the title of its book. */
  function MyReviews(header: Option<string>, env: Env, nowMs: nat, reviews: seq<Review>, books: seq<Book>): (r: Reply<seq<Listed<Title>>>)
    ensures r.Fail? <==> Gate.Authorize(header, env, nowMs).Fail?
    ensures r.Fail? ==> r.status == 401
    ensures r.Ok? ==> (
      var chosen := NewestFirst(reviews, (v: Review) => v.user == Gate.Authorize(header, env, nowMs).value);
      && |r.value| == |chosen|
      && forall i :: 0 <= i < |chosen| ==> r.value[i] == Listed(chosen[i], TitleOf(books, chosen[i].book)))
  {
    match Gate.Authorize(header, env, nowMs)
    case Fail(status, message) => Fail(status, message)
    case Ok(user) =>
      var chosen := NewestFirst(reviews, (v: Review) => v.user == user);
      Ok(seq(|chosen|, i requires 0 <= i < |chosen| => Listed(chosen[i], TitleOf(books, chosen[i].book))))
  }

  /** A listing that shows, position by position, the reviews `NewestFirst` chose holds
      exactly the stored reviews meeting the condition, newest first. */
  lemma ListingFollowsNewestFirst<P>(reviews: seq<Review>, p: Review -> bool, listed: seq<Listed<P>>)
    requires |listed| == |NewestFirst(reviews, p)|
    requires forall i :: 0 <= i < |listed| ==> listed[i].review == NewestFirst(reviews, p)[i]
    ensures forall i, j :: 0 <= i < j < |listed| ==> listed[i].review.createdAt >= listed[j].review.createdAt
    ensures forall v :: v in reviews && p(v) <==> exists i :: 0 <= i < |listed| && listed[i].review == v
  {
    var chosen := NewestFirst(reviews, p);
    NewestFirstMembers(reviews, p);
    forall v
      ensures v in reviews && p(v) <==> exists i :: 0 <= i < |listed| && listed[i].review == v
    {
      if v in chosen {
        var i :| 0 <= i < |chosen| && chosen[i] == v;
        assert listed[i].review == v;
      }
      if exists i :: 0 <= i < |listed| && listed[i].review == v {
        var i :| 0 <= i < |listed| && listed[i].review == v;
        assert chosen[i] in chosen;
      }
    }
    forall i, j | 0 <= i < j < |listed|
      ensures listed[i].review.createdAt >= listed[j].review.createdAt
    {
      assert CreatedAt(chosen[i]) >= CreatedAt(chosen[j]);
    }
  }

  /** A book's listing holds exactly the reviews of that book, each once per stored copy,
      newest first; the per-book listing needs no authorization header at all. */
  lemma BookListingIsExactlyThatBook(reviews: seq<Review>, users: seq<User>, env: Env, bookId: string)
    requires env.isValidId(bookId)
    ensures var r := ReviewsForBook(reviews, users, env, bookId);
      && r.Ok?
      && (forall i, j :: 0 <= i < j < |r.value| ==> r.value[i].review.createdAt >= r.value[j].review.createdAt)
      && (forall v :: v in reviews && v.book == bookId <==> exists i :: 0 <= i < |r.value| && r.value[i].review == v)
  {
    var r := ReviewsForBook(reviews, users, env, bookId);
    var p := (v: Review) => v.book == bookId;
    ListingFollowsNewestFirst(reviews, p, r.value);
  }

  /** The caller's listing holds exactly the caller's reviews, newest first. */
  lemma MyListingIsExactlyMine(header: Option<string>, env: Env, nowMs: nat, reviews: seq<Review>, books: seq<Book>)
    requires Gate.Authorize(header, env, nowMs).Ok?
    ensures var user := Gate.Authorize(header, env, nowMs).value;
      var r := MyReviews(header, env, nowMs, reviews, books);
      && r.Ok?
      && (forall i, j :: 0 <= i < j < |r.value| ==> r.value[i].review.createdAt >= r.value[j].review.createdAt)
      && (forall v :: v in reviews && v.user == user <==> exists i :: 0 <= i < |r.value| && r.value[i].review == v)
  {
    var user := Gate.Authorize(header, env, nowMs).value;
    var r := MyReviews(header, env, nowMs, reviews, books);
    var p := (v: Review) => v.user == user;
    ListingFollowsNewestFirst(reviews, p, r.value);
  }
}
