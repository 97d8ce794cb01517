/** The document store behind the routes: the four collections Users, Books, Favorites
    and Reviews with the schemas' fields, the uniqueness that the schemas' indexes
    promise (and, for reviews, that the upsert keeps), the lookups the handlers run, and `toJSON` for users. */
module Store {
  import opened Wrappers
  import opened Collections
  import opened Tokens
  import Text

  /** A value of a JSON request or response body, as far as the model needs it. */
  datatype Json = Null | Str(s: string) | Num(n: int)

  datatype Book = Book(
    id: Id,
    title: string,
    author: string,
    publicationYear: int,
    genre: Option<string>,
    publisher: Option<string>,
    isbn: Option<string>,
    description: Option<string>,
    libraryName: string,
    libraryAddress: Option<string>,
    libraryPhone: Option<string>,
    copiesAvailable: int,
    totalCopies: int)

  /** `password` holds the bcrypt hash, never the plain text. */
  datatype User = User(
    id: Id,
    username: string,
    email: string,
    password: string,
    firstName: Option<string>,
    lastName: Option<string>,
    phone: Option<string>,
    address: Option<string>,
    createdAt: int)

  datatype Favorite = Favorite(userId: Id, bookId: Id, addedAt: int)

  /** `rating` is a JavaScript number, so 3.5 is a possible rating. */
  datatype Review = Review(user: Id, book: Id, rating: real, comment: string, createdAt: int, updatedAt: int)

  /** A request field is given when it is present and not the empty string (JavaScript
      truthiness of a string). */
  predicate Given(v: Option<string>)
  {
    v.Some? && v.value != ""
  }

  // ---------------------------------------------------------------------------
  // What the schemas and their indexes keep true

  /** `unique: true` on username and email, plus the document id. */
  predicate UsersUnique(users: seq<User>)
  {
    forall i, j :: 0 <= i < j < |users| ==>
      users[i].id != users[j].id && users[i].username != users[j].username && users[i].email != users[j].email
  }

  /** `required: true` on username and email: Mongoose refuses both a missing value and
      the empty string. */
  predicate UsersComplete(users: seq<User>)
  {
    forall i :: 0 <= i < |users| ==> users[i].username != "" && users[i].email != ""
  }

  predicate BookIdsUnique(books: seq<Book>)
  {
    forall i, j :: 0 <= i < j < |books| ==> books[i].id != books[j].id
  }

  predicate SamePair(f: Favorite, g: Favorite)
  {
    f.userId == g.userId && f.bookId == g.bookId
  }

  /** The `{ userId: 1, bookId: 1 }` unique index. */
  predicate FavoritePairsUnique(favorites: seq<Favorite>)
  {
    forall i, j :: 0 <= i < j < |favorites| ==> !SamePair(favorites[i], favorites[j])
  }

  /** One review per (user, book), which the upsert maintains, and the schema's
      `min: 1, max: 5` on rating. */
  predicate ReviewsValid(reviews: seq<Review>)
  {
    && (forall i, j :: 0 <= i < j < |reviews| ==>
          reviews[i].user != reviews[j].user || reviews[i].book != reviews[j].book)
    && (forall i :: 0 <= i < |reviews| ==> 1.0 <= reviews[i].rating <= 5.0)
  }

  // ---------------------------------------------------------------------------
  // Lookups

  /** `Book.findById(id)`. */
  function FindBook(books: seq<Book>, id: Id): (r: Option<Book>)
    ensures r.Some? ==> r.value in books && r.value.id == id
    ensures r.None? <==> forall b :: b in books ==> b.id != id
  {
    match FirstIndex(books, (b: Book) => b.id == id)
    case None => None
    case Some(i) => Some(books[i])
  }

  /** The position of `User.findById(id)`. */
  function UserIndex(users: seq<User>, id: Id): (r: Option<nat>)
    ensures r.Some? ==> r.value < |users| && users[r.value].id == id
    ensures r.None? <==> forall i :: 0 <= i < |users| ==> users[i].id != id
  {
    FirstIndex(users, (u: User) => u.id == id)
  }

  /** The position of `Favorite.findOne({ userId, bookId })`. */
  function FavoriteIndex(favorites: seq<Favorite>, userId: Id, bookId: Id): (r: Option<nat>)
    ensures r.Some? ==> r.value < |favorites| && SamePair(favorites[r.value], Favorite(userId, bookId, 0))
    ensures r.None? <==> forall i :: 0 <= i < |favorites| ==> !SamePair(favorites[i], Favorite(userId, bookId, 0))
  {
    FirstIndex(favorites, (f: Favorite) => f.userId == userId && f.bookId == bookId)
  }

  /** The position of `Review.findOne({ user, book })`. */
  function ReviewIndex(reviews: seq<Review>, user: Id, book: Id): (r: Option<nat>)
    ensures r.Some? ==> r.value < |reviews| && reviews[r.value].user == user && reviews[r.value].book == book
    ensures r.None? <==> forall i :: 0 <= i < |reviews| ==> !(reviews[i].user == user && reviews[i].book == book)
  {
    FirstIndex(reviews, (v: Review) => v.user == user && v.book == book)
  }

  // ---------------------------------------------------------------------------
  // toJSON

  function OptionalField(key: string, v: Option<string>): map<string, Json>
  {
    if v.Some? then map[key := Str(v.value)] else map[]
  }

  /** `user.toObject()`: every stored path, including the hash and the version key. */
  function UserDocument(u: User): (doc: map<string, Json>)
  {
    map["_id" := Str(u.id), "username" := Str(u.username), "email" := Str(u.email),
        "password" := Str(u.password), "createdAt" := Num(u.createdAt), "__v" := Num(0)]
      + OptionalField("firstName", u.firstName) + OptionalField("lastName", u.lastName)
      + OptionalField("phone", u.phone) + OptionalField("address", u.address)
  }

  /** `userSchema.methods.toJSON`: the document with `password` and `__v` deleted and
      every other path kept as stored. */
  function UserToJson(u: User): (r: map<string, Json>)
    ensures "password" !in r && "__v" !in r
    ensures r.Keys == UserDocument(u).Keys - {"password", "__v"}
    ensures forall k :: k in r ==> r[k] == UserDocument(u)[k]
  {
    UserDocument(u) - {"password"} - {"__v"}
  }

  // ---------------------------------------------------------------------------
  // The store

  class Db {
    var users: seq<User>
    var books: seq<Book>
    var favorites: seq<Favorite>
    var reviews: seq<Review>

    ghost predicate Valid()
      reads this
    {
      && UsersUnique(users) && UsersComplete(users)
      && BookIdsUnique(books)
      && FavoritePairsUnique(favorites)
      && ReviewsValid(reviews)
    }

    /** A store holding the catalog `books` and nothing else. */
    constructor (books: seq<Book>)
      requires BookIdsUnique(books)
      ensures Valid()
      ensures this.books == books && users == [] && favorites == [] && reviews == []
    {
      this.books := books;
      users, favorites, reviews := [], [], [];
    }
  }
}
