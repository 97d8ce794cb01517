/** public/js/search.js: the browser side of search and favorites. The client keeps
    its own copy of the favorite book ids in local storage under the key `favorites`
    and updates it only after the server has accepted the change. */
module Client {
  import opened Wrappers
  import opened Collections
  import opened Tokens
  import Gate
  import Catalog
  import Store

  // ---------------------------------------------------------------------------
  // fetchSafe

  /** What `fetchSafe` read from a response body: a JSON object (with its `error` field
      when that is a string), any other JSON value, a string (a text body or a JSON
      string), or nothing (`null`, also what a JSON body that fails to parse becomes).
      `NoData` also stands for the `undefined` a call resolves to when it returns early. */
  datatype Data = Object(error: Option<string>) | OtherJson | Text(text: string) | NoData

  datatype Response = Response(ok: bool, data: Data)

  /** What an awaited call gives back: its value, or the message of the error it throws. */
  datatype Outcome<T> = Done(value: T) | Thrown(message: string)

  const RequestFailed := "Request failed"

  /** The message of the error `fetchSafe` throws for a non-ok response: the object's
      `error`, else the text body, else "Request failed"; an empty candidate also falls
      through to "Request failed". */
  function FailureMessage(data: Data): (msg: string)
    ensures msg != ""
    ensures data.Object? && data.error.Some? && data.error.value != "" ==> msg == data.error.value
    ensures data.Text? && data.text != "" ==> msg == data.text
    ensures msg != RequestFailed ==> (data.Object? && data.error == Some(msg)) || data == Text(msg)
  {
    var candidate :=
      if data.Object? && data.error.Some? && data.error.value != "" then data.error.value
      else if data.Text? then data.text
      else "";
    if candidate == "" then RequestFailed else candidate
  }

  function FetchSafe(res: Response): (r: Outcome<Data>)
    ensures res.ok <==> r == Done(res.data)
    ensures !res.ok ==> r == Thrown(FailureMessage(res.data))
  {
    if res.ok then Done(res.data) else Thrown(FailureMessage(res.data))
  }

  // ---------------------------------------------------------------------------
  // searchBooks

  predicate NonEmptyValue(p: (string, string))
  {
    p.1 != ""
  }

  /** The `URLSearchParams` of a search: the form's (key, value) pairs, in order, with
      every pair whose value is empty left out. */
  method SearchQuery(form: seq<(string, string)>) returns (query: seq<(string, string)>)
    ensures query == Filter(form, NonEmptyValue)
  {
    query := [];
    for n := 0 to |form|
      invariant query == Filter(form[..n], NonEmptyValue)
    {
      assert form[..n + 1] == form[..n] + [form[n]];
      FilterConcat(form[..n], [form[n]], NonEmptyValue);
      FilterOne(form[n], NonEmptyValue);
      if form[n].1 != "" {
        query := query + [form[n]];
      }
    }
    assert form[..|form|] == form;
  }

  predicate DistinctKeys(pairs: seq<(string, string)>)
  {
    forall i, j :: 0 <= i < j < |pairs| ==> pairs[i].0 != pairs[j].0
  }

  /** The parameters the server sees, `req.query`, for pairs with distinct keys. */
  function AsParams(pairs: seq<(string, string)>): (params: map<string, string>)
    requires DistinctKeys(pairs)
    ensures forall i :: 0 <= i < |pairs| ==> pairs[i].0 in params && params[pairs[i].0] == pairs[i].1
    ensures forall k :: k in params ==> exists i :: 0 <= i < |pairs| && pairs[i].0 == k
  {
    map i | 0 <= i < |pairs| :: pairs[i].0 := pairs[i].1
  }

  /** Two parameter maps that give the same criterion for `key`, or leave it out alike. */
  predicate AgreeOn(sent: map<string, string>, all: map<string, string>, key: string)
  {
    && Store.Given(Catalog.Param(sent, key)) == Store.Given(Catalog.Param(all, key))
    && (Store.Given(Catalog.Param(sent, key)) ==> sent[key] == all[key])
  }

  lemma FilteredKeepsDistinctKeys(form: seq<(string, string)>)
    requires DistinctKeys(form)
    ensures DistinctKeys(Filter(form, NonEmptyValue))
  {
    var rel := (p: (string, string), q: (string, string)) => p.0 != q.0;
    assert Pairwise(form, rel);
    FilterKeepsPairwise(form, NonEmptyValue, rel);
    var query := Filter(form, NonEmptyValue);
    forall i, j | 0 <= i < j < |query|
      ensures query[i].0 != query[j].0
    {
      assert rel(query[i], query[j]);
    }
  }

  /** Each key means the same to the server before and after the empty fields go. */
  lemma FilteredAgreesOn(form: seq<(string, string)>, key: string)
    requires DistinctKeys(form)
    ensures DistinctKeys(Filter(form, NonEmptyValue))
    ensures AgreeOn(AsParams(Filter(form, NonEmptyValue)), AsParams(form), key)
  {
    FilteredKeepsDistinctKeys(form);
    var query := Filter(form, NonEmptyValue);
    var sent, all := AsParams(query), AsParams(form);
    FilterMembers(form, NonEmptyValue);
    if key in sent {
      var i :| 0 <= i < |query| && query[i].0 == key;
      assert query[i] in query;
      var j :| 0 <= j < |form| && form[j] == query[i];
      assert sent[key] == all[key];
    }
    if key in all {
      var i :| 0 <= i < |form| && form[i].0 == key;
      if form[i].1 != "" {
        assert form[i] in form && NonEmptyValue(form[i]);
        assert form[i] in query;
        var j :| 0 <= j < |query| && query[j] == form[i];
      }
    }
  }

  lemma AgreeingCriteriaFindAlike(sent: map<string, string>, all: map<string, string>, b: Store.Book)
    requires AgreeOn(sent, all, "title") && AgreeOn(sent, all, "author")
    requires AgreeOn(sent, all, "publicationYear") && AgreeOn(sent, all, "genre")
    requires AgreeOn(sent, all, "library")
    ensures Catalog.Wanted(sent, b) == Catalog.Wanted(all, b)
  {
  }

  /** Leaving out the empty fields changes nothing on the server, which ignores empty
      criteria anyway: the filtered query finds the same books as the whole form. */
  lemma DroppingEmptyFieldsKeepsResults(form: seq<(string, string)>, b: Store.Book)
    requires DistinctKeys(form)
    ensures DistinctKeys(Filter(form, NonEmptyValue))
    ensures Catalog.Wanted(AsParams(Filter(form, NonEmptyValue)), b) == Catalog.Wanted(AsParams(form), b)
  {
    FilteredAgreesOn(form, "title");
    FilteredAgreesOn(form, "author");
    FilteredAgreesOn(form, "publicationYear");
    FilteredAgreesOn(form, "genre");
    FilteredAgreesOn(form, "library");
    AgreeingCriteriaFindAlike(AsParams(Filter(form, NonEmptyValue)), AsParams(form), b);
  }

  // ---------------------------------------------------------------------------
  // The local favorites list

  /** The `favorites` entry of local storage: absent (read as `'[]'`), text that is not
      JSON, or a JSON list of ids. */
  datatype StoredList = Missing | Malformed | Ids(ids: seq<string>)

  /** The request `toggleFavorite` sends. */
  datatype Request = NoRequest | Add | Remove

  /** The stored list after a successful add: the id appended unless already present.
      Text that does not parse makes `JSON.parse` throw, which is caught and logged, and
      nothing is written. */
  function AfterAdd(stored: StoredList, bookId: string): (s: StoredList)
    ensures stored.Malformed? <==> s.Malformed?
    ensures s.Ids? ==> bookId in s.ids
    ensures stored.Ids? && NoDuplicates(stored.ids) ==> s.Ids? && NoDuplicates(s.ids)
    ensures stored.Ids? ==> s.Ids? && (forall x :: x in s.ids <==> x in stored.ids || x == bookId)
  {
    match stored
    case Malformed => Malformed
    case Missing => Ids([bookId])
    case Ids(ids) => if bookId in ids then stored else Ids(ids + [bookId])
  }

  /** The filter `removeFromFavorites` applies: every id but `bookId`. */
  function Other(bookId: string): string -> bool
  {
    (id: string) => id != bookId
  }

  /** The stored list after a successful remove: every occurrence of the id filtered
      out, the other ids kept in order. */
  function AfterRemove(stored: StoredList, bookId: string): (s: StoredList)
    ensures stored.Malformed? <==> s.Malformed?
    ensures s.Ids? ==> bookId !in s.ids
    ensures stored.Ids? ==> s == Ids(Filter(stored.ids, Other(bookId)))
  {
    match stored
    case Malformed => Malformed
    case Missing => Ids([])
    case Ids(ids) =>
      FilterMembers(ids, Other(bookId));
      Ids(Filter(ids, Other(bookId)))
  }

  /** Removing what was just added restores the list. */
  lemma RemoveUndoesAdd(ids: seq<string>, bookId: string)
    requires bookId !in ids
    ensures AfterRemove(AfterAdd(Ids(ids), bookId), bookId) == Ids(ids)
  {
    var p := Other(bookId);
    forall i | 0 <= i < |ids|
      ensures p(ids[i])
    {
      assert ids[i] in ids;
    }
    FilterDropsAppended(ids, bookId, p);
    var added := AfterAdd(Ids(ids), bookId);
    assert added == Ids(ids + [bookId]);
    assert AfterRemove(added, bookId) == Ids(Filter(ids + [bookId], p));
  }

  /** The header the client sends with its token. */
  function AuthorizationHeader(token: string): string
  {
    "Bearer " + token
  }

  /** A token the server issued at login opens the server's gate when the client sends
      it back, for seven days. */
  lemma ClientTokenOpensGate(env: Env, id: Id, issuedMs: nat, nowMs: nat)
    requires SoundSigner(env)
    requires Seconds(nowMs) < Seconds(issuedMs) + TokenLifetime
    ensures Gate.Authorize(Some(AuthorizationHeader(Issue(env, id, issuedMs))), env, nowMs) == Ok(id)
  {
    Gate.IssuedTokenOpensGate(env, id, issuedMs, nowMs);
  }

  /** The browser's local storage, as far as the favorites buttons use it. */
  class FavoritesCache {
    var stored: StoredList
    var token: Option<string>

    constructor (stored: StoredList, token: Option<string>)
      ensures this.stored == stored && this.token == token
    {
      this.stored := stored;
      this.token := token;
    }

    /** `isBookInFavorites`: the id is in the stored list; a missing or unparsable list
        holds nothing. */
    function IsBookInFavorites(bookId: string): (r: bool)
      reads this
      ensures r <==> stored.Ids? && bookId in stored.ids
    {
      match stored
      case Ids(ids) => bookId in ids
      case _ => false
    }

    /** `addToFavorites` once the POST has come back as `res`: a failed request throws
        before the list is touched. */
    method AddToFavorites(bookId: string, res: Response) returns (r: Outcome<Data>)
      modifies this`stored
      ensures r == FetchSafe(res)
      ensures stored == if r.Done? then AfterAdd(old(stored), bookId) else old(stored)
    {
      r := FetchSafe(res);
      if r.Thrown? {
        return;
      }
      match stored
      case Malformed =>
      case Missing =>
        stored := Ids([bookId]);
      case Ids(favorites) =>
        if bookId !in favorites {
          stored := Ids(favorites + [bookId]);
        }
    }

    /** `removeFromFavorites` once the DELETE has come back as `res`. */
    method RemoveFromFavorites(bookId: string, res: Response) returns (r: Outcome<Data>)
      modifies this`stored
      ensures r == FetchSafe(res)
      ensures stored == if r.Done? then AfterRemove(old(stored), bookId) else old(stored)
    {
      r := FetchSafe(res);
      if r.Thrown? {
        return;
      }
      match stored
      case Malformed =>
      case Missing =>
        stored := Ids([]);
      case Ids(favorites) =>
        stored := Ids(Filter(favorites, Other(bookId)));
    }

    /** `toggleFavorite`, with `res` the server's answer to whichever request it sends.
        Without a token it sends nothing and changes nothing; otherwise it removes a
        listed id and adds an unlisted one. */
    method ToggleFavorite(bookId: string, res: Response) returns (sent: Request, r: Outcome<Data>)
      modifies this`stored
      ensures !Store.Given(old(token)) ==> sent == NoRequest && r == Done(NoData) && stored == old(stored)
      ensures Store.Given(old(token)) ==> r == FetchSafe(res)
      ensures Store.Given(old(token)) && old(IsBookInFavorites(bookId)) ==>
        sent == Remove && stored == (if r.Done? then AfterRemove(old(stored), bookId) else old(stored))
      ensures Store.Given(old(token)) && !old(IsBookInFavorites(bookId)) ==>
        sent == Add && stored == (if r.Done? then AfterAdd(old(stored), bookId) else old(stored))
    {
      if token.None? || token.value == "" {
        return NoRequest, Done(NoData);
      }
      if IsBookInFavorites(bookId) {
        sent := Remove;
        r := RemoveFromFavorites(bookId, res);
      } else {
        sent := Add;
        r := AddToFavorites(bookId, res);
      }
    }
  }
}
