/**
 * The request callback of the HTTP server: dispatch on method and URL,
 * parse and validate the body where there is one, make at most one store
 * call, and turn its outcome into a status code and a JSON body.
 *
 * The decision is split the way the callback runs: `Admit` settles every
 * response that needs no store call (route not found, a body that does not
 * parse, a body that fails validation) and otherwise names the call;
 * `Complete` turns the call's outcome into the response; `Handle` runs the
 * whole request against a collection.
 */
module Handler {
  import opened Wrappers
  import opened Validation
  import opened Routing
  import opened Store

  /**
   * What `JSON.parse` made of the body: a `SyntaxError`, the value `null`
   * (on which reading `username` throws a `TypeError`), or any other value,
   * of which only the four validated properties matter.
   */
  datatype ParseOutcome = ParseFailed(error: string) | ParsedNull | Parsed(value: Candidate)

  /** The `error` text of a server-error body, by where the exception came from. */
  datatype Cause = SyntaxError(text: string) | NullBody | StoreFailure(error: StoreError)

  /** The JSON bodies the callback writes, by shape. */
  datatype Body =
    | UserList(users: seq<User>)
    | OneUser(user: User)
    | ErrorList(errors: seq<string>)
    | Message(message: string)
    | ServerError(message: string, error: Cause)
    | NoBody

  datatype Response = Response(status: nat, body: Body)

  const RouteNotFoundMessage := "Route not found"
  const UserNotFoundMessage := "User not found"
  const ServerErrorMessage := "Server error"

  /** Either the response is already decided, or this store call comes next. */
  datatype Admission = Answer(response: Response) | Call(call: StoreCall)

  /** The statuses the callback ever writes, each with its body shape. */
  predicate WellShaped(r: Response) {
    match r.status
    case 200 => r.body.UserList? || r.body.OneUser?
    case 201 => r.body.OneUser?
    case 204 => r.body.NoBody?
    case 400 => r.body.ErrorList? && r.body.errors != []
    case 404 => r.body == Message(RouteNotFoundMessage) || r.body == Message(UserNotFoundMessage)
    case 500 => r.body.ServerError? && r.body.message == ServerErrorMessage
    case _ => false
  }

  /** The outcome of parsing and validating a POST or PUT body: a response, or the validated body. */
  function CheckBody(body: ParseOutcome): (r: Result)
    ensures r.Rejected? ==> WellShaped(r.response)
    ensures r.Accepted? ==> body == Parsed(r.value) && IsValid(r.value)
    ensures body.ParseFailed? ==> r == Rejected(Response(500, ServerError(ServerErrorMessage, SyntaxError(body.error))))
    ensures body.ParsedNull? ==> r == Rejected(Response(500, ServerError(ServerErrorMessage, NullBody)))
    ensures body.Parsed? && !IsValid(body.value) ==>
      r == Rejected(Response(400, ErrorList(ValidationResult(body.value).value)))
    ensures body.Parsed? && IsValid(body.value) ==> r == Accepted(body.value)
  {
    match body
    case ParseFailed(e) => Rejected(Response(500, ServerError(ServerErrorMessage, SyntaxError(e))))
    case ParsedNull => Rejected(Response(500, ServerError(ServerErrorMessage, NullBody)))
    case Parsed(c) =>
      match ValidationResult(c)
      case Some(errors) => Rejected(Response(400, ErrorList(errors)))
      case None => Accepted(c)
  }

  datatype Result = Rejected(response: Response) | Accepted(value: Candidate)

  /**
   * Everything before the store call. Only a route that reads a body can be
   * answered here besides the not-found route, and a store call is made
   * only with a body that parsed and passed validation.
   */
  function Admit(route: Route, body: ParseOutcome): (a: Admission)
    ensures a.Call? ==> CallReady(a.call)
    ensures a.Answer? ==> WellShaped(a.response)
    ensures route == RouteNotFound <==> a == Answer(Response(404, Message(RouteNotFoundMessage)))
    ensures route == ListUsers ==> a == Call(FindAll)
    ensures route.DeleteUser? ==> a == Call(DeleteById(route.id))
    ensures route == CreateUser ==>
      (a.Call? <==> body.Parsed? && IsValid(body.value)) && (a.Call? ==> a.call == Insert(body.value))
    ensures route.UpdateUser? ==>
      (a.Call? <==> body.Parsed? && IsValid(body.value))
      && (a.Call? ==> a.call == UpdateById(route.id, body.value))
  {
    match route
    case ListUsers => Call(FindAll)
    case CreateUser =>
      (match CheckBody(body)
       case Rejected(r) => Answer(r)
       case Accepted(c) => Call(Insert(c)))
    case UpdateUser(id) =>
      (match CheckBody(body)
       case Rejected(r) => Answer(r)
       case Accepted(c) => Call(UpdateById(id, c)))
    case DeleteUser(id) => Call(DeleteById(id))
    case RouteNotFound => Answer(Response(404, Message(RouteNotFoundMessage)))
  }

  /** The response for a store call's outcome. */
  function Complete(call: StoreCall, outcome: StoreOutcome): (r: Response)
    requires Fits(call, outcome)
    ensures WellShaped(r)
    ensures outcome.Failed? <==> r.status == 500
    ensures outcome.Failed? ==> r == Response(500, ServerError(ServerErrorMessage, StoreFailure(outcome.error)))
    ensures outcome == Null <==> r == Response(404, Message(UserNotFoundMessage))
    ensures call.FindAll? && outcome.Many? ==> r == Response(200, UserList(outcome.users))
    ensures call.Insert? && outcome.One? ==> r == Response(201, OneUser(outcome.user))
    ensures call.UpdateById? && outcome.One? ==> r == Response(200, OneUser(outcome.user))
    ensures call.DeleteById? && outcome.One? ==> r == Response(204, NoBody)
  {
    match outcome
    case Failed(e) => Response(500, ServerError(ServerErrorMessage, StoreFailure(e)))
    case Null => Response(404, Message(UserNotFoundMessage))
    case Many(users) => Response(200, UserList(users))
    case One(u) =>
      if call.Insert? then Response(201, OneUser(u))
      else if call.UpdateById? then Response(200, OneUser(u))
      else Response(204, NoBody)
  }

  /**
   * One request, start to end, against the collection `db`. `body` is what
   * parsing the fully read body gave (GET and DELETE never read it);
   * `newId` is the id the store would give a new document and `fault` a
   * failure of the store itself, should the call be made.
   */
  function Handle(db: Db, verb: string, url: string, body: ParseOutcome, newId: string, fault: Option<string>)
    : (r: (Response, Db))
    requires !HasId(db, newId)
    ensures WellShaped(r.0)
    ensures r.0.status != 200 && r.0.status != 201 && r.0.status != 204 ==> r.1 == db
  {
    match Admit(RouteOf(verb, url), body)
    case Answer(response) => (response, db)
    case Call(call) =>
      var (outcome, db') := Execute(db, call, newId, fault);
      (Complete(call, outcome), db')
  }

  // ---------------------------------------------------------------------------
  // Properties of the request handler

  /** Every request outside the four routes is a 404 `Route not found`, and touches nothing. */
  lemma UnknownRouteNotFound(db: Db, verb: string, url: string, body: ParseOutcome, newId: string, fault: Option<string>)
    requires !HasId(db, newId)
    requires !(verb == "GET" && url == UsersPath) && !(verb == "POST" && url == UsersPath)
    requires !((verb == "PUT" || verb == "DELETE") && StartsWith(url, UsersPrefix))
    ensures Handle(db, verb, url, body, newId, fault) == (Response(404, Message(RouteNotFoundMessage)), db)
  {
  }

  /** A body that is not JSON, or is JSON `null`, is a 500 for POST and PUT, before any store call. */
  lemma UnreadableBodyIsServerError(db: Db, verb: string, url: string, body: ParseOutcome, newId: string, fault: Option<string>)
    requires !HasId(db, newId)
    requires RouteOf(verb, url) == CreateUser || RouteOf(verb, url).UpdateUser?
    requires body.ParseFailed? || body.ParsedNull?
    ensures var (r, db') := Handle(db, verb, url, body, newId, fault);
      && r.status == 500
      && r.body == ServerError(ServerErrorMessage, if body.ParsedNull? then NullBody else SyntaxError(body.error))
      && db' == db
  {
  }

  /**
   * A body that fails validation is a 400 listing exactly the validator's
   * messages; the store is not called, so a PUT gets this 400 even for an
   * id that does not exist, and a store fault does not show.
   */
  lemma InvalidBodyIsRejected(db: Db, verb: string, url: string, c: Candidate, newId: string, fault: Option<string>)
    requires !HasId(db, newId)
    requires RouteOf(verb, url) == CreateUser || RouteOf(verb, url).UpdateUser?
    requires !IsValid(c)
    ensures var (r, db') := Handle(db, verb, url, Parsed(c), newId, fault);
      && r == Response(400, ErrorList(ValidationResult(c).value))
      && 1 <= |r.body.errors| <= 4
      && db' == db
  {
    ErrorCountIsViolationCount(c);
  }

  /** A failure inside the store is a 500 carrying the store's error, and changes nothing. */
  lemma StoreFaultIsServerError(db: Db, verb: string, url: string, body: ParseOutcome, newId: string, message: string)
    requires !HasId(db, newId)
    requires Admit(RouteOf(verb, url), body).Call?
    ensures Handle(db, verb, url, body, newId, Some(message))
      == (Response(500, ServerError(ServerErrorMessage, StoreFailure(Fault(message)))), db)
  {
  }

  /** GET /users lists the whole collection, in the store's order. */
  lemma ListReturnsAll(db: Db, body: ParseOutcome, newId: string)
    requires !HasId(db, newId)
    ensures Handle(db, "GET", "/users", body, newId, None) == (Response(200, UserList(db)), db)
  {
  }

  /**
   * POST /users with a valid body whose email is not yet stored is a 201
   * whose document holds the submitted fields and the new id; the
   * collection gains exactly that document, and a later GET lists it.
   */
  lemma CreateStoresUser(db: Db, c: Candidate, newId: string, nextId: string, nextBody: ParseOutcome)
    requires !HasId(db, newId)
    requires IsValid(c)
    requires c.email.Str? && !EmailTaken(db, c.email.s, -1)
    requires nextId != newId && !HasId(db, nextId)
    ensures var (r, db') := Handle(db, "POST", "/users", Parsed(c), newId, None);
      && r.status == 201 && r.body.OneUser?
      && r.body.user.id == newId
      && AsCandidate(r.body.user) == c
      && db' == db + [r.body.user]
      && var (list, _) := Handle(db', "GET", "/users", nextBody, nextId, None);
         list.status == 200 && r.body.user in list.body.users
  {
    var u := ToUser(newId, c);
    var db' := db + [u];
    assert db'[|db|] == u;
    assert !HasId(db', nextId) by {
      assert forall i :: 0 <= i < |db| ==> db'[i] == db[i];
    }
  }

  /** A second user with an email already stored is a 500, as the store's unique index rejects it. */
  lemma DuplicateEmailRejected(db: Db, c: Candidate, newId: string)
    requires !HasId(db, newId)
    requires IsValid(c)
    requires c.email.Str? && EmailTaken(db, c.email.s, -1)
    ensures Handle(db, "POST", "/users", Parsed(c), newId, None)
      == (Response(500, ServerError(ServerErrorMessage, StoreFailure(DuplicateEmail))), db)
  {
  }

  /** PUT with a valid body for an id that is not stored is a 404 `User not found`. */
  lemma UpdateUnknownIdNotFound(db: Db, id: string, c: Candidate, newId: string)
    requires !HasId(db, newId)
    requires '/' !in id
    requires IsValid(c)
    requires !HasId(db, id)
    ensures Handle(db, "PUT", UsersPrefix + id, Parsed(c), newId, None)
      == (Response(404, Message(UserNotFoundMessage)), db)
  {
    IdOfUrl(id, "");
    assert UsersPrefix + id + "" == UsersPrefix + id;
  }

  /**
   * PUT with a valid body for a stored id is a 200 whose document keeps the
   * id and takes every field from the body; that document replaces the old
   * one in place and nothing else changes.
   */
  lemma UpdateReplacesUser(db: Db, id: string, c: Candidate, newId: string)
    requires !HasId(db, newId)
    requires '/' !in id
    requires IsValid(c)
    requires HasId(db, id)
    requires c.email.Str? && !EmailTaken(db, c.email.s, IndexOf(db, id).value)
    ensures var (r, db') := Handle(db, "PUT", UsersPrefix + id, Parsed(c), newId, None);
      && r.status == 200 && r.body.OneUser?
      && r.body.user.id == id
      && AsCandidate(r.body.user) == c
      && |db'| == |db|
      && db'[IndexOf(db, id).value] == r.body.user
      && forall k :: 0 <= k < |db| && k != IndexOf(db, id).value ==> db'[k] == db[k]
  {
    IdOfUrl(id, "");
    assert UsersPrefix + id + "" == UsersPrefix + id;
  }

  /** PUT giving a stored document an email another document has is a 500 carrying the store's error. */
  lemma UpdateDuplicateEmailRejected(db: Db, id: string, c: Candidate, newId: string)
    requires !HasId(db, newId)
    requires '/' !in id
    requires IsValid(c)
    requires HasId(db, id)
    requires c.email.Str? && EmailTaken(db, c.email.s, IndexOf(db, id).value)
    ensures Handle(db, "PUT", UsersPrefix + id, Parsed(c), newId, None)
      == (Response(500, ServerError(ServerErrorMessage, StoreFailure(DuplicateEmail))), db)
  {
    IdOfUrl(id, "");
    assert UsersPrefix + id + "" == UsersPrefix + id;
  }

  /** DELETE for an id that is not stored is a 404 `User not found`. */
  lemma DeleteUnknownIdNotFound(db: Db, id: string, body: ParseOutcome, newId: string)
    requires !HasId(db, newId)
    requires '/' !in id
    requires !HasId(db, id)
    ensures Handle(db, "DELETE", UsersPrefix + id, body, newId, None)
      == (Response(404, Message(UserNotFoundMessage)), db)
  {
    IdOfUrl(id, "");
    assert UsersPrefix + id + "" == UsersPrefix + id;
  }

  /**
   * DELETE for a stored id is a 204 with no body; the document is gone,
   * every other one stays, and a later GET no longer lists the id.
   */
  lemma DeleteRemovesUser(db: Db, id: string, body: ParseOutcome, newId: string)
    requires Invariant(db)
    requires !HasId(db, newId)
    requires '/' !in id
    requires HasId(db, id)
    ensures var (r, db') := Handle(db, "DELETE", UsersPrefix + id, body, newId, None);
      && r == Response(204, NoBody)
      && |db'| == |db| - 1
      && (forall u :: u in db && u.id != id ==> u in db')
      && var (list, _) := Handle(db', "GET", "/users", body, newId, None);
         list.status == 200 && forall u :: u in list.body.users ==> u.id != id
  {
    IdOfUrl(id, "");
    assert UsersPrefix + id + "" == UsersPrefix + id;
    DeleteRemovesId(db, id, newId);
    var db' := Execute(db, DeleteById(id), newId, None).1;
    assert !HasId(db', newId) by {
      var at := IndexOf(db, id).value;
      assert forall k :: 0 <= k < |db'| ==> db'[k] == db[if k < at then k else k + 1];
    }
  }

  /** No request breaks the collection's invariant: unique ids, unique emails, every field valid. */
  lemma HandlePreservesInvariant(db: Db, verb: string, url: string, body: ParseOutcome, newId: string, fault: Option<string>)
    requires Invariant(db)
    requires !HasId(db, newId)
    ensures Invariant(Handle(db, verb, url, body, newId, fault).1)
  {
    match Admit(RouteOf(verb, url), body)
    case Answer(_) =>
    case Call(call) => ExecutePreservesInvariant(db, call, newId, fault);
  }
}
