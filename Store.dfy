/**
 * The document store the handler talks to, as an abstract collection: the
 * users in their natural order. It offers the four calls the handler makes
 * (find all, insert, find-by-id-and-update returning the new document,
 * find-by-id-and-delete). The unique index on `email` rejects a document
 * whose email another document already has; every other failure of the
 * store (lost connection, an id that is not an ObjectId, ...) is an outside
 * `fault` that rejects the call and changes nothing.
 */
module Store {
  import opened Wrappers
  import opened Patterns
  import opened Validation

  /** A stored user: the id assigned by the store and the four schema fields. */
  datatype User = User(id: string, username: string, email: string, phone: string, dateOfBirth: string)

  /** The collection, in the order the store returns it. */
  type Db = seq<User>

  datatype StoreCall =
    | FindAll
    | Insert(body: Candidate)
    | UpdateById(id: string, body: Candidate)
    | DeleteById(id: string)

  datatype StoreError = DuplicateEmail | Fault(message: string)

  /** What a call resolves to: a rejection, `null`, one document, or a list of them. */
  datatype StoreOutcome =
    | Failed(error: StoreError)
    | Null
    | One(user: User)
    | Many(users: seq<User>)

  /** Only bodies that passed validation are handed to the store. */
  predicate CallReady(call: StoreCall) {
    match call
    case Insert(body) => IsValid(body)
    case UpdateById(_, body) => IsValid(body)
    case _ => true
  }

  /** The outcomes each call can resolve to. */
  predicate Fits(call: StoreCall, outcome: StoreOutcome) {
    match outcome
    case Failed(_) => true
    case Null => call.UpdateById? || call.DeleteById?
    case One(_) => !call.FindAll?
    case Many(_) => call.FindAll?
  }

  predicate HasId(db: Db, id: string) {
    exists i :: 0 <= i < |db| && db[i].id == id
  }

  /** Where the document with this id sits, if there is one. */
  function IndexOf(db: Db, id: string): (r: Option<nat>)
    ensures r.Some? ==> r.value < |db| && db[r.value].id == id
    ensures r.None? <==> !HasId(db, id)
  {
    if db == [] then None
    else if db[0].id == id then Some(0)
    else
      var r := IndexOf(db[1..], id);
      assert forall i :: 1 <= i < |db| ==> db[i] == db[1..][i - 1];
      if r.Some? then Some(r.value + 1) else None
  }

  /** Some document other than the one at `except` already has this email. */
  predicate EmailTaken(db: Db, email: string, except: int) {
    exists j :: 0 <= j < |db| && j != except && db[j].email == email
  }

  /** The document built from a validated body; extra properties of the body are dropped. */
  function ToUser(id: string, body: Candidate): (u: User)
    requires IsValid(body)
    ensures body == Candidate(Str(u.username), Str(u.email), Str(u.phone), Str(u.dateOfBirth))
    ensures u.id == id
  {
    ValidIffAllFieldsWellFormed(body);
    User(id, body.username.s, body.email.s, body.phone.s, body.dateOfBirth.s)
  }

  function AsCandidate(u: User): Candidate {
    Candidate(Str(u.username), Str(u.email), Str(u.phone), Str(u.dateOfBirth))
  }

  /** The store's own guarantees plus the validator's: unique ids, unique emails, valid fields. */
  predicate Invariant(db: Db) {
    && (forall i, j :: 0 <= i < j < |db| ==> db[i].id != db[j].id)
    && (forall i, j :: 0 <= i < j < |db| ==> db[i].email != db[j].email)
    && (forall i :: 0 <= i < |db| ==> IsValid(AsCandidate(db[i])))
  }

  /** Remove the document at index `i`, keeping the order of the others. */
  function RemoveAt(db: Db, i: nat): (r: Db)
    requires i < |db|
    ensures |r| == |db| - 1
    ensures forall k :: 0 <= k < i ==> r[k] == db[k]
    ensures forall k :: i <= k < |r| ==> r[k] == db[k + 1]
  {
    db[..i] + db[i + 1..]
  }

  /**
   * Run one call against the collection. `newId` is the id the store
   * assigns to an inserted document; it is fresh.
   */
  function Execute(db: Db, call: StoreCall, newId: string, fault: Option<string>): (r: (StoreOutcome, Db))
    requires CallReady(call)
    requires !HasId(db, newId)
    ensures Fits(call, r.0)
    ensures r.0.Failed? ==> r.1 == db
  {
    if fault.Some? then (Failed(Fault(fault.value)), db)
    else match call
      case FindAll => (Many(db), db)
      case Insert(body) =>
        var u := ToUser(newId, body);
        if EmailTaken(db, u.email, -1) then (Failed(DuplicateEmail), db)
        else (One(u), db + [u])
      case UpdateById(id, body) =>
        var at := IndexOf(db, id);
        if at.None? then (Null, db)
        else
          var u := ToUser(id, body);
          if EmailTaken(db, u.email, at.value) then (Failed(DuplicateEmail), db)
          else (One(u), db[at.value := u])
      case DeleteById(id) =>
        var at := IndexOf(db, id);
        if at.None? then (Null, db)
        else (One(db[at.value]), RemoveAt(db, at.value))
  }

  /** Every call keeps the collection's invariant. */
  lemma ExecutePreservesInvariant(db: Db, call: StoreCall, newId: string, fault: Option<string>)
    requires CallReady(call)
    requires !HasId(db, newId)
    requires Invariant(db)
    ensures Invariant(Execute(db, call, newId, fault).1)
  {
    if fault.None? {
      match call
      case FindAll =>
      case Insert(body) =>
        var u := ToUser(newId, body);
        if !EmailTaken(db, u.email, -1) {
          InsertPreservesInvariant(db, u);
        }
      case UpdateById(id, body) =>
        var at := IndexOf(db, id);
        if at.Some? && !EmailTaken(db, ToUser(id, body).email, at.value) {
          UpdatePreservesInvariant(db, at.value, ToUser(id, body));
        }
      case DeleteById(id) =>
        var at := IndexOf(db, id);
        if at.Some? {
          RemovePreservesInvariant(db, at.value);
        }
    }
  }

  lemma InsertPreservesInvariant(db: Db, u: User)
    requires Invariant(db)
    requires !HasId(db, u.id) && !EmailTaken(db, u.email, -1)
    requires IsValid(AsCandidate(u))
    ensures Invariant(db + [u])
  {
    var db' := db + [u];
    assert db'[|db|] == u;
    assert forall i :: 0 <= i < |db| ==> db'[i] == db[i];
  }

  lemma UpdatePreservesInvariant(db: Db, at: nat, u: User)
    requires Invariant(db)
    requires at < |db| && db[at].id == u.id && !EmailTaken(db, u.email, at)
    requires IsValid(AsCandidate(u))
    ensures Invariant(db[at := u])
  {
  }

  lemma RemovePreservesInvariant(db: Db, at: nat)
    requires Invariant(db)
    requires at < |db|
    ensures Invariant(RemoveAt(db, at))
  {
    var db' := RemoveAt(db, at);
    forall i, j | 0 <= i < j < |db'|
      ensures db'[i].id != db'[j].id && db'[i].email != db'[j].email
    {
      var i', j' := if i < at then i else i + 1, if j < at then j else j + 1;
      assert db'[i] == db[i'] && db'[j] == db[j'];
    }
    forall i | 0 <= i < |db'| ensures IsValid(AsCandidate(db'[i])) {
      var i' := if i < at then i else i + 1;
      assert db'[i] == db[i'];
    }
  }

  /** With unique ids, deleting a document leaves no document with its id. */
  lemma DeleteRemovesId(db: Db, id: string, newId: string)
    requires Invariant(db)
    requires !HasId(db, newId)
    requires HasId(db, id)
    ensures var r := Execute(db, DeleteById(id), newId, None);
      && r.0.One? && r.0.user.id == id
      && !HasId(r.1, id)
      && |r.1| == |db| - 1
      && forall u :: u in db && u.id != id ==> u in r.1
  {
    var at := IndexOf(db, id).value;
    var db' := RemoveAt(db, at);
    forall k | 0 <= k < |db'| ensures db'[k].id != id {
      var k' := if k < at then k else k + 1;
      assert db'[k] == db[k'];
    }
    forall u | u in db && u.id != id ensures u in db' {
      var k :| 0 <= k < |db| && db[k] == u;
      if k < at { assert db'[k] == u; } else { assert k != at; assert db'[k - 1] == u; }
    }
  }
}
