/**
 * The user registry: listing users by role, the partial update of a user,
 * and the registration of one user or of a batch of users.
 *
 * Passwords are encoded by a function the model does not look into.
 */
module Accounts {
  import opened Base
  import opened Domain
  import opened Stores

  function HasRole(role: Role): User -> bool {
    (u: User) => u.role == role
  }

  /** `findByRole(PROFESSOR)`: the professors, in store order. */
  function ListProfessors(users: seq<User>): (r: seq<User>)
    ensures forall u :: u in r <==> u in users && u.role == Professor
  {
    Filter(users, HasRole(Professor))
  }

  /** `findByRole(COORDINATOR)`: the coordinators, in store order. */
  function ListCoordinators(users: seq<User>): (r: seq<User>)
    ensures forall u :: u in r <==> u in users && u.role == Coordinator
  {
    Filter(users, HasRole(Coordinator))
  }

  /** Every user is listed exactly once by the two role lists together. */
  lemma RoleListsPartition(users: seq<User>)
    ensures |ListProfessors(users)| + |ListCoordinators(users)| == |users|
  {
    CountComplement(users, HasRole(Professor), HasRole(Coordinator));
  }

  /** The two fields of a user update that are read; each is applied only when present. */
  datatype UserPatch = UserPatch(career: Option<string>, fullName: Option<string>)

  /** The update of one user: a present career or full name replaces the stored one, nothing else changes. */
  function PatchUser(u: User, patch: UserPatch): (r: User)
    ensures patch.career.Some? ==> r.career == patch.career
    ensures patch.career.None? ==> r.career == u.career
    ensures r.fullName == patch.fullName.GetOr(u.fullName)
    ensures r.(career := u.career, fullName := u.fullName) == u
  {
    var withCareer := if patch.career.Some? then u.(career := patch.career) else u;
    if patch.fullName.Some? then withCareer.(fullName := patch.fullName.value) else withCareer
  }

  /** Applying the same update twice is applying it once. */
  lemma PatchUserIdempotent(u: User, patch: UserPatch)
    ensures PatchUser(PatchUser(u, patch), patch) == PatchUser(u, patch)
  {
  }

  /** An update that supplies neither field leaves the user as it was. */
  lemma EmptyPatchKeepsUser(u: User)
    ensures PatchUser(u, UserPatch(None, None)) == u
  {
  }

  /** `PUT /api/users/{id}`: not found for an unknown id, otherwise the patched user is saved in place. */
  function UpdateUser(users: seq<User>, id: nat, patch: UserPatch): (r: Result<(seq<User>, User)>)
    ensures r.Failure? <==> forall k :: 0 <= k < |users| ==> users[k].id != id
    ensures r.Failure? ==> r.error == UserNotFound
    ensures r.Success? ==>
      var i := FindUserIndex(users, id).value;
      r.value.0 == users[i := r.value.1] && r.value.1 == PatchUser(users[i], patch)
    ensures r.Success? ==> r.value.1.id == id
  {
    match FindUserIndex(users, id)
    case None => Failure(UserNotFound)
    case Some(i) =>
      var u := PatchUser(users[i], patch);
      Success((users[i := u], u))
  }

  /** Updating a user keeps ids and usernames unique. */
  lemma UpdateUserWf(users: seq<User>, id: nat, patch: UserPatch)
    requires Unique(users, UserId) && Unique(users, Username)
    requires UpdateUser(users, id, patch).Success?
    ensures Unique(UpdateUser(users, id, patch).value.0, UserId)
    ensures Unique(UpdateUser(users, id, patch).value.0, Username)
  {
  }

  /** A registration request. The role is required; the career is optional. */
  datatype NewUser = NewUser(username: string, password: string, fullName: string, role: Role, career: Option<string>)

  /** The password encoder. */
  type Encoder = string -> string

  function RequestName(req: NewUser): string {
    req.username
  }

  /** What is stored for a registration request: its fields, the encoded password and the ACTIVE status. */
  predicate StoredFrom(u: User, req: NewUser, encode: Encoder) {
    && u.username == req.username
    && u.password == encode(req.password)
    && u.fullName == req.fullName
    && u.role == req.role
    && u.career == req.career
    && u.status == ActiveStatus
  }

  /** The user `save` creates for a request, under the next id. */
  function NewAccount(users: seq<User>, req: NewUser, encode: Encoder): (u: User)
    ensures StoredFrom(u, req, encode)
    ensures forall k :: 0 <= k < |users| ==> users[k].id < u.id
  {
    User(FreshId(users, UserId), req.username, encode(req.password), req.fullName, req.role, req.career, ActiveStatus)
  }

  /** `register`: a taken username is refused; otherwise the user is saved with an encoded password and status ACTIVE. */
  function Register(users: seq<User>, req: NewUser, encode: Encoder): (r: Result<(seq<User>, User)>)
    ensures r.Failure? <==> exists k :: 0 <= k < |users| && users[k].username == req.username
    ensures r.Failure? ==> r.error == UsernameTaken
    ensures r.Success? ==> r.value.0 == users + [r.value.1] && StoredFrom(r.value.1, req, encode)
    ensures r.Success? ==> forall k :: 0 <= k < |users| ==> users[k].id < r.value.1.id
  {
    if FindUser(users, req.username).Some? then Failure(UsernameTaken)
    else
      var u := NewAccount(users, req, encode);
      Success((users + [u], u))
  }

  /** Registration keeps ids and usernames unique. */
  lemma RegisterWf(users: seq<User>, req: NewUser, encode: Encoder)
    requires Unique(users, UserId) && Unique(users, Username)
    requires Register(users, req, encode).Success?
    ensures Unique(Register(users, req, encode).value.0, UserId)
    ensures Unique(Register(users, req, encode).value.0, Username)
  {
    var u := Register(users, req, encode).value.1;
    AppendUnique(users, u, UserId);
    AppendUnique(users, u, Username);
  }

  /** `POST /api/auth/register`: coordinators only. */
  function RegisterEndpoint(users: seq<User>, auth: Auth, req: NewUser, encode: Encoder): (r: Result<(seq<User>, User)>)
    ensures Coordinator !in auth.authorities ==> r == Failure(AccessDenied)
    ensures Coordinator in auth.authorities ==> r == Register(users, req, encode)
  {
    if Coordinator !in auth.authorities then Failure(AccessDenied) else Register(users, req, encode)
  }

  /** No earlier request of the batch has the same username. */
  predicate FirstOfName(batch: seq<NewUser>, k: nat)
    requires k < |batch|
  {
    forall j :: 0 <= j < k ==> batch[j].username != batch[k].username
  }

  /** No saved user takes the username of a user stored before. */
  predicate AvoidsTaken(users: seq<User>, saved: seq<User>) {
    forall j, k :: 0 <= j < |saved| && 0 <= k < |users| ==> users[k].username != saved[j].username
  }

  /** Every requested username is in the store. */
  predicate CoversRequests(stored: seq<User>, batch: seq<NewUser>) {
    forall k :: 0 <= k < |batch| ==> exists m :: 0 <= m < |stored| && stored[m].username == batch[k].username
  }

  /** Every saved user comes from the first request of its name, with that request's fields. */
  predicate FromFirstRequests(saved: seq<User>, batch: seq<NewUser>, encode: Encoder) {
    forall j :: 0 <= j < |saved| ==> FromFirstRequest(saved[j], batch, encode)
  }

  /** The user was stored from the first request of its name, with that request's fields. */
  predicate FromFirstRequest(u: User, batch: seq<NewUser>, encode: Encoder) {
    exists k :: 0 <= k < |batch| && FirstOfName(batch, k) && StoredFrom(u, batch[k], encode)
  }

  /**
   * The outcome of handling a batch request by request: the store after the
   * last request and the users saved on the way. Each request is checked
   * against the store as the earlier requests left it.
   */
  function BatchOutcome(users: seq<User>, batch: seq<NewUser>, encode: Encoder): (r: (seq<User>, seq<User>))
    ensures r.0 == users + r.1
    ensures |r.1| <= |batch|
    decreases |batch|
  {
    if |batch| == 0 then (users, [])
    else
      var prev := BatchOutcome(users, batch[..|batch| - 1], encode);
      var req := batch[|batch| - 1];
      if FindUser(prev.0, req.username).Some? then prev
      else
        var u := NewAccount(prev.0, req, encode);
        (prev.0 + [u], prev.1 + [u])
  }

  /** Taken usernames are skipped: no saved user shares its name with a user stored before the batch. */
  lemma {:induction false} BatchSkipsTaken(users: seq<User>, batch: seq<NewUser>, encode: Encoder)
    ensures AvoidsTaken(users, BatchOutcome(users, batch, encode).1)
    decreases |batch|
  {
    if |batch| > 0 {
      var prev := BatchOutcome(users, batch[..|batch| - 1], encode);
      BatchSkipsTaken(users, batch[..|batch| - 1], encode);
      assert forall k :: 0 <= k < |users| ==> prev.0[k] == users[k];
    }
  }

  /** A username repeated within the batch is saved once: the saved usernames are distinct. */
  lemma {:induction false} BatchSavesOnce(users: seq<User>, batch: seq<NewUser>, encode: Encoder)
    ensures Unique(BatchOutcome(users, batch, encode).1, Username)
    decreases |batch|
  {
    if |batch| > 0 {
      var prev := BatchOutcome(users, batch[..|batch| - 1], encode);
      var req := batch[|batch| - 1];
      BatchSavesOnce(users, batch[..|batch| - 1], encode);
      if FindUser(prev.0, req.username).None? {
        var u := NewAccount(prev.0, req, encode);
        forall j | 0 <= j < |prev.1| ensures Username(prev.1[j]) != Username(u) {
          assert prev.1[j] == prev.0[|users| + j];
        }
        AppendUnique(prev.1, u, Username);
      }
    }
  }

  /** The store stays free of duplicate ids and usernames. */
  lemma {:induction false} BatchKeepsUnique(users: seq<User>, batch: seq<NewUser>, encode: Encoder)
    requires Unique(users, UserId) && Unique(users, Username)
    ensures Unique(BatchOutcome(users, batch, encode).0, UserId)
    ensures Unique(BatchOutcome(users, batch, encode).0, Username)
    decreases |batch|
  {
    if |batch| > 0 {
      var prev := BatchOutcome(users, batch[..|batch| - 1], encode);
      var req := batch[|batch| - 1];
      BatchKeepsUnique(users, batch[..|batch| - 1], encode);
      if FindUser(prev.0, req.username).None? {
        var u := NewAccount(prev.0, req, encode);
        AppendUnique(prev.0, u, UserId);
        AppendUnique(prev.0, u, Username);
      }
    }
  }

  /** Afterwards every requested username is stored, either from before or from this batch. */
  lemma {:induction false} BatchCoversRequests(users: seq<User>, batch: seq<NewUser>, encode: Encoder)
    ensures CoversRequests(BatchOutcome(users, batch, encode).0, batch)
    decreases |batch|
  {
    if |batch| > 0 {
      var init := batch[..|batch| - 1];
      var prev := BatchOutcome(users, init, encode);
      var req := batch[|batch| - 1];
      var stored := BatchOutcome(users, batch, encode).0;
      BatchCoversRequests(users, init, encode);
      assert forall m :: 0 <= m < |prev.0| ==> stored[m] == prev.0[m];
      forall k | 0 <= k < |batch| ensures exists m :: 0 <= m < |stored| && stored[m].username == batch[k].username {
        if k < |init| {
          assert batch[k] == init[k];
          var m :| 0 <= m < |prev.0| && prev.0[m].username == init[k].username;
          assert stored[m] == prev.0[m];
        } else if FindUser(prev.0, req.username).None? {
          assert stored[|prev.0|].username == req.username;
        }
      }
    }
  }

  /** A request whose name the store does not hold yet is the first request of that name. */
  lemma UnseenNameIsFirst(users: seq<User>, batch: seq<NewUser>, encode: Encoder)
    requires |batch| > 0
    requires FindUser(BatchOutcome(users, batch[..|batch| - 1], encode).0, batch[|batch| - 1].username).None?
    ensures FirstOfName(batch, |batch| - 1)
  {
    var init := batch[..|batch| - 1];
    var prev := BatchOutcome(users, init, encode);
    var req := batch[|batch| - 1];
    BatchCoversRequests(users, init, encode);
    forall i | 0 <= i < |batch| - 1 ensures batch[i].username != req.username {
      assert batch[i] == init[i];
      var m :| 0 <= m < |prev.0| && prev.0[m].username == init[i].username;
    }
  }

  /** A saved request is the first of its name in the batch, and the saved user holds its fields. */
  lemma {:induction false} BatchSavesFirstRequests(users: seq<User>, batch: seq<NewUser>, encode: Encoder)
    ensures FromFirstRequests(BatchOutcome(users, batch, encode).1, batch, encode)
    decreases |batch|
  {
    if |batch| > 0 {
      var init := batch[..|batch| - 1];
      var prev := BatchOutcome(users, init, encode);
      var req := batch[|batch| - 1];
      var saved := BatchOutcome(users, batch, encode).1;
      BatchSavesFirstRequests(users, init, encode);
      assert forall k :: 0 <= k < |init| ==> batch[k] == init[k];
      forall j | 0 <= j < |saved|
        ensures FromFirstRequest(saved[j], batch, encode)
      {
        if j < |prev.1| {
          assert saved[j] == prev.1[j];
          assert FromFirstRequest(prev.1[j], init, encode);
          var k :| 0 <= k < |init| && FirstOfName(init, k) && StoredFrom(prev.1[j], init[k], encode);
          assert FirstOfName(batch, k);
        } else {
          assert FindUser(prev.0, req.username).None?;
          var u := NewAccount(prev.0, req, encode);
          assert saved == prev.1 + [u];
          assert saved[j] == u;
          UnseenNameIsFirst(users, batch, encode);
          assert StoredFrom(saved[j], batch[|batch| - 1], encode);
        }
      }
      assert FromFirstRequests(saved, batch, encode);
    }
  }

  /** The saved users come in request order. */
  lemma {:induction false} BatchKeepsOrder(users: seq<User>, batch: seq<NewUser>, encode: Encoder)
    ensures IsSubsequence(Map(BatchOutcome(users, batch, encode).1, Username), Map(batch, RequestName))
    decreases |batch|
  {
    if |batch| == 0 {
      assert Map(BatchOutcome(users, batch, encode).1, Username) == [];
    } else {
      var n := |batch| - 1;
      var init := batch[..n];
      var prev := BatchOutcome(users, init, encode);
      var req := batch[n];
      BatchKeepsOrder(users, init, encode);
      assert batch == init + [req];
      MapAppend(init, [req], RequestName);
      assert Map([req], RequestName) == [req.username];
      if FindUser(prev.0, req.username).None? {
        var u := NewAccount(prev.0, req, encode);
        MapAppend(prev.1, [u], Username);
        assert Map([u], Username) == [req.username];
        SubsequenceSnoc(Map(prev.1, Username), Map(init, RequestName), req.username);
      } else {
        SubsequenceGrow(Map(prev.1, Username), Map(init, RequestName), req.username);
      }
    }
  }

  /** One more request: the outcome of a prefix one request longer. */
  lemma BatchOutcomeNext(users: seq<User>, batch: seq<NewUser>, i: nat, encode: Encoder)
    requires i < |batch|
    ensures FindUser(BatchOutcome(users, batch[..i], encode).0, batch[i].username).Some? ==>
      BatchOutcome(users, batch[..i + 1], encode) == BatchOutcome(users, batch[..i], encode)
    ensures FindUser(BatchOutcome(users, batch[..i], encode).0, batch[i].username).None? ==>
      var prev := BatchOutcome(users, batch[..i], encode);
      var u := NewAccount(prev.0, batch[i], encode);
      BatchOutcome(users, batch[..i + 1], encode) == (prev.0 + [u], prev.1 + [u])
  {
    assert batch[..i + 1][..i] == batch[..i];
    assert batch[..i + 1][i] == batch[i];
  }

  /**
   * `registerBatch`: each request is checked against the store as it is
   * after the earlier saves; a taken username is skipped, never an error.
   * Returns the new store and the users saved, in request order.
   */
  method RegisterBatch(users: seq<User>, batch: seq<NewUser>, encode: Encoder) returns (stored: seq<User>, saved: seq<User>)
    ensures stored == users + saved
    ensures |saved| <= |batch|
    ensures AvoidsTaken(users, saved)
    ensures Unique(saved, Username)
    ensures CoversRequests(stored, batch)
    ensures FromFirstRequests(saved, batch, encode)
    ensures IsSubsequence(Map(saved, Username), Map(batch, RequestName))
    ensures Unique(users, UserId) && Unique(users, Username) ==> Unique(stored, UserId) && Unique(stored, Username)
  {
    stored := users;
    saved := [];
    var i := 0;
    while i < |batch|
      invariant 0 <= i <= |batch|
      invariant stored == BatchOutcome(users, batch[..i], encode).0
      invariant saved == BatchOutcome(users, batch[..i], encode).1
    {
      var req := batch[i];
      BatchOutcomeNext(users, batch, i, encode);
      if FindUser(stored, req.username).None? {
        var u := NewAccount(stored, req, encode);
        stored := stored + [u];
        saved := saved + [u];
      }
      i := i + 1;
    }
    assert batch[..i] == batch;
    BatchSkipsTaken(users, batch, encode);
    BatchSavesOnce(users, batch, encode);
    BatchCoversRequests(users, batch, encode);
    BatchSavesFirstRequests(users, batch, encode);
    BatchKeepsOrder(users, batch, encode);
    if Unique(users, UserId) && Unique(users, Username) {
      BatchKeepsUnique(users, batch, encode);
    }
  }
}
