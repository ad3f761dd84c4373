/** The access-control middleware (middleware/auth.js) as decision functions.
    Each guard reads the stores and returns a decision; none returns a store,
    so none can change one. */
module AuthMiddleware {
  import opened Common
  import opened Crypto
  import opened UserModel

  /** The authenticated caller `protect` attaches to the request: the stored
      record together with its id. */
  datatype Principal = Principal(id: Id, user: User) {
    predicate IsMaster() {
      user.role == Master
    }
  }

  /** `req.headers.authorization?.split(' ')[1]`, kept only when truthy. */
  function BearerToken(header: Option<string>): (t: Option<string>)
    ensures t.Some? ==> |t.value| > 0 && ' ' !in t.value
    ensures t.Some? <==> header.Some? && |Split(header.value, ' ')| >= 2 && |Split(header.value, ' ')[1]| > 0
  {
    if header.None? then None
    else
      var parts := Split(header.value, ' ');
      if |parts| >= 2 && |parts[1]| > 0 then Some(parts[1]) else None
  }

  /** The second space-separated piece of `scheme + " " + token` is the
      token, whenever the token itself contains no space. */
  lemma {:induction false} BearerTokenOfHeader(scheme: string, token: string)
    requires ' ' !in scheme && ' ' !in token && |token| > 0
    ensures BearerToken(Some(scheme + " " + token)) == Some(token)
  {
    var h := scheme + " " + token;
    assert h == Join([scheme, token], ' ');
    SplitJoin([scheme, token], ' ');
  }

  /** A header with no space has no second piece. */
  lemma BearerAloneRejected(header: string)
    requires ' ' !in header
    ensures BearerToken(Some(header)) == None
  {
  }

  /** `protect` at time `now`: 401 unless the header carries an unexpired
      token that verifies to the id of an existing user whose loaded
      `isActive` is true; otherwise that user is the caller. */
  function Protect(users: map<Id, User>, header: Option<string>, now: nat): (r: Result<Principal>)
    ensures r.Err? ==> r.failure == Unauthorized
    ensures BearerToken(header).None? ==> r.Err?
    ensures r.Ok? ==>
      && BearerToken(header).Some?
      && VerifyToken(BearerToken(header).value, now) == Some(r.value.id)
      && r.value.id in users
      && r.value.user == users[r.value.id]
      && ActiveOnLoad(r.value.user)
  {
    match BearerToken(header)
    case None => Err(Unauthorized)
    case Some(token) =>
      match VerifyToken(token, now)
      case None => Err(Unauthorized)
      case Some(id) =>
        if id !in users || !ActiveOnLoad(users[id]) then Err(Unauthorized)
        else Ok(Principal(id, users[id]))
  }

  /** Completeness of `protect`: a bearer token signed for an existing,
      active user less than 30 days ago admits exactly that user. */
  lemma ProtectAdmitsSignedUser(users: map<Id, User>, scheme: string, id: Id, iat: nat, now: nat)
    requires ' ' !in scheme
    requires id in users && ActiveOnLoad(users[id])
    requires now < iat + TokenLifetime
    ensures Protect(users, Some(scheme + " " + SignToken(id, iat)), now) == Ok(Principal(id, users[id]))
  {
    BearerTokenOfHeader(scheme, SignToken(id, iat));
    VerifySignedToken(id, iat, now);
  }

  /** A deactivated or deleted user is refused even with a token that was
      signed for them, and so is anyone presenting an expired token. */
  lemma ProtectRefusesInactive(users: map<Id, User>, header: Option<string>, id: Id, iat: nat, now: nat)
    requires id !in users || !ActiveOnLoad(users[id]) || now >= iat + TokenLifetime
    requires BearerToken(header) == Some(SignToken(id, iat))
    ensures Protect(users, header, now) == Err(Unauthorized)
  {
    VerifySignedToken(id, iat, now);
  }

  /** `restrictTo(...roles)`: the caller's role must be listed, else 403. */
  function RestrictTo(roles: seq<Role>, caller: Principal): (r: Result<()>)
    ensures r.Ok? <==> caller.user.role in roles
    ensures r.Err? ==> r.failure == Forbidden
  {
    if caller.user.role in roles then Ok(()) else Err(Forbidden)
  }

  /** Listing more roles never refuses a caller a shorter list admitted, and
      the route's `restrictTo('master')` admits exactly the master. */
  lemma RestrictToMonotone(roles: seq<Role>, more: seq<Role>, caller: Principal)
    ensures RestrictTo(roles, caller).Ok? ==> RestrictTo(roles + more, caller).Ok?
    ensures RestrictTo(more, caller).Ok? ==> RestrictTo(roles + more, caller).Ok?
    ensures RestrictTo([Master], caller).Ok? <==> caller.IsMaster()
    ensures RestrictTo([Master, Admin], caller).Ok?
  {
    if caller.user.role in roles {
      assert (roles + more)[IndexOfRole(roles, caller.user.role)] == caller.user.role;
    }
    if caller.user.role in more {
      assert (roles + more)[|roles| + IndexOfRole(more, caller.user.role)] == caller.user.role;
    }
  }

  function IndexOfRole(roles: seq<Role>, role: Role): (i: nat)
    requires role in roles
    ensures i < |roles| && roles[i] == role
  {
    if roles[0] == role then 0 else 1 + IndexOfRole(roles[1..], role)
  }

  /** `restrictToOwnerOrMaster(model)`, for any store whose records expose
      an optional `addedBy` through `owner`: 404 for a missing record, then
      pass iff the caller is master or the record's owner, else 403. */
  function RestrictToOwnerOrMaster<R>(store: map<Id, R>, owner: R -> Option<Id>, id: Id, caller: Principal): (r: Result<()>)
    ensures id !in store ==> r == Err(NotFound)
    ensures id in store ==> (r.Ok? <==> caller.IsMaster() || owner(store[id]) == Some(caller.id))
    ensures id in store && r.Err? ==> r.failure == Forbidden
  {
    if id !in store then Err(NotFound)
    else if caller.IsMaster() || owner(store[id]) == Some(caller.id) then Ok(())
    else Err(Forbidden)
  }

  /** A record without an owner is passable by master alone. */
  lemma OwnerlessOnlyMaster<R>(store: map<Id, R>, owner: R -> Option<Id>, id: Id, caller: Principal)
    requires id in store && owner(store[id]).None?
    ensures RestrictToOwnerOrMaster(store, owner, id, caller).Ok? <==> caller.IsMaster()
  {
  }
}
