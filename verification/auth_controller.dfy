/** The account handlers (controllers/authController.js): login, token
    refresh and the master-only management of admin accounts. Each handler
    takes the user store and returns its outcome and the store after it.
    `now` is the clock reading, in seconds, at which tokens are signed and
    checked. */
module AuthController {
  import opened Common
  import opened Crypto
  import opened UserModel
  import opened AuthMiddleware

  /** What a successful login answers with. */
  datatype LoginReply = LoginReply(token: string, id: Id, email: string, role: Role)

  /** The id of the user `User.findOne({ email, isActive: true })` finds:
      one whose stored email is `email` and whose stored `isActive` is true
      (the unique index makes it unique). */
  function FindActiveByEmail(users: map<Id, User>, email: string): (r: Option<Id>)
    requires EmailsUnique(users)
    ensures r.Some? <==> exists id :: id in users && users[id].email == email && ActiveInQuery(users[id])
    ensures r.Some? ==> r.value in users && users[r.value].email == email && ActiveInQuery(users[r.value])
  {
    if exists id :: id in users && users[id].email == email && ActiveInQuery(users[id]) then
      var id :| id in users && users[id].email == email && ActiveInQuery(users[id]);
      Some(id)
    else
      None
  }

  /** `login` at time `now`: 400 without both fields; 401 unless an active
      user has the (lower-cased) email and the password matches; otherwise a
      token for that user, issued at `now`. */
  function Login(users: map<Id, User>, email: Option<string>, password: Option<string>, now: nat): (r: Result<LoginReply>)
    requires EmailsUnique(users)
    ensures !Truthy(email) || !Truthy(password) ==> r == Err(BadRequest)
    ensures Truthy(email) && Truthy(password) && r.Err? ==> r.failure == Unauthorized
    ensures r.Ok? ==>
      && r.value.id in users
      && ActiveInQuery(users[r.value.id])
      && users[r.value.id].email == ToLower(email.value)
      && CheckPassword(users[r.value.id], password.value)
      && r.value.token == SignToken(r.value.id, now)
      && r.value.role == users[r.value.id].role
  {
    if !Truthy(email) || !Truthy(password) then Err(BadRequest)
    else
      match FindActiveByEmail(users, ToLower(email.value))
      case None => Err(Unauthorized)
      case Some(id) =>
        if !CheckPassword(users[id], password.value) then Err(Unauthorized)
        else Ok(LoginReply(SignToken(id, now), id, users[id].email, users[id].role))
  }

  /** Login succeeds exactly for a user stored as active whose password
      matches, and the token it returns verifies to that user for 30 days. */
  lemma LoginSucceedsIff(users: map<Id, User>, email: string, password: string, id: Id, now: nat)
    requires EmailsUnique(users)
    requires |email| > 0 && |password| > 0
    requires id in users && users[id].email == ToLower(email)
    ensures var r := Login(users, Some(email), Some(password), now);
      && (r.Ok? <==> ActiveInQuery(users[id]) && CheckPassword(users[id], password))
      && (r.Ok? ==> r.value.id == id && VerifyToken(r.value.token, now) == Some(id))
  {
    FindActiveByOwnEmail(users, ToLower(email), id);
    VerifySignedToken(id, now, now);
    var r := Login(users, Some(email), Some(password), now);
    assert Truthy(Some(email)) && Truthy(Some(password));
    if ActiveInQuery(users[id]) {
      assert r == if CheckPassword(users[id], password) then Ok(LoginReply(SignToken(id, now), id, users[id].email, users[id].role)) else Err(Unauthorized);
    } else {
      assert r == Err(Unauthorized);
    }
  }

  /** With unique emails, the lookup finds the record holding the email
      exactly when that record matches the `isActive: true` filter. */
  lemma FindActiveByOwnEmail(users: map<Id, User>, email: string, id: Id)
    requires EmailsUnique(users)
    requires id in users && users[id].email == email
    ensures FindActiveByEmail(users, email) == if ActiveInQuery(users[id]) then Some(id) else None
  {
    var found := FindActiveByEmail(users, email);
    if found.Some? {
      assert users[found.value].email == users[id].email;
    }
  }

  /** An account not stored as active can never log in. */
  lemma InactiveNeverLogsIn(users: map<Id, User>, email: Option<string>, password: Option<string>, now: nat)
    requires EmailsUnique(users)
    requires Truthy(email)
    requires forall id :: id in users && users[id].email == ToLower(email.value) ==> !ActiveInQuery(users[id])
    ensures Login(users, email, password, now).Err?
  {
  }

  /** `addAdmin`: 403 for a non-master caller; otherwise the new record is
      an admin added by the caller, saved under the fresh id `newId`, or 400
      when it fails validation or its email is taken. */
  function AddAdmin(users: map<Id, User>, caller: Principal, email: Option<string>, password: Option<string>, newId: Id)
    : (r: (Result<Id>, map<Id, User>))
    requires newId !in users
    ensures !caller.IsMaster() ==> r == (Err(Forbidden), users)
    ensures caller.IsMaster() && r.0.Err? ==> r.0.failure == BadRequest
    ensures caller.IsMaster() ==>
      (r.0.Ok? <==>
         && |Text(email)| > 0
         && Utf16Length(Text(password)) >= MinPasswordLength
         && !EmailTaken(users, newId, ToLower(Text(email))))
    ensures r.0.Err? ==> r.1 == users
    ensures r.0.Ok? ==>
      && caller.IsMaster()
      && r.0.value == newId
      && r.1.Keys == users.Keys + {newId}
      && (forall id :: id in users ==> r.1[id] == users[id])
      && r.1[newId].email == ToLower(email.value)
      && r.1[newId].password == Hashed(HashPassword(password.value))
      && r.1[newId].role == Admin
      && r.1[newId].addedBy == Some(caller.id)
      && r.1[newId].isActive == Some(true)
      && r.1[newId].permissions == DefaultPermissions(Admin)
  {
    if !caller.IsMaster() then (Err(Forbidden), users)
    else
      var doc := NewUser(Text(email), Text(password), Admin, Some(caller.id));
      match SaveUser(users, newId, doc)
      case Err(f) => (Err(f), users)
      case Ok(saved) => (Ok(newId), users[newId := saved])
  }

  /** A successful `addAdmin` keeps the store's invariants, and the new
      admin can log in with the password it was given. */
  lemma AddAdminKeepsStoreOk(users: map<Id, User>, caller: Principal, email: string, password: string, newId: Id)
    requires newId !in users && UsersOk(users)
    requires AddAdmin(users, caller, Some(email), Some(password), newId).0.Ok?
    ensures UsersOk(AddAdmin(users, caller, Some(email), Some(password), newId).1)
    ensures CheckPassword(AddAdmin(users, caller, Some(email), Some(password), newId).1[newId], password)
  {
    var doc := NewUser(email, password, Admin, Some(caller.id));
    SavePreservesUsersOk(users, newId, doc);
    SavedPasswordMatchesOnlyPlaintext(users, newId, doc, password);
  }

  /** `updateAdminStatus`: 403 for a non-master caller, 404 for a missing
      target, 403 for a master target; otherwise only `isActive` changes.
      A body without `isActive` (None) unsets the field. */
  function UpdateAdminStatus(users: map<Id, User>, caller: Principal, target: Id, isActive: Option<bool>)
    : (r: (Result<User>, map<Id, User>))
    ensures r.0.Err? ==> r.1 == users
    ensures !caller.IsMaster() ==> r.0 == Err(Forbidden)
    ensures caller.IsMaster() && target !in users ==> r.0 == Err(NotFound)
    ensures caller.IsMaster() && target in users && users[target].role == Master ==> r.0 == Err(Forbidden)
    ensures r.0.Ok? ==>
      && caller.IsMaster()
      && target in users && users[target].role == Admin
      && r.0.value == HashIfModified(users[target].(isActive := isActive))
      && r.1 == users[target := r.0.value]
      && (users[target].password.Hashed? ==> r.1 == users[target := users[target].(isActive := isActive)])
  {
    if !caller.IsMaster() then (Err(Forbidden), users)
    else if target !in users then (Err(NotFound), users)
    else if users[target].role == Master then (Err(Forbidden), users)
    else
      var doc := users[target].(isActive := isActive);
      match SaveUser(users, target, doc)
      case Err(f) => (Err(f), users)
      case Ok(saved) => (Ok(saved), users[target := saved])
  }

  /** On a consistent store, the master can always set an admin's status,
      and the store stays consistent. */
  lemma UpdateAdminStatusSucceeds(users: map<Id, User>, caller: Principal, target: Id, isActive: Option<bool>)
    requires UsersOk(users) && caller.IsMaster()
    requires target in users && users[target].role == Admin
    ensures UpdateAdminStatus(users, caller, target, isActive).0.Ok?
    ensures UsersOk(UpdateAdminStatus(users, caller, target, isActive).1)
  {
    assert Stored(users[target]);
    SavePreservesUsersOk(users, target, users[target].(isActive := isActive));
  }

  /** A body without `isActive` unsets the field: the admin can no longer
      log in, yet a token already issued still passes `protect`, because
      the loaded document reads the default `true`. */
  lemma MissingStatusBlocksOnlyLogin(users: map<Id, User>, caller: Principal, target: Id, email: string, password: string, scheme: string, iat: nat, now: nat)
    requires UsersOk(users) && caller.IsMaster()
    requires target in users && users[target].role == Admin
    requires ToLower(email) == users[target].email
    requires ' ' !in scheme && now < iat + TokenLifetime
    ensures var users' := UpdateAdminStatus(users, caller, target, None).1;
      && EmailsUnique(users')
      && Login(users', Some(email), Some(password), now).Err?
      && Protect(users', Some(scheme + " " + SignToken(target, iat)), now).Ok?
  {
    UpdateAdminStatusSucceeds(users, caller, target, None);
    var users' := UpdateAdminStatus(users, caller, target, None).1;
    assert users'[target].isActive == None;
    if |email| > 0 && |password| > 0 {
      LoginSucceedsIff(users', email, password, target, now);
    }
    ProtectAdmitsSignedUser(users', scheme, target, iat, now);
  }

  /** The creator reference `populate('addedBy', 'email')` substitutes. */
  datatype CreatorRef = CreatorRef(id: Id, email: string)

  /** An admin as `getAllAdmins` projects it: no password, and `isActive`
      as the loaded document reads it. */
  datatype AdminView = AdminView(email: string, role: Role, isActive: bool, addedBy: Option<CreatorRef>)

  /** `populate`: the referenced record's email, or null when the reference
      is missing or dangling. */
  function Populate(users: map<Id, User>, ref: Option<Id>): (c: Option<CreatorRef>)
    ensures c.Some? <==> ref.Some? && ref.value in users
    ensures c.Some? ==> c.value.id == ref.value && c.value.email == users[ref.value].email
  {
    if ref.Some? && ref.value in users then Some(CreatorRef(ref.value, users[ref.value].email)) else None
  }

  /** `getAllAdmins`: 403 for a non-master; otherwise every admin record,
      keyed by id, projected to email, role, isActive and creator. */
  function GetAllAdmins(users: map<Id, User>, caller: Principal): (r: Result<map<Id, AdminView>>)
    ensures r.Ok? <==> caller.IsMaster()
    ensures r.Err? ==> r.failure == Forbidden
    ensures r.Ok? ==> forall id :: id in r.value <==> id in users && users[id].role == Admin
    ensures r.Ok? ==> forall id :: id in r.value ==>
      && r.value[id].email == users[id].email
      && r.value[id].role == Admin
      && r.value[id].isActive == ActiveOnLoad(users[id])
      && (r.value[id].addedBy.Some? <==> users[id].addedBy.Some? && users[id].addedBy.value in users)
      && (r.value[id].addedBy.Some? ==>
            && users[id].addedBy == Some(r.value[id].addedBy.value.id)
            && r.value[id].addedBy.value.email == users[r.value[id].addedBy.value.id].email)
  {
    if !caller.IsMaster() then Err(Forbidden)
    else
      Ok(map id | id in users && users[id].role == Admin ::
           AdminView(users[id].email, Admin, ActiveOnLoad(users[id]), Populate(users, users[id].addedBy)))
  }

  /** An admin added by the master is listed right after, active, with its
      lower-cased email and the master as its creator. */
  lemma AddedAdminIsListed(users: map<Id, User>, caller: Principal, email: string, password: string, newId: Id)
    requires newId !in users && caller.id in users
    requires AddAdmin(users, caller, Some(email), Some(password), newId).0.Ok?
    ensures var l := GetAllAdmins(AddAdmin(users, caller, Some(email), Some(password), newId).1, caller);
      && l.Ok? && newId in l.value
      && l.value[newId] == AdminView(ToLower(email), Admin, true, Some(CreatorRef(caller.id, users[caller.id].email)))
  {
  }

  /** The listing shows the status `updateAdminStatus` set, as the loaded
      document reads it. */
  lemma UpdatedStatusIsListed(users: map<Id, User>, caller: Principal, target: Id, isActive: Option<bool>)
    requires UpdateAdminStatus(users, caller, target, isActive).0.Ok?
    ensures var l := GetAllAdmins(UpdateAdminStatus(users, caller, target, isActive).1, caller);
      && l.Ok? && target in l.value
      && l.value[target].isActive == (isActive != Some(false))
  {
  }

  /** `refreshToken` at time `now`: 400 without a token; 401 when it does
      not verify (or has expired) or its user is missing or inactive;
      otherwise a new token for the same id, issued at `now`. */
  function RefreshToken(users: map<Id, User>, token: Option<string>, now: nat): (r: Result<string>)
    ensures !Truthy(token) ==> r == Err(BadRequest)
    ensures Truthy(token) && r.Err? ==> r.failure == Unauthorized
    ensures r.Ok? ==>
      && VerifyToken(token.value, now).Some?
      && var id := VerifyToken(token.value, now).value;
         id in users && ActiveOnLoad(users[id]) && r.value == SignToken(id, now)
  {
    if !Truthy(token) then Err(BadRequest)
    else
      match VerifyToken(token.value, now)
      case None => Err(Unauthorized)
      case Some(id) =>
        if id !in users || !ActiveOnLoad(users[id]) then Err(Unauthorized)
        else Ok(SignToken(id, now))
  }

  /** A refreshed token verifies to the same user as the one presented, for
      30 days from the refresh; refreshed after the original was issued, it
      is a different token that outlives the original. */
  lemma RefreshKeepsIdentity(users: map<Id, User>, id: Id, iat: nat, now: nat, later: nat)
    requires id in users && ActiveOnLoad(users[id])
    requires now < iat + TokenLifetime
    ensures RefreshToken(users, Some(SignToken(id, iat)), now).Ok?
    ensures var renewed := RefreshToken(users, Some(SignToken(id, iat)), now).value;
      && renewed == SignToken(id, now)
      && (now <= later < now + TokenLifetime ==> VerifyToken(renewed, later) == Some(id))
      && (iat < now ==> renewed != SignToken(id, iat)
                        && VerifyToken(SignToken(id, iat), iat + TokenLifetime) == None
                        && VerifyToken(renewed, iat + TokenLifetime) == Some(id))
  {
    VerifySignedToken(id, iat, now);
    VerifySignedToken(id, now, later);
    VerifySignedToken(id, iat, iat + TokenLifetime);
    VerifySignedToken(id, now, iat + TokenLifetime);
    SignTokenInjective(id, now, id, iat);
  }
}
