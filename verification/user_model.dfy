/** The staff account record (models/User.js): role and permission defaults,
    the schema's validators, the password-hashing pre-save hook and
    `comparePassword`. A store of users is a map from id to record. */
module UserModel {
  import opened Common
  import opened Crypto

  datatype Role = Master | Admin

  datatype Permissions = Permissions(
    canAddLaptops: bool,
    canDeleteLaptops: bool,
    canManageAdmins: bool,
    canManageOrders: bool)

  /** The permission flags a new record receives from its role. */
  function DefaultPermissions(role: Role): (p: Permissions)
    ensures p.canAddLaptops && p.canDeleteLaptops && p.canManageOrders
    ensures p.canManageAdmins <==> role == Master
  {
    Permissions(true, true, role == Master, true)
  }

  /** Every flag set in `q` is set in `p`. */
  predicate Grants(p: Permissions, q: Permissions) {
    && (q.canAddLaptops ==> p.canAddLaptops)
    && (q.canDeleteLaptops ==> p.canDeleteLaptops)
    && (q.canManageAdmins ==> p.canManageAdmins)
    && (q.canManageOrders ==> p.canManageOrders)
  }

  /** The roles' defaults are ordered: master's grant everything an
      admin's do, and the two differ in `canManageAdmins` alone. */
  lemma DefaultPermissionsOrdered()
    ensures Grants(DefaultPermissions(Master), DefaultPermissions(Admin))
    ensures !Grants(DefaultPermissions(Admin), DefaultPermissions(Master))
    ensures DefaultPermissions(Admin) == DefaultPermissions(Master).(canManageAdmins := false)
  {
  }

  /** `user.isActive` on a document loaded with `findById`: Mongoose fills
      an absent field with its default, `true`, when it loads the document. */
  predicate ActiveOnLoad(u: User) {
    u.isActive != Some(false)
  }

  /** Whether a stored document matches the query filter `isActive: true`.
      The database evaluates the filter on the stored field, so a document
      without the field does not match. */
  predicate ActiveInQuery(u: User) {
    u.isActive == Some(true)
  }

  /** The two readings agree except on a document without the field, which
      loads as active but does not match the filter. */
  lemma ActiveReadings(u: User)
    ensures ActiveInQuery(u) ==> ActiveOnLoad(u)
    ensures ActiveOnLoad(u) && !ActiveInQuery(u) <==> u.isActive.None?
  {
    if u.isActive.Some? {
      var b := u.isActive.value;
      assert u.isActive == Some(b);
      if b { assert u.isActive == Some(true); } else { assert u.isActive == Some(false); }
    }
  }

  /** The password field of a document. `Plain` is a value assigned since
      the last save (so `isModified('password')` holds); `Hashed` is what a
      save leaves behind. */
  datatype Password = Plain(text: string) | Hashed(hash: PasswordHash)

  /** A missing string field is represented by "", which Mongoose's
      `required` rejects just as it rejects an absent value. `isActive` is
      None when the stored document has no such field. */
  datatype User = User(
    email: string,
    password: Password,
    role: Role,
    addedBy: Option<Id>,
    isActive: Option<bool>,
    permissions: Permissions,
    assignedOrders: seq<Id>)

  /** The length the `minlength: 8` validator sees, in UTF-16 code units:
      the plaintext of a modified password, or the 60 ASCII characters of
      a stored bcrypt hash. */
  function PasswordLength(p: Password): nat {
    match p
    case Plain(t) => Utf16Length(t)
    case Hashed(_) => 60
  }

  const MinPasswordLength: nat := 8

  /** The schema's validators for one document. */
  predicate UserValid(u: User) {
    && |u.email| > 0
    && PasswordLength(u.password) >= MinPasswordLength
    && (u.role == Admin ==> u.addedBy.Some?)
  }

  /** A new document as `User.create` builds it: the email passes through
      the lower-casing setter and the unset fields take their defaults. */
  function NewUser(email: string, password: string, role: Role, addedBy: Option<Id>): (u: User)
    ensures u.email == ToLower(email) && IsLower(u.email)
    ensures u.password == Plain(password)
    ensures u.isActive == Some(true) && u.assignedOrders == []
    ensures u.permissions == DefaultPermissions(role)
  {
    ToLowerIsLower(email);
    User(ToLower(email), Plain(password), role, addedBy, Some(true), DefaultPermissions(role), [])
  }

  /** The pre-save hook: hash the password only when it was modified. */
  function HashIfModified(u: User): (r: User)
    ensures r.password.Hashed?
    ensures u.password.Plain? ==> r.password == Hashed(HashPassword(u.password.text))
    ensures u.password.Hashed? ==> r == u
    ensures r.(password := u.password) == u
  {
    match u.password
    case Plain(t) => u.(password := Hashed(HashPassword(t)))
    case Hashed(_) => u
  }

  /** Another record of the store already holds this email. */
  predicate EmailTaken(users: map<Id, User>, id: Id, email: string) {
    exists other :: other in users && other != id && users[other].email == email
  }

  /** `doc.save()` for a user stored under `id`: validation (which Mongoose
      runs before the user's pre-save hooks, so on the plaintext), the
      unique email index, then the hashing hook. */
  function SaveUser(users: map<Id, User>, id: Id, u: User): (r: Result<User>)
    ensures r.Ok? <==> UserValid(u) && !EmailTaken(users, id, u.email)
    ensures r.Err? ==> r.failure == BadRequest
    ensures r.Ok? ==> r.value == HashIfModified(u)
  {
    if !UserValid(u) || EmailTaken(users, id, u.email) then Err(BadRequest)
    else Ok(HashIfModified(u))
  }

  /** `user.comparePassword(candidate)` on a stored record. */
  predicate CheckPassword(u: User, candidate: string) {
    u.password.Hashed? && ComparePassword(candidate, u.password.hash)
  }

  /** No two records share an email (the unique index on `email`). */
  predicate EmailsUnique(users: map<Id, User>) {
    forall a, b :: a in users && b in users && users[a].email == users[b].email ==> a == b
  }

  /** What every saved record satisfies. */
  predicate Stored(u: User) {
    UserValid(u) && IsLower(u.email) && u.password.Hashed?
  }

  predicate UsersOk(users: map<Id, User>) {
    EmailsUnique(users) && forall id :: id in users ==> Stored(users[id])
  }

  /** Re-saving a saved record does not hash its password again. */
  lemma {:induction false} ResaveDoesNotRehash(users: map<Id, User>, id: Id, u: User)
    requires SaveUser(users, id, u).Ok?
    ensures SaveUser(users, id, SaveUser(users, id, u).value) == SaveUser(users, id, u)
  {
    var s := SaveUser(users, id, u).value;
    assert PasswordLength(s.password) >= MinPasswordLength;
    assert s.email == u.email && s.role == u.role && s.addedBy == u.addedBy;
  }

  /** After a save from plaintext `q`, `comparePassword(p)` holds iff `p == q`. */
  lemma {:induction false} SavedPasswordMatchesOnlyPlaintext(users: map<Id, User>, id: Id, u: User, p: string)
    requires u.password.Plain?
    requires SaveUser(users, id, u).Ok?
    ensures CheckPassword(SaveUser(users, id, u).value, p) <==> p == u.password.text
  {
    CompareHashedPassword(p, u.password.text);
  }

  /** A valid master may omit `addedBy`; a valid admin never does. */
  lemma AddedByRequiredIffAdmin(u: User)
    requires |u.email| > 0 && PasswordLength(u.password) >= MinPasswordLength
    ensures u.role == Master ==> UserValid(u)
    ensures u.role == Admin ==> (UserValid(u) <==> u.addedBy.Some?)
  {
  }

  /** A successful save keeps the store's invariants: emails stay unique
      and every record stays valid, lower-cased and hashed. */
  lemma SavePreservesUsersOk(users: map<Id, User>, id: Id, u: User)
    requires UsersOk(users)
    requires IsLower(u.email)
    requires SaveUser(users, id, u).Ok?
    ensures UsersOk(users[id := SaveUser(users, id, u).value])
  {
    var users' := users[id := SaveUser(users, id, u).value];
    forall a, b | a in users' && b in users' && users'[a].email == users'[b].email
      ensures a == b
    {
      if a != id && b != id {
        assert users[a].email == users[b].email;
      }
    }
  }
}
