/** `UserService`: registration with unique usernames and emails and the
    default-role rule, password authentication, and the self-only user
    lookup.

    Password hashing is not modelled: the encoder and its `matches` check
    are function parameters. */
module Users {
  import opened Wrappers
  import Seqs

  datatype Role = Role(name: string, description: Option<string>)

  datatype User = User(
    id: nat,
    username: string,
    email: string,
    /** The encoder's output, never the raw password. */
    password: string,
    isActive: bool,
    phone: Option<string>,
    fullName: Option<string>,
    roles: set<string>)

  /** The `users` and `roles` tables, in insertion order, with the next
      user identity. */
  datatype Accounts = Accounts(users: seq<User>, roles: seq<Role>, nextUserId: nat)

  /** Usernames, emails and identities are pairwise distinct, identities
      are below the next one, and role names are distinct. */
  ghost predicate Unique(a: Accounts) {
    && (forall i, j :: 0 <= i < j < |a.users| ==> a.users[i].username != a.users[j].username)
    && (forall i, j :: 0 <= i < j < |a.users| ==> a.users[i].email != a.users[j].email)
    && (forall i, j :: 0 <= i < j < |a.users| ==> a.users[i].id != a.users[j].id)
    && (forall i :: 0 <= i < |a.users| ==> a.users[i].id < a.nextUserId)
    && (forall i, j :: 0 <= i < j < |a.roles| ==> a.roles[i].name != a.roles[j].name)
  }

  // ---------------------------------------------------------------------
  // UserRepository / RoleRepository lookups
  // ---------------------------------------------------------------------

  /** The first user satisfying `p`: the one lookup behind the
      repository's `findBy…` methods. */
  function FindUser(a: Accounts, p: User -> bool): (r: Option<User>)
    ensures r.Some? ==> r.value in a.users && p(r.value)
    ensures r.None? <==> forall u :: u in a.users ==> !p(u)
  {
    match Seqs.FindFirst(a.users, p)
    case None => None
    case Some(k) => Some(a.users[k])
  }

  /** `findByUsername`. */
  function FindByUsername(a: Accounts, username: string): (r: Option<User>)
    ensures r.Some? ==> r.value in a.users && r.value.username == username
    ensures r.None? <==> forall u :: u in a.users ==> u.username != username
  {
    FindUser(a, (u: User) => u.username == username)
  }

  /** `findById`. */
  function FindById(a: Accounts, id: int): (r: Option<User>)
    ensures r.Some? ==> r.value in a.users && r.value.id == id
    ensures r.None? <==> forall u :: u in a.users ==> u.id != id
  {
    FindUser(a, (u: User) => u.id == id)
  }

  /** `findByEmail`. */
  function FindByEmail(a: Accounts, email: string): (r: Option<User>)
    ensures r.Some? ==> r.value in a.users && r.value.email == email
    ensures r.None? <==> forall u :: u in a.users ==> u.email != email
  {
    FindUser(a, (u: User) => u.email == email)
  }

  /** `existsByUsername`. */
  predicate UsernameTaken(a: Accounts, username: string) {
    exists i :: 0 <= i < |a.users| && a.users[i].username == username
  }

  /** `existsByEmail`. */
  predicate EmailTaken(a: Accounts, email: string) {
    exists i :: 0 <= i < |a.users| && a.users[i].email == email
  }

  /** `RoleRepository.findByName` reduced to whether the name exists. */
  predicate RoleExists(a: Accounts, name: string) {
    exists i :: 0 <= i < |a.roles| && a.roles[i].name == name
  }

  // ---------------------------------------------------------------------
  // register / createUserFromRequest
  // ---------------------------------------------------------------------

  const CustomerRole := "CUSTOMER"
  const CustomerRoleDescription := "Default customer role"

  /** The request body of both creation paths. `fullName` is carried but
      never copied onto the user. */
  datatype CreateUserRequest = CreateUserRequest(
    username: Option<string>,
    email: Option<string>,
    fullName: Option<string>,
    password: Option<string>,
    isActive: Option<bool>,
    phone: Option<string>,
    roles: Option<set<string>>)

  datatype UserError =
    | MissingCredentials
    | UsernameExists
    | EmailExists
    /** Some requested role names are not in the role table; the message
        names one of `missing`. */
    | RoleNotFound(missing: set<string>)
    | UserNotFound
    | WrongPassword
    | CurrentUserNotFound
    | AccessDenied

  function ErrorMessage(e: UserError): string {
    match e
    case MissingCredentials => "Username, email, dan password diperlukan"
    case UsernameExists => "Username sudah ada"
    case EmailExists => "Email sudah ada"
    case RoleNotFound(_) => "Role tidak ditemukan"
    case UserNotFound => "User tidak ditemukan"
    case WrongPassword => "Password salah"
    case CurrentUserNotFound => "User yang sedang login tidak ditemukan"
    case AccessDenied => "Anda tidak memiliki akses untuk melihat data user lain"
  }

  /** The role names requested, or none when the request has no roles. */
  function RequestedRoles(req: CreateUserRequest): set<string> {
    match req.roles
    case None => {}
    case Some(names) => names
  }

  /** Role assignment: every requested name must exist; with none
      requested the user gets exactly `CUSTOMER`, created when missing.
      Returns the (possibly extended) role table and the user's roles. */
  function AssignRoles(a: Accounts, requested: set<string>): (r: Result<(seq<Role>, set<string>), UserError>)
    ensures requested != {} ==> (r.Ok? <==> forall n :: n in requested ==> RoleExists(a, n))
    ensures requested != {} && r.Ok? ==> r.value == (a.roles, requested)
    ensures requested != {} && r.Err? ==>
      && r.error.RoleNotFound? && r.error.missing != {}
      && forall n :: n in r.error.missing <==> n in requested && !RoleExists(a, n)
    ensures requested == {} ==> r.Ok? && r.value.1 == {CustomerRole}
    ensures requested == {} && RoleExists(a, CustomerRole) ==> r.value.0 == a.roles
    ensures requested == {} && !RoleExists(a, CustomerRole) ==>
      r.value.0 == a.roles + [Role(CustomerRole, Some(CustomerRoleDescription))]
  {
    if requested == {} then
      if RoleExists(a, CustomerRole) then Ok((a.roles, {CustomerRole}))
      else Ok((a.roles + [Role(CustomerRole, Some(CustomerRoleDescription))], {CustomerRole}))
    else
      var missing := set n | n in requested && !RoleExists(a, n);
      if missing == {} then
        assert forall n :: n in requested ==> n !in missing;
        Ok((a.roles, requested))
      else
        Err(RoleNotFound(missing))
  }

  /** The checks and the row both creation paths share; `active` is the
      flag each path computes. */
  function CreateAccount(a: Accounts, req: CreateUserRequest, active: bool, encode: string -> string)
    : (r: Result<(Accounts, User), UserError>)
    ensures req.username.None? || req.email.None? || req.password.None? ==> r == Err(MissingCredentials)
    ensures r.Ok? ==> req.username.Some? && req.email.Some? && req.password.Some?
    ensures req.username.Some? && req.email.Some? && req.password.Some? ==>
      && (UsernameTaken(a, req.username.value) ==> r == Err(UsernameExists))
      && (!UsernameTaken(a, req.username.value) && EmailTaken(a, req.email.value) ==> r == Err(EmailExists))
      && (!UsernameTaken(a, req.username.value) && !EmailTaken(a, req.email.value) ==>
            (r.Ok? <==> AssignRoles(a, RequestedRoles(req)).Ok?))
    ensures r.Ok? ==> var (a', u) := r.value;
      && !UsernameTaken(a, u.username) && !EmailTaken(a, u.email)
      && a'.users == a.users + [u]
      && a'.roles == AssignRoles(a, RequestedRoles(req)).value.0
      && a'.nextUserId == a.nextUserId + 1
      && u.id == a.nextUserId
      && u.username == req.username.value && u.email == req.email.value
      && u.password == encode(req.password.value)
      && u.isActive == active && u.phone == req.phone && u.fullName.None?
      && u.roles == AssignRoles(a, RequestedRoles(req)).value.1
  {
    if req.username.None? || req.email.None? || req.password.None? then Err(MissingCredentials)
    else if UsernameTaken(a, req.username.value) then Err(UsernameExists)
    else if EmailTaken(a, req.email.value) then Err(EmailExists)
    else
      var (roles, names) :- AssignRoles(a, RequestedRoles(req));
      var u := User(a.nextUserId, req.username.value, req.email.value, encode(req.password.value),
                    active, req.phone, None, names);
      Ok((Accounts(a.users + [u], roles, a.nextUserId + 1), u))
  }

  /** `register`: the new user is always active. */
  function Register(a: Accounts, req: CreateUserRequest, encode: string -> string): (r: Result<(Accounts, User), UserError>)
    ensures r.Ok? ==> req.username.Some? && req.email.Some? && req.password.Some?
    ensures r.Ok? ==> r.value.1.isActive && r.value.1.password == encode(req.password.value)
    ensures r.Ok? ==> r.value.1.username == req.username.value && r.value.1.email == req.email.value
    ensures r.Ok? && RequestedRoles(req) == {} ==> r.value.1.roles == {CustomerRole}
  {
    CreateAccount(a, req, true, encode)
  }

  /** `createUserFromRequest`: active unless the request says otherwise. */
  function CreateUserFromRequest(a: Accounts, req: CreateUserRequest, encode: string -> string)
    : (r: Result<(Accounts, User), UserError>)
    ensures r.Ok? ==> r.value.1.isActive == (req.isActive != Some(false))
  {
    CreateAccount(a, req, req.isActive.GetOr(true), encode)
  }

  /** `createUserFromRequest` applies exactly the checks of `register`:
      both fail together with the same error, and on success they build
      the same user except, possibly, for `isActive`. */
  lemma CreationPathsAgree(a: Accounts, req: CreateUserRequest, encode: string -> string)
    ensures Register(a, req, encode).Ok? <==> CreateUserFromRequest(a, req, encode).Ok?
    ensures Register(a, req, encode).Err? ==> Register(a, req, encode) == CreateUserFromRequest(a, req, encode)
    ensures Register(a, req, encode).Ok? ==>
      && CreateUserFromRequest(a, req, encode).value.0.roles == Register(a, req, encode).value.0.roles
      && CreateUserFromRequest(a, req, encode).value.1
         == Register(a, req, encode).value.1.(isActive := req.isActive.GetOr(true))
  {
  }

  /** Both creation paths keep usernames, emails, identities and role
      names unique. */
  lemma CreateAccountKeepsUnique(a: Accounts, req: CreateUserRequest, active: bool, encode: string -> string)
    requires Unique(a)
    requires CreateAccount(a, req, active, encode).Ok?
    ensures Unique(CreateAccount(a, req, active, encode).value.0)
  {
    var (a', u) := CreateAccount(a, req, active, encode).value;
    forall i | 0 <= i < |a.users|
      ensures a.users[i].username != u.username && a.users[i].email != u.email
    {
      if a.users[i].username == u.username {
        assert UsernameTaken(a, u.username);
      }
      if a.users[i].email == u.email {
        assert EmailTaken(a, u.email);
      }
    }
    if !RoleExists(a, CustomerRole) && RequestedRoles(req) == {} {
      forall i | 0 <= i < |a.roles|
        ensures a.roles[i].name != CustomerRole
      {
      }
    }
  }

  // ---------------------------------------------------------------------
  // authenticate / getUserById
  // ---------------------------------------------------------------------

  /** `authenticate`: an unknown username, then a password the encoder
      does not match against the stored hash, are refused. */
  function Authenticate(a: Accounts, username: string, password: string, matches: (string, string) -> bool)
    : (r: Result<User, UserError>)
    ensures FindByUsername(a, username).None? <==> r == Err(UserNotFound)
    ensures r == Err(WrongPassword) <==>
      FindByUsername(a, username).Some? && !matches(password, FindByUsername(a, username).value.password)
    ensures r.Ok? || r == Err(UserNotFound) || r == Err(WrongPassword)
    ensures r.Ok? ==> r.value == FindByUsername(a, username).value
    ensures r.Ok? ==> r.value in a.users && r.value.username == username && matches(password, r.value.password)
  {
    match FindByUsername(a, username)
    case None => Err(UserNotFound)
    case Some(u) => if matches(password, u.password) then Ok(u) else Err(WrongPassword)
  }

  /** Registering and then logging in with the same credentials returns
      the new user, for any encoder whose `matches` accepts its own
      output. */
  lemma RegisterThenAuthenticate(a: Accounts, req: CreateUserRequest, encode: string -> string,
                                 matches: (string, string) -> bool)
    requires Register(a, req, encode).Ok?
    requires forall s :: matches(s, encode(s))
    ensures var (a', u) := Register(a, req, encode).value;
      Authenticate(a', req.username.value, req.password.value, matches) == Ok(u)
  {
    var (a', u) := Register(a, req, encode).value;
    var k := Seqs.FindFirst(a'.users, (x: User) => x.username == u.username);
    assert a'.users[|a.users|] == u;
  }

  /** What `getUserById` returns: the user without the password. */
  datatype UserView = UserView(id: nat, username: string, email: string, phone: Option<string>,
                               isActive: bool, roles: set<string>)

  function ViewOf(u: User): UserView {
    UserView(u.id, u.username, u.email, u.phone, u.isActive, u.roles)
  }

  /** `getUserById`: only the logged-in user may read their own row. */
  function GetUserById(a: Accounts, userId: int, currentUsername: string): (r: Result<UserView, UserError>)
    ensures FindByUsername(a, currentUsername).None? <==> r == Err(CurrentUserNotFound)
    ensures r.Ok? ==> FindByUsername(a, currentUsername).value.id == userId
    ensures FindByUsername(a, currentUsername).Some? && FindByUsername(a, currentUsername).value.id != userId
      ==> r == Err(AccessDenied)
    ensures r.Ok? ==> exists u :: u in a.users && u.id == userId && r.value == ViewOf(u)
  {
    match FindByUsername(a, currentUsername)
    case None => Err(CurrentUserNotFound)
    case Some(current) =>
      if current.id != userId then Err(AccessDenied)
      else match FindById(a, userId)
        case None => Err(UserNotFound)
        case Some(u) => Ok(ViewOf(u))
  }

  /** The lookup by id after a matching username lookup cannot fail, and
      with unique identities it returns the logged-in user. */
  lemma GetOwnUser(a: Accounts, currentUsername: string)
    requires Unique(a)
    requires FindByUsername(a, currentUsername).Some?
    ensures var u := FindByUsername(a, currentUsername).value;
      GetUserById(a, u.id, currentUsername) == Ok(ViewOf(u))
  {
    var u := FindByUsername(a, currentUsername).value;
    var v := FindById(a, u.id);
    assert v.Some?;
    var i :| 0 <= i < |a.users| && a.users[i] == u;
    var j :| 0 <= j < |a.users| && a.users[j] == v.value;
    assert i == j;
  }
}
