/** `PasswordResetService` and the `password_reset_tokens` table: issuing
    a one-hour reset token (which retires the user's older ones),
    redeeming it once, checking it, and the nightly clean-up.

    Time is a parameter counted in seconds; the random UUID of a new token
    is a parameter too, and the e-mail that carries it is returned rather
    than sent. */
module PasswordReset {
  import opened Wrappers
  import Seqs
  import Users
  import Notifications
  import Text

  /** `TOKEN_EXPIRY_HOURS` (one hour), in seconds. */
  const TokenLifetime: int := 3600

  /** The minimum length of a new password. */
  const MinPasswordLength: nat := 6

  datatype ResetToken = ResetToken(
    id: nat,
    userId: nat,
    token: string,
    expiredAt: int,
    used: bool,
    createdAt: int)

  datatype TokenStore = TokenStore(rows: seq<ResetToken>, nextId: nat)

  /** The `token` column is unique, and so are identities, which stay
      below the next one. */
  ghost predicate Unique(s: TokenStore) {
    && (forall t1, t2 :: t1 in s.rows && t2 in s.rows && t1.token == t2.token ==> t1 == t2)
    && (forall t1, t2 :: t1 in s.rows && t2 in s.rows && t1.id == t2.id ==> t1 == t2)
    && (forall t :: t in s.rows ==> t.id < s.nextId)
  }

  /** `isExpired`: strictly after the expiry instant. */
  predicate IsExpired(t: ResetToken, now: int) {
    now > t.expiredAt
  }

  /** `isValid`: neither expired nor used. */
  predicate IsValid(t: ResetToken, now: int) {
    !IsExpired(t, now) && !t.used
  }

  /** Position of `findByToken`'s row. */
  function TokenIndex(s: TokenStore, token: string): Option<nat> {
    Seqs.FindFirst(s.rows, (t: ResetToken) => t.token == token)
  }

  /** `findByToken`. */
  function FindByToken(s: TokenStore, token: string): (r: Option<ResetToken>)
    ensures r.Some? ==> r.value in s.rows && r.value.token == token
    ensures r.None? <==> forall t :: t in s.rows ==> t.token != token
  {
    match TokenIndex(s, token)
    case None => None
    case Some(k) => Some(s.rows[k])
  }

  /** With a unique token column the lookup returns the one row holding
      the token. */
  lemma FindUnique(s: TokenStore, t: ResetToken)
    requires Unique(s) && t in s.rows
    ensures FindByToken(s, t.token) == Some(t)
  {
  }

  datatype ResetError =
    | EmailNotRegistered
    | UserInactive
    | TokenCollision
    | PasswordTooShort
    | TokenNotFound
    | TokenAlreadyUsed
    | TokenExpired

  function ErrorMessage(e: ResetError): string {
    match e
    case EmailNotRegistered => "Jika email terdaftar, link reset password akan dikirim ke email Anda."
    case UserInactive => "User tidak aktif. Silakan hubungi administrator."
    case TokenCollision => "duplicate key value violates unique constraint"
    case PasswordTooShort => "Password harus minimal 6 karakter"
    case TokenNotFound => "Token tidak valid atau tidak ditemukan"
    case TokenAlreadyUsed => "Token sudah pernah digunakan"
    case TokenExpired => "Token sudah kadaluarsa. Silakan request reset password lagi."
  }

  // ---------------------------------------------------------------------
  // processForgotPassword
  // ---------------------------------------------------------------------

  function Retired(t: ResetToken, userId: nat): ResetToken {
    if t.userId == userId && !t.used then t.(used := true) else t
  }

  /** `invalidateAllUserTokens`: every unused token of the user becomes
      used; other users' tokens and every other column stay. */
  function InvalidateAllUserTokens(rows: seq<ResetToken>, userId: nat): (r: seq<ResetToken>)
    ensures |r| == |rows|
    ensures forall i :: 0 <= i < |r| ==> r[i] == Retired(rows[i], userId)
    ensures forall i :: 0 <= i < |r| ==> r[i].userId == userId ==> r[i].used
    ensures forall i :: 0 <= i < |r| ==> rows[i].userId != userId ==> r[i] == rows[i]
    ensures forall i :: 0 <= i < |r| ==> r[i] == rows[i].(used := r[i].used)
  {
    seq(|rows|, i requires 0 <= i < |rows| => Retired(rows[i], userId))
  }

  /** The table after `invalidateAllUserTokens` and the save of a new
      token: the user's only unused token is the new one, valid for an
      hour from `now`; other users' rows are untouched. */
  function IssueToken(s: TokenStore, userId: nat, uuid: string, now: int): (r: TokenStore)
    ensures |r.rows| == |s.rows| + 1 && r.nextId == s.nextId + 1
    ensures r.rows[|s.rows|] == ResetToken(s.nextId, userId, uuid, now + TokenLifetime, false, now)
    ensures forall t :: t in r.rows && t.userId == userId && !t.used ==> t.token == uuid
    ensures forall i :: 0 <= i < |s.rows| && s.rows[i].userId != userId ==> r.rows[i] == s.rows[i]
    ensures forall i :: 0 <= i < |s.rows| ==> r.rows[i] == Retired(s.rows[i], userId)
  {
    TokenStore(InvalidateAllUserTokens(s.rows, userId) + [ResetToken(s.nextId, userId, uuid, now + TokenLifetime, false, now)],
               s.nextId + 1)
  }

  /** The reset e-mail: address, token and the username it greets. */
  datatype ResetMail = ResetMail(address: string, token: string, username: string)

  datatype ForgotOutcome = ForgotOutcome(
    store: TokenStore,
    inbox: Notifications.Inbox,
    mail: ResetMail,
    deliveries: seq<Notifications.Delivery>,
    token: string)

  /** `processForgotPassword`: an unknown address, then an inactive user,
      are refused; otherwise the user's older tokens are retired, one new
      unused token valid for an hour is saved and mailed, and the
      FORGOT_PASSWORD notification goes out. A `uuid` already in the token
      column is refused by its unique constraint. The user's device token
      is a parameter. */
  function ProcessForgotPassword(a: Users.Accounts, s: TokenStore, inbox: Notifications.Inbox, email: string,
                                 fcmToken: Option<string>, uuid: string, now: int)
    : (r: Result<ForgotOutcome, ResetError>)
    ensures Users.FindByEmail(a, email).None? <==> r == Err(EmailNotRegistered)
    ensures r == Err(UserInactive) <==> Users.FindByEmail(a, email).Some? && !Users.FindByEmail(a, email).value.isActive
    ensures r == Err(TokenCollision) <==>
      && Users.FindByEmail(a, email).Some? && Users.FindByEmail(a, email).value.isActive
      && exists t :: t in s.rows && t.token == uuid
    ensures r.Ok? || r == Err(EmailNotRegistered) || r == Err(UserInactive) || r == Err(TokenCollision)
    ensures r.Ok? ==> Users.FindByEmail(a, email).Some?
    ensures r.Ok? ==>
      var u := Users.FindByEmail(a, email).value;
      var o := r.value;
      && o.token == uuid
      && o.mail == ResetMail(u.email, uuid, u.username)
      && o.store == IssueToken(s, u.id, uuid, now)
      && (o.inbox, o.deliveries)
           == Notifications.SendNotification(inbox, Some(Notifications.Recipient(u.id, u.username, u.email, fcmToken)),
                                             Notifications.ForgotPassword, None)
  {
    match Users.FindByEmail(a, email)
    case None => Err(EmailNotRegistered)
    case Some(u) =>
      if !u.isActive then Err(UserInactive)
      else if exists t :: t in s.rows && t.token == uuid then Err(TokenCollision)
      else
        var (inbox', deliveries) :=
          Notifications.SendNotification(inbox, Some(Notifications.Recipient(u.id, u.username, u.email, fcmToken)),
                                         Notifications.ForgotPassword, None);
        Ok(ForgotOutcome(IssueToken(s, u.id, uuid, now), inbox', ResetMail(u.email, uuid, u.username), deliveries, uuid))
  }

  /** A new token keeps the table unique; it is valid for its hour and no
      longer, and every token the user held before no longer validates at
      any time. */
  lemma ForgotThenValidate(a: Users.Accounts, s: TokenStore, inbox: Notifications.Inbox, email: string,
                           fcmToken: Option<string>, uuid: string, now: int, later: int, prior: ResetToken)
    requires Unique(s)
    requires ProcessForgotPassword(a, s, inbox, email, fcmToken, uuid, now).Ok?
    requires prior in s.rows && prior.userId == Users.FindByEmail(a, email).value.id
    ensures var s' := ProcessForgotPassword(a, s, inbox, email, fcmToken, uuid, now).value.store;
      && Unique(s')
      && (ValidateToken(s', uuid, later) <==> later <= now + TokenLifetime)
      && !ValidateToken(s', prior.token, later)
  {
    IssueThenValidate(s, prior.userId, uuid, now, later, prior);
  }

  lemma IssueThenValidate(s: TokenStore, userId: nat, uuid: string, now: int, later: int, prior: ResetToken)
    requires Unique(s)
    requires forall t :: t in s.rows ==> t.token != uuid
    requires prior in s.rows && prior.userId == userId
    ensures var s' := IssueToken(s, userId, uuid, now);
      && Unique(s')
      && (ValidateToken(s', uuid, later) <==> later <= now + TokenLifetime)
      && !ValidateToken(s', prior.token, later)
  {
    var s' := IssueToken(s, userId, uuid, now);
    var issued := ResetToken(s.nextId, userId, uuid, now + TokenLifetime, false, now);
    assert s' == TokenStore(InvalidateAllUserTokens(s.rows, userId) + [issued], s.nextId + 1);
    IssueKeepsUnique(s, issued);
    FindUnique(s', issued);
    var i :| 0 <= i < |s.rows| && s.rows[i] == prior;
    FindUnique(s', s'.rows[i]);
  }

  /** Retiring a user's tokens and adding a token with a new value and the
      next identity keeps the table unique. */
  lemma IssueKeepsUnique(s: TokenStore, issued: ResetToken)
    requires Unique(s)
    requires issued.id == s.nextId && forall t :: t in s.rows ==> t.token != issued.token
    ensures Unique(TokenStore(InvalidateAllUserTokens(s.rows, issued.userId) + [issued], s.nextId + 1))
  {
    var retired := InvalidateAllUserTokens(s.rows, issued.userId);
    var rows := retired + [issued];
    forall t | t in rows
      ensures t.id < s.nextId + 1
      ensures t != issued ==> t in retired && t.token != issued.token && t.id != issued.id
    {
      if t != issued {
        RetiredOrigin(s.rows, issued.userId, t);
      }
    }
    forall t1, t2 | t1 in rows && t2 in rows && (t1.token == t2.token || t1.id == t2.id)
      ensures t1 == t2
    {
      if t1 != issued && t2 != issued {
        RetiredPair(s, issued.userId, t1, t2);
      }
    }
  }

  /** A retired row keeps the token and identity of the row it came from. */
  lemma RetiredOrigin(rows: seq<ResetToken>, userId: nat, t: ResetToken)
    requires t in InvalidateAllUserTokens(rows, userId)
    ensures exists o :: o in rows && t == Retired(o, userId)
  {
    var retired := InvalidateAllUserTokens(rows, userId);
    var i :| 0 <= i < |retired| && retired[i] == t;
    assert t == Retired(rows[i], userId);
  }

  lemma RetiredPair(s: TokenStore, userId: nat, t1: ResetToken, t2: ResetToken)
    requires Unique(s)
    requires t1 in InvalidateAllUserTokens(s.rows, userId) && t2 in InvalidateAllUserTokens(s.rows, userId)
    requires t1.token == t2.token || t1.id == t2.id
    ensures t1 == t2
  {
    RetiredOrigin(s.rows, userId, t1);
    RetiredOrigin(s.rows, userId, t2);
    var o1 :| o1 in s.rows && t1 == Retired(o1, userId);
    var o2 :| o2 in s.rows && t2 == Retired(o2, userId);
    assert o1.token == t1.token && o2.token == t2.token && o1.id == t1.id && o2.id == t2.id;
  }

  // ---------------------------------------------------------------------
  // resetPassword / validateToken
  // ---------------------------------------------------------------------

  /** `userRepository.save(user)` with the new hash: only that user's
      password column changes. */
  function SetPassword(a: Users.Accounts, userId: nat, hash: string): (r: Users.Accounts)
    ensures |r.users| == |a.users| && r.roles == a.roles && r.nextUserId == a.nextUserId
    ensures forall i :: 0 <= i < |a.users| && a.users[i].id == userId ==> r.users[i] == a.users[i].(password := hash)
    ensures forall i :: 0 <= i < |a.users| && a.users[i].id != userId ==> r.users[i] == a.users[i]
  {
    a.(users := seq(|a.users|, i requires 0 <= i < |a.users| =>
                      if a.users[i].id == userId then a.users[i].(password := hash) else a.users[i]))
  }

  /** A password the length rule accepts: present, and at least six
      UTF-16 units long, as `String.length()` counts them. */
  predicate LongEnough(newPassword: Option<string>) {
    newPassword.Some? && Text.Utf16Length(newPassword.value) >= MinPasswordLength
  }

  /** The rule counts UTF-16 units: three emoji pass it although they are
      three characters, two emoji do not, and for a password within the
      Basic Multilingual Plane it is plain character count. */
  lemma SupplementaryCharsCountTwice(p: string)
    ensures LongEnough(Some("\U{1F600}\U{1F600}\U{1F600}"))
    ensures !LongEnough(Some("\U{1F600}\U{1F600}"))
    ensures (forall i :: 0 <= i < |p| ==> !Text.IsSupplementary(p[i])) ==> (LongEnough(Some(p)) <==> |p| >= MinPasswordLength)
  {
    var e: string := "\U{1F600}";
    assert Text.Utf16Length(e) == 2;
    Text.Utf16LengthAppend(e, e);
    Text.Utf16LengthAppend(e + e, e);
    assert e + e == "\U{1F600}\U{1F600}";
    assert e + e + e == "\U{1F600}\U{1F600}\U{1F600}";
  }

  /** `resetPassword`: the new password's length is checked first, then
      the token must exist, be unused and not be expired; the owner's
      password becomes the encoding of the new one and the token is spent. */
  function ResetPassword(a: Users.Accounts, s: TokenStore, token: string, newPassword: Option<string>, now: int,
                         encode: string -> string)
    : (r: Result<(Users.Accounts, TokenStore), ResetError>)
    ensures !LongEnough(newPassword) <==> r == Err(PasswordTooShort)
    ensures r == Err(TokenNotFound) <==> LongEnough(newPassword) && FindByToken(s, token).None?
    ensures r == Err(TokenAlreadyUsed) <==>
      LongEnough(newPassword) && FindByToken(s, token).Some? && FindByToken(s, token).value.used
    ensures r == Err(TokenExpired) <==>
      && LongEnough(newPassword) && FindByToken(s, token).Some? && !FindByToken(s, token).value.used
      && IsExpired(FindByToken(s, token).value, now)
    ensures r.Ok? <==> LongEnough(newPassword) && FindByToken(s, token).Some? && IsValid(FindByToken(s, token).value, now)
    ensures r.Ok? ==>
      var k := TokenIndex(s, token).value;
      var (a', s') := r.value;
      && a' == SetPassword(a, s.rows[k].userId, encode(newPassword.value))
      && s' == s.(rows := s.rows[k := s.rows[k].(used := true)])
  {
    if !LongEnough(newPassword) then Err(PasswordTooShort)
    else match TokenIndex(s, token)
      case None => Err(TokenNotFound)
      case Some(k) =>
        var t := s.rows[k];
        if t.used then Err(TokenAlreadyUsed)
        else if IsExpired(t, now) then Err(TokenExpired)
        else Ok((SetPassword(a, t.userId, encode(newPassword.value)), s.(rows := s.rows[k := t.(used := true)])))
  }

  /** `validateToken`: an unknown token is not valid. */
  function ValidateToken(s: TokenStore, token: string, now: int): (b: bool)
    ensures b <==> exists t :: t in s.rows && t.token == token && IsValid(t, now) && FindByToken(s, token) == Some(t)
  {
    match FindByToken(s, token)
    case None => false
    case Some(t) => IsValid(t, now)
  }

  /** The check agrees with redeeming: with an acceptable password, a reset
      succeeds exactly when the token validates at that moment. */
  lemma ValidateAgreesWithReset(a: Users.Accounts, s: TokenStore, token: string, newPassword: Option<string>,
                                now: int, encode: string -> string)
    requires LongEnough(newPassword)
    ensures ResetPassword(a, s, token, newPassword, now, encode).Ok? <==> ValidateToken(s, token, now)
  {
  }

  /** A token redeems once: any later acceptable reset with it is refused
      as used, and it no longer validates. */
  lemma {:induction false} ResetIsOneTime(a: Users.Accounts, s: TokenStore, token: string, newPassword: Option<string>,
                                          now: int, encode: string -> string,
                                          again: Option<string>, later: int)
    requires ResetPassword(a, s, token, newPassword, now, encode).Ok?
    requires LongEnough(again)
    ensures var (a', s') := ResetPassword(a, s, token, newPassword, now, encode).value;
      && ResetPassword(a', s', token, again, later, encode) == Err(TokenAlreadyUsed)
      && !ValidateToken(s', token, later)
  {
    var (a', s') := ResetPassword(a, s, token, newPassword, now, encode).value;
    var k := TokenIndex(s, token).value;
    assert s'.rows[k].token == token && s'.rows[k].used;
    assert forall j :: 0 <= j < k ==> s'.rows[j] == s.rows[j];
    var k' := TokenIndex(s', token);
    assert k'.Some?;
    assert k'.value == k;
  }

  /** After a reset the owner logs in with the new password, for any
      encoder whose `matches` accepts its own output. */
  lemma ResetThenAuthenticate(a: Users.Accounts, s: TokenStore, token: string, newPassword: Option<string>,
                              now: int, encode: string -> string, matches: (string, string) -> bool, u: Users.User)
    requires Users.Unique(a)
    requires ResetPassword(a, s, token, newPassword, now, encode).Ok?
    requires u in a.users && u.id == FindByToken(s, token).value.userId
    requires forall p :: matches(p, encode(p))
    ensures var a' := ResetPassword(a, s, token, newPassword, now, encode).value.0;
      Users.Authenticate(a', u.username, newPassword.value, matches) == Ok(u.(password := encode(newPassword.value)))
  {
    var a' := ResetPassword(a, s, token, newPassword, now, encode).value.0;
    var i :| 0 <= i < |a.users| && a.users[i] == u;
    assert a'.users[i] == u.(password := encode(newPassword.value));
    var found := Users.FindByUsername(a', u.username);
    var j :| 0 <= j < |a'.users| && a'.users[j] == found.value;
    assert a'.users[j].username == a.users[j].username;
    assert j == i;
  }

  // ---------------------------------------------------------------------
  // cleanupExpiredTokens
  // ---------------------------------------------------------------------

  /** `deleteExpiredOrUsedTokens(now)`: deletes the rows expired before
      `now` or used, which are exactly the rows no longer valid. */
  function CleanupExpiredTokens(s: TokenStore, now: int): (r: TokenStore)
    ensures r.nextId == s.nextId && |r.rows| <= |s.rows|
    ensures forall t :: t in r.rows <==> t in s.rows && IsValid(t, now)
  {
    s.(rows := Seqs.Filter(s.rows, (t: ResetToken) => !(t.expiredAt < now || t.used)))
  }

  /** The clean-up keeps the table unique and changes no answer of
      `validateToken` at that moment. */
  lemma CleanupPreservesValidity(s: TokenStore, now: int, token: string)
    requires Unique(s)
    ensures Unique(CleanupExpiredTokens(s, now))
    ensures ValidateToken(CleanupExpiredTokens(s, now), token, now) == ValidateToken(s, token, now)
  {
    var r := CleanupExpiredTokens(s, now);
    match FindByToken(s, token)
    case None =>
    case Some(t) =>
      if IsValid(t, now) {
        FindUnique(r, t);
      }
  }
}
