/** Accounts and password recovery (src/services/authService.ts): registration
    with a unique e-mail, login, and the table of single-use recovery codes. */
module AuthService {
  import opened Wrappers
  import opened Credentials
  import opened Records

  /** The role a user gets when registration does not name one. */
  const DefaultRole: string := "user"

  /** How long a recovery code stays valid: 30 minutes, in milliseconds. */
  const RecoveryWindowMs: int := 30 * 60 * 1000

  /** What registerUser receives; `role` is absent when the caller leaves it out. */
  datatype RegisterData = RegisterData(name: string, email: string, password: string,
                                       birthDate: Time, role: Option<string>)

  /** The claims loginUser signs into its token, which expires an hour after it
      is issued. jwt counts in whole seconds, so `expiresAt` is a multiple of
      1000 ms. */
  datatype Claims = Claims(id: Id, role: string, expiresAt: Time)

  /** An entry of the recovery table. */
  datatype RecoveryEntry = RecoveryEntry(code: string, expiresAt: Time)

  /** The module-level `recoveryCodes` map, from e-mail address to the code last
      sent there. It lives in process memory, apart from the database. */
  class RecoveryCodes {
    var entries: map<string, RecoveryEntry>

    constructor ()
      ensures entries == map[]
    {
      entries := map[];
    }
  }

  /** resetPassword's guard: there is an entry for `email`, its code is `code`,
      and its expiry has not passed (the expiry instant itself still counts). */
  predicate CodeAccepted(entries: map<string, RecoveryEntry>, email: string, code: string, now: Time) {
    email in entries && entries[email].code == code && now <= entries[email].expiresAt
  }

  /** The entry forgotPassword stores for a draw of `Math.random` at `now`. */
  function IssueCode(draw: nat, now: Time): (e: RecoveryEntry)
    requires draw < CodeSpan
    ensures |e.code| == 6 && AllDigits(e.code) && e.code[0] != '0'
    ensures CodeFloor <= ValueOf(e.code) < CodeFloor + CodeSpan
    ensures e.expiresAt == now + 1_800_000
  {
    RecoveryEntry(RecoveryCode(draw), now + RecoveryWindowMs)
  }

  /** A code just issued is accepted exactly up to and including its expiry
      instant, and no other code is. */
  lemma IssuedCodeWindow(entries: map<string, RecoveryEntry>, email: string, draw: nat, issuedAt: Time,
                         code: string, now: Time)
    requires draw < CodeSpan
    ensures CodeAccepted(entries[email := IssueCode(draw, issuedAt)], email, code, now)
            <==> code == RecoveryCode(draw) && now <= issuedAt + RecoveryWindowMs
  {
  }

  /** A newer request for the same address revokes the older code, unless the
      two draws happen to coincide. */
  lemma NewerCodeRevokesOlder(entries: map<string, RecoveryEntry>, email: string,
                              first: nat, second: nat, t1: Time, t2: Time, now: Time)
    requires first < CodeSpan && second < CodeSpan && first != second
    ensures !CodeAccepted(entries[email := IssueCode(first, t1)][email := IssueCode(second, t2)],
                          email, RecoveryCode(first), now)
  {
    assert ValueOf(RecoveryCode(first)) != ValueOf(RecoveryCode(second));
  }

  /** The user row with this e-mail address (`user.findUnique({ where: { email } })`). */
  function FindByEmail(db: Database, email: string): (r: Option<Id>)
    reads db
    requires db.Valid()
    ensures r.Some? <==> db.EmailTaken(email)
    ensures r.Some? ==> r.value in db.users && db.users[r.value].email == email
    ensures r.Some? ==> forall u :: u in db.users && db.users[u].email == email ==> u == r.value
  {
    if db.EmailTaken(email) then
      var u :| u in db.users && db.users[u].email == email;
      Some(u)
    else
      None
  }

  /** Adding a user under the next id with an address nobody has keeps the
      database consistent. */
  lemma AddUserConsistent(key: int, users: map<Id, User>, medicines: map<Id, Medicine>,
                          history: map<Id, DoseRecord>, exams: map<Id, Exam>, photos: map<Id, Photo>,
                          nextId: nat, u: User)
    requires Consistent(key, users, medicines, history, exams, photos, nextId)
    requires u.id == nextId
    requires forall v :: v in users ==> users[v].email != u.email
    ensures Consistent(key, users[u.id := u], medicines, history, exams, photos, nextId + 1)
  {
  }

  /** registerUser: refuses an address already in use, and otherwise stores a
      user with the password hashed and the role defaulting to "user". */
  method RegisterUser(db: Database, d: RegisterData) returns (r: Result<User, Error>)
    requires db.Valid()
    modifies db
    ensures db.Valid()
    ensures r.Failure? <==> old(db.EmailTaken(d.email))
    ensures r.Failure? ==> r.error == EmailInUse && unchanged(db)
    ensures r.Success? ==>
              var u := r.value;
              && u.id == old(db.nextId) && u.id !in old(db.users)
              && db.users == old(db.users)[u.id := u]
              && u.name == d.name && u.email == d.email && u.birthDate == d.birthDate
              && u.role == d.role.GetOr(DefaultRole)
              && u.password.cost == HashCost
              && (forall p :: Check(p, u.password) <==> p == d.password)
              && db.medicines == old(db.medicines) && db.history == old(db.history)
              && db.exams == old(db.exams) && db.photos == old(db.photos)
              && db.nextId == old(db.nextId) + 1 && db.nextIv == old(db.nextIv)
  {
    if db.EmailTaken(d.email) {
      return Failure(EmailInUse);
    }
    var user := User(db.nextId, d.name, d.email, Hash(d.password), d.birthDate, d.role.GetOr(DefaultRole));
    AddUserConsistent(db.key, db.users, db.medicines, db.history, db.exams, db.photos, db.nextId, user);
    db.users := db.users[user.id := user];
    db.nextId := db.nextId + 1;
    r := Success(user);
  }

  /** loginUser: an unknown address fails before any password is compared; a
      known one fails on a wrong password and otherwise yields the user's id and
      role, valid for an hour. */
  function LoginUser(db: Database, email: string, password: string, now: Time): (r: Result<Claims, Error>)
    reads db
    requires db.Valid()
    ensures r == Failure(UserNotFound) <==> !db.EmailTaken(email)
    ensures r.Success? <==>
              exists u :: u in db.users && db.users[u].email == email && Check(password, db.users[u].password)
    ensures r.Failure? ==> r.error == UserNotFound || r.error == InvalidPassword
    ensures r.Success? ==>
              && r.value.id in db.users
              && db.users[r.value.id].email == email
              && r.value.role == db.users[r.value.id].role
              && r.value.expiresAt == (now / 1000) * 1000 + HourMs
              && now + HourMs - 1000 < r.value.expiresAt <= now + HourMs
  {
    match FindByEmail(db, email)
    case None => Failure(UserNotFound)
    case Some(u) =>
      if !Check(password, db.users[u].password) then Failure(InvalidPassword)
      else Success(Claims(u, db.users[u].role, (now / 1000) * 1000 + HourMs))
  }

  /** A user just registered can log in with the password given at registration,
      and with no other. */
  method RegisterThenLogin(db: Database, d: RegisterData, other: string, now: Time)
    returns (registered: Result<User, Error>, login: Result<Claims, Error>, wrong: Result<Claims, Error>)
    requires db.Valid() && !db.EmailTaken(d.email) && other != d.password
    modifies db
    ensures registered.Success?
    ensures login.Success? && login.value.id == registered.value.id
    ensures login.value.role == d.role.GetOr(DefaultRole)
    ensures wrong == Failure(InvalidPassword)
  {
    registered := RegisterUser(db, d);
    var id := registered.value.id;
    assert id in db.users && db.users[id].email == d.email;
    login := LoginUser(db, d.email, d.password, now);
    wrong := LoginUser(db, d.email, other, now);
  }

  /** forgotPassword: an unknown address fails and stores nothing; otherwise the
      address's entry is replaced by a fresh six-digit code valid for 30
      minutes, and only then is the mail sent, so a failed send still leaves the
      code usable. */
  method ForgotPassword(db: Database, codes: RecoveryCodes, email: string, now: Time, draw: nat, delivered: bool)
    returns (r: Result<(), Error>)
    requires db.Valid() && draw < CodeSpan
    modifies codes
    ensures !db.EmailTaken(email) ==> r == Failure(EmailNotFound) && codes.entries == old(codes.entries)
    ensures db.EmailTaken(email) ==>
              && codes.entries == old(codes.entries)[email := IssueCode(draw, now)]
              && (r.Success? <==> delivered)
              && (r.Failure? ==> r.error == MailDeliveryFailed)
  {
    if FindByEmail(db, email).None? {
      return Failure(EmailNotFound);
    }
    var code := RecoveryCode(draw);
    var expiresAt := now + RecoveryWindowMs;
    codes.entries := codes.entries[email := RecoveryEntry(code, expiresAt)];
    if !delivered {
      return Failure(MailDeliveryFailed);
    }
    r := Success(());
  }

  /** The user table after `user.updateMany({ where: { email }, data: { password } })`. */
  function WithPassword(users: map<Id, User>, email: string, password: PasswordHash): (r: map<Id, User>)
    ensures r.Keys == users.Keys
    ensures forall u :: u in r && users[u].email == email ==> r[u] == users[u].(password := password)
    ensures forall u :: u in r && users[u].email != email ==> r[u] == users[u]
  {
    map u | u in users :: if users[u].email == email then users[u].(password := password) else users[u]
  }

  /** Changing passwords keeps the database consistent: no id or address moves. */
  lemma ResetConsistent(key: int, users: map<Id, User>, medicines: map<Id, Medicine>,
                        history: map<Id, DoseRecord>, exams: map<Id, Exam>, photos: map<Id, Photo>,
                        nextId: nat, email: string, password: PasswordHash)
    requires Consistent(key, users, medicines, history, exams, photos, nextId)
    ensures Consistent(key, WithPassword(users, email, password), medicines, history, exams, photos, nextId)
  {
    var users' := WithPassword(users, email, password);
    assert forall u :: u in users' ==> users'[u].id == users[u].id && users'[u].email == users[u].email;
  }

  /** resetPassword: without a present, matching, unexpired code nothing
      changes; with one, every user with that address gets the new password
      hash and the code is deleted. */
  method ResetPassword(db: Database, codes: RecoveryCodes, email: string, code: string,
                       newPassword: string, now: Time)
    returns (r: Result<(), Error>)
    requires db.Valid()
    modifies db, codes
    ensures db.Valid()
    ensures r.Success? <==> old(CodeAccepted(codes.entries, email, code, now))
    ensures r.Failure? ==>
              r.error == InvalidOrExpiredCode && unchanged(db) && codes.entries == old(codes.entries)
    ensures r.Success? ==>
              && codes.entries == old(codes.entries) - {email}
              && db.users == WithPassword(old(db.users), email, Hash(newPassword))
              && db.medicines == old(db.medicines) && db.history == old(db.history)
              && db.exams == old(db.exams) && db.photos == old(db.photos)
              && db.nextId == old(db.nextId) && db.nextIv == old(db.nextIv)
  {
    if email !in codes.entries || codes.entries[email].code != code || now > codes.entries[email].expiresAt {
      return Failure(InvalidOrExpiredCode);
    }
    var hashed := Hash(newPassword);
    ResetConsistent(db.key, db.users, db.medicines, db.history, db.exams, db.photos, db.nextId, email, hashed);
    db.users := WithPassword(db.users, email, hashed);
    codes.entries := codes.entries - {email};
    r := Success(());
  }

  /** A recovery code is single use: once a reset with it succeeds, repeating
      the same reset fails, and the new password is the one that logs in. */
  method ResetTwice(db: Database, codes: RecoveryCodes, email: string, code: string,
                    newPassword: string, now: Time)
    returns (first: Result<(), Error>, second: Result<(), Error>, login: Result<Claims, Error>)
    requires db.Valid() && CodeAccepted(codes.entries, email, code, now) && db.EmailTaken(email)
    modifies db, codes
    ensures first.Success?
    ensures second == Failure(InvalidOrExpiredCode)
    ensures login.Success? && login.value.id in db.users && db.users[login.value.id].email == email
  {
    first := ResetPassword(db, codes, email, code, newPassword, now);
    second := ResetPassword(db, codes, email, code, newPassword, now);
    login := LoginUser(db, email, newPassword, now);
  }
}
