/** The account store behind `POST /api/auth/register` and
    `POST /api/auth/login`: pure transitions over the user collection, each
    giving the response and the collection as the handler leaves it. */
module Accounts {
  import opened Schema
  import Crypto

  /** `User.findOne(filter)`: the first user from `from` on, in collection
      order, that the filter accepts. */
  function FindOne(users: seq<User>, filter: User -> bool, from: nat := 0): (r: Option<UserId>)
    requires from <= |users|
    ensures r.Some? ==> from <= r.value < |users| && filter(users[r.value])
    ensures r.Some? ==> forall j :: from <= j < r.value ==> !filter(users[j])
    ensures r.None? ==> forall j :: from <= j < |users| ==> !filter(users[j])
    decreases |users| - from
  {
    if from == |users| then None
    else if filter(users[from]) then Some(from)
    else FindOne(users, filter, from + 1)
  }

  // ---------------------------------------------------------------- register

  datatype RegisterForm = RegisterForm(
    username: Option<string>,
    email: Option<string>,
    password: Option<string>,
    passwordConfirm: Option<string>)

  datatype RegisterError = MissingFields | PasswordMismatch | UsernameTaken | EmailTaken

  /** The `user` object of the registration response; it has no password field. */
  datatype NewAccount = NewAccount(id: UserId, username: string, email: string, role: Role, joinDate: Time)

  datatype Registration =
    | Registered(token: Crypto.Jwt, user: NewAccount)
    | RegisterRejected(error: RegisterError)
  {
    /** The response code: 201 for a new account, 400 for every refusal. */
    function Status(): (code: int)
      ensures code == 201 <==> Registered?
      ensures code == 400 <==> RegisterRejected?
    {
      if Registered? then 201 else 400
    }
  }

  datatype Step<T> = Step(out: T, users: seq<User>)

  /** The registration lookup `{ $or: [{ username }, { email }] }`. */
  predicate ClashesWith(u: User, username: string, email: string) {
    u.username == username || u.email == email
  }

  predicate RegisterFormIncomplete(form: RegisterForm) {
    Missing(form.username) || Missing(form.email) || Missing(form.password)
  }

  /** The registration handler. */
  function Register(users: seq<User>, form: RegisterForm, secret: string, now: Time): (r: Step<Registration>)
    ensures r.out.RegisterRejected? ==> r.users == users
    ensures r.out == RegisterRejected(MissingFields) <==> RegisterFormIncomplete(form)
    ensures r.out == RegisterRejected(PasswordMismatch) <==>
              !RegisterFormIncomplete(form) && form.password != form.passwordConfirm
    ensures r.out.Registered? <==>
              && !RegisterFormIncomplete(form) && form.password == form.passwordConfirm
              && forall i :: 0 <= i < |users| ==> !ClashesWith(users[i], form.username.value, form.email.value)
    ensures r.out.Registered? ==>
              && r.users == users + [NewUser(form.username.value, form.email.value,
                                             Crypto.Hash(form.password.value), UserRole, now)]
              && r.out.user == NewAccount(|users|, form.username.value, form.email.value, UserRole, now)
              && r.out.token == Crypto.Issue(|users|, form.username.value, Crypto.ShortTtl, secret, now)
  {
    if RegisterFormIncomplete(form) then Step(RegisterRejected(MissingFields), users)
    else if form.password != form.passwordConfirm then Step(RegisterRejected(PasswordMismatch), users)
    else
      var name, email, password := form.username.value, form.email.value, form.password.value;
      match FindOne(users, u => ClashesWith(u, name, email))
      case Some(i) =>
        Step(RegisterRejected(if users[i].username == name then UsernameTaken else EmailTaken), users)
      case None =>
        var id := |users|;
        var user := NewUser(name, email, Crypto.Hash(password), UserRole, now);
        Step(Registered(Crypto.Issue(id, name, Crypto.ShortTtl, secret, now),
                        NewAccount(id, name, email, UserRole, now)),
             users + [user])
  }

  /** Which of the two "already in use" errors a clash reports is decided by
      the first clashing user: its username if that is the one that clashes. */
  lemma {:induction false} RegisterClashError(users: seq<User>, form: RegisterForm, secret: string, now: Time, i: nat)
    requires !RegisterFormIncomplete(form) && form.password == form.passwordConfirm
    requires i < |users| && ClashesWith(users[i], form.username.value, form.email.value)
    requires forall j :: 0 <= j < i ==> !ClashesWith(users[j], form.username.value, form.email.value)
    ensures Register(users, form, secret, now).out ==
              RegisterRejected(if users[i].username == form.username.value then UsernameTaken else EmailTaken)
  {
    var name, email := form.username.value, form.email.value;
    var found := FindOne(users, u => ClashesWith(u, name, email));
    assert found == Some(i);
  }

  /** Registration keeps usernames and emails unique, and a successful one
      adds exactly one user, who is active, has the `user` role and zero
      counters. */
  lemma {:induction false} RegisterKeepsAccountsUnique(users: seq<User>, form: RegisterForm, secret: string, now: Time)
    requires UniqueAccounts(users)
    ensures UniqueAccounts(Register(users, form, secret, now).users)
    ensures var r := Register(users, form, secret, now);
            r.out.Registered? ==>
              && |r.users| == |users| + 1 && r.users[..|users|] == users
              && var u := r.users[|users|];
                 u.role == UserRole && u.isActive && u.stats == UserStats(0, 0, 0)
  {
    var r := Register(users, form, secret, now);
    if r.out.Registered? {
      var name, email := form.username.value, form.email.value;
      forall i, j | 0 <= i < j < |r.users|
        ensures r.users[i].username != r.users[j].username && r.users[i].email != r.users[j].email
      {
        if j == |users| {
          assert !ClashesWith(users[i], name, email);
        }
      }
      assert r.users[..|users|] == users;
    }
  }

  // ------------------------------------------------------------------- login

  datatype LoginForm = LoginForm(username: Option<string>, password: Option<string>, remember: bool)

  datatype LoginError = MissingCredentials | UnknownUser | WrongPassword

  /** The `user` object of the login response; it has no password field. */
  datatype Session = Session(id: UserId, username: string, email: string, role: Role, stats: UserStats)

  datatype LoginResult =
    | LoggedIn(token: Crypto.Jwt, user: Session)
    | LoginRejected(error: LoginError)
  {
    /** The response code: 200 for a login, 400 for every refusal. */
    function Status(): (code: int)
      ensures code == 200 <==> LoggedIn?
      ensures code == 400 <==> LoginRejected?
    {
      if LoggedIn? then 200 else 400
    }
  }

  /** The login lookup `{ $or: [{ username }, { email: username }], isActive: true }`. */
  predicate SignsInAs(u: User, login: string) {
    u.isActive && (u.username == login || u.email == login)
  }

  /** `User.findOne` of the login lookup answers with account `id`: the
      first in collection order that signs in as `login`. */
  predicate FirstSignIn(users: seq<User>, login: string, id: nat) {
    id < |users| && SignsInAs(users[id], login) && forall j :: 0 <= j < id ==> !SignsInAs(users[j], login)
  }

  /** `remember ? '30d' : '7d'`, in seconds. */
  function TokenTtl(remember: bool): (ttl: nat)
    ensures ttl == (if remember then 30 else 7) * 24 * 3600
  {
    if remember then Crypto.LongTtl else Crypto.ShortTtl
  }

  /** The user `lastActive` stamps at time `now`; the save also moves `updatedAt`. */
  function Touch(u: User, now: Time): (v: User)
    ensures v.lastActive == now && v.updatedAt == now
    ensures v.(lastActive := u.lastActive, updatedAt := u.updatedAt) == u
  {
    u.(lastActive := now, updatedAt := now)
  }

  /** The login handler. */
  function Login(users: seq<User>, form: LoginForm, secret: string, now: Time): (r: Step<LoginResult>)
    ensures r.out.LoginRejected? ==> r.users == users
    ensures r.out == LoginRejected(MissingCredentials) <==> Missing(form.username) || Missing(form.password)
    ensures r.out.LoggedIn? ==>
              var id := r.out.user.id;
              && !Missing(form.username) && !Missing(form.password)
              && FirstSignIn(users, form.username.value, id)
              && Crypto.Matches(form.password.value, users[id].password)
              && r.out.token == Crypto.Issue(id, users[id].username, TokenTtl(form.remember), secret, now)
              && r.out.user == Session(id, users[id].username, users[id].email, users[id].role, users[id].stats)
              && r.users == users[id := Touch(users[id], now)]
    ensures r.out == LoginRejected(UnknownUser) <==>
              !Missing(form.username) && !Missing(form.password)
              && forall j :: 0 <= j < |users| ==> !SignsInAs(users[j], form.username.value)
    ensures r.out == LoginRejected(WrongPassword) ==>
              && !Missing(form.username) && !Missing(form.password)
              && exists id: nat :: FirstSignIn(users, form.username.value, id)
                              && !Crypto.Matches(form.password.value, users[id].password)
  {
    if Missing(form.username) || Missing(form.password) then Step(LoginRejected(MissingCredentials), users)
    else
      var login, password := form.username.value, form.password.value;
      match FindOne(users, u => SignsInAs(u, login))
      case None => Step(LoginRejected(UnknownUser), users)
      case Some(id) =>
        var user := users[id];
        if !Crypto.Matches(password, user.password) then Step(LoginRejected(WrongPassword), users)
        else
          var token := Crypto.Issue(id, user.username, TokenTtl(form.remember), secret, now);
          Step(LoggedIn(token, Session(id, user.username, user.email, user.role, user.stats)),
               users[id := Touch(user, now)])
  }

  /** When at most one active account answers to a login name, logging in
      succeeds exactly when that account's password is given. */
  lemma {:induction false} LoginSucceedsIff(users: seq<User>, form: LoginForm, secret: string, now: Time, id: nat)
    requires !Missing(form.username) && !Missing(form.password)
    requires id < |users| && SignsInAs(users[id], form.username.value)
    requires forall j :: 0 <= j < |users| && j != id ==> !SignsInAs(users[j], form.username.value)
    ensures var r := Login(users, form, secret, now);
            r.out.LoggedIn? <==> Crypto.Matches(form.password.value, users[id].password)
    ensures var r := Login(users, form, secret, now);
            r.out.LoggedIn? ==> r.out.user.id == id
  {
    var login := form.username.value;
    var found := FindOne(users, u => SignsInAs(u, login));
    assert found == Some(id);
  }

  /** Stamping one user's activity keeps usernames and emails unique. */
  lemma TouchKeepsAccountsUnique(users: seq<User>, id: nat, now: Time)
    requires UniqueAccounts(users) && id < |users|
    ensures UniqueAccounts(users[id := Touch(users[id], now)])
  {
    var r := users[id := Touch(users[id], now)];
    forall i, j | 0 <= i < j < |r|
      ensures r[i].username != r[j].username && r[i].email != r[j].email
    {
      assert r[i].username == users[i].username && r[i].email == users[i].email;
      assert r[j].username == users[j].username && r[j].email == users[j].email;
    }
  }

  /** Logging in changes nothing but the `lastActive` and `updatedAt` stamps
      of the user who logged in, so account uniqueness is kept. */
  lemma LoginKeepsAccountsUnique(users: seq<User>, form: LoginForm, secret: string, now: Time)
    requires UniqueAccounts(users)
    ensures UniqueAccounts(Login(users, form, secret, now).users)
  {
    var r := Login(users, form, secret, now);
    if r.out.LoggedIn? {
      TouchKeepsAccountsUnique(users, r.out.user.id, now);
    }
  }

  /** A user who has just registered can log in with the same username and
      password, and the token issued then verifies, for its lifetime, to
      that user's id. Registration only compares usernames with usernames
      and emails with emails, so this needs that no active account has the
      new username as its email (see `LoginReachesAnotherAccount`). */
  lemma {:induction false} RegisterThenLogin(users: seq<User>, form: RegisterForm, remember: bool,
                                             secret: string, now: Time, later: Time)
    requires Register(users, form, secret, now).out.Registered?
    requires forall j :: 0 <= j < |users| && users[j].isActive ==> users[j].email != form.username.value
    ensures var reg := Register(users, form, secret, now);
            var log := Login(reg.users, LoginForm(form.username, form.password, remember), secret, later);
            && log.out.LoggedIn? && log.out.user.id == |users|
            && Crypto.Verify(Some(log.out.token), secret, later).Some?
            && Crypto.Verify(Some(log.out.token), secret, later).value.userId == |users|
  {
    var reg := Register(users, form, secret, now);
    var name := form.username.value;
    var lform := LoginForm(form.username, form.password, remember);
    forall j | 0 <= j < |reg.users| && j != |users|
      ensures !SignsInAs(reg.users[j], name)
    {
      assert reg.users[j] == users[j];
      assert !ClashesWith(users[j], name, form.email.value);
    }
    assert reg.users[|users|].password == Crypto.Hash(form.password.value);
    LoginSucceedsIff(reg.users, lform, secret, later, |users|);
    Crypto.IssuedTokenVerifies(|users|, name, TokenTtl(remember), secret, later, later, secret + "'");
  }

  /** The code as written: registration lets through a username that an
      earlier active account has as its email, and logging in with the new
      username and password then resolves to the first such account `j`.
      The login succeeds as `j` when the password matches `j`'s hash, and is
      refused as a wrong password otherwise; the new account is never
      reached. */
  lemma {:induction false} LoginReachesAnotherAccount(users: seq<User>, form: RegisterForm, remember: bool,
                                                      secret: string, now: Time, later: Time, j: nat)
    requires Register(users, form, secret, now).out.Registered?
    requires j < |users| && users[j].isActive && users[j].email == form.username.value
    requires forall i :: 0 <= i < j ==> !(users[i].isActive && users[i].email == form.username.value)
    ensures var reg := Register(users, form, secret, now);
            var log := Login(reg.users, LoginForm(form.username, form.password, remember), secret, later);
            && (Crypto.Matches(form.password.value, users[j].password) ==>
                  log.out.LoggedIn? && log.out.user.id == j && log.out.user.username == users[j].username)
            && (!Crypto.Matches(form.password.value, users[j].password) ==>
                  log.out == LoginRejected(WrongPassword))
  {
    var reg := Register(users, form, secret, now);
    var name := form.username.value;
    var log := Login(reg.users, LoginForm(form.username, form.password, remember), secret, later);
    forall i | 0 <= i < j
      ensures !SignsInAs(reg.users[i], name)
    {
      assert reg.users[i] == users[i];
      assert !ClashesWith(users[i], name, form.email.value);
    }
    assert reg.users[j] == users[j];
    assert FirstSignIn(reg.users, name, j);
    if log.out.LoggedIn? {
      FirstSignInUnique(reg.users, name, log.out.user.id, j);
    } else if log.out == LoginRejected(WrongPassword) {
      var id: nat :| FirstSignIn(reg.users, name, id) && !Crypto.Matches(form.password.value, reg.users[id].password);
      FirstSignInUnique(reg.users, name, id, j);
    }
  }

  lemma FirstSignInUnique(users: seq<User>, login: string, a: nat, b: nat)
    requires FirstSignIn(users, login, a) && FirstSignIn(users, login, b)
    ensures a == b
  {
  }

  /** A case of the above, with different passwords: `bob` registers while
      the email of the account `carol` is `bob`, and `bob`'s login is refused. */
  lemma LoginReachesAnotherAccountExample(secret: string, now: Time)
    ensures var older := NewUser("carol", "bob", Crypto.Hash("pw-carol"), UserRole, now);
            var form := RegisterForm(Some("bob"), Some("bob@x.com"), Some("pw-bob"), Some("pw-bob"));
            var reg := Register([older], form, secret, now);
            && reg.out.Registered?
            && Login(reg.users, LoginForm(Some("bob"), Some("pw-bob"), false), secret, now).out
               == LoginRejected(WrongPassword)
  {
    var older := NewUser("carol", "bob", Crypto.Hash("pw-carol"), UserRole, now);
    var form := RegisterForm(Some("bob"), Some("bob@x.com"), Some("pw-bob"), Some("pw-bob"));
    assert !ClashesWith(older, "bob", "bob@x.com");
    LoginReachesAnotherAccount([older], form, false, secret, now, now, 0);
  }
}
