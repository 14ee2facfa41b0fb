/** The server's store and its route handlers: the user, post and board
    collections as fields of one object, changed in place by the handlers
    for registration, login, the authentication gate, post creation and
    start-up seeding. Each handler's new state is the one the corresponding
    pure transition describes, and the store's invariant is kept. */
module Server {
  import opened Schema
  import Crypto
  import Accounts
  import Gate
  import Listing
  import Posts
  import Seed

  class Database {
    var users: seq<User>
    var posts: seq<Post>
    var boards: seq<Board>

    /** Usernames, emails and board ids are unique, and every post's author
        is a stored user. */
    ghost predicate Valid()
      reads this
    {
      && UniqueAccounts(users)
      && UniqueBoardIds(boards)
      && forall k :: 0 <= k < |posts| ==> posts[k].author < |users|
    }

    /** An empty database, before seeding. */
    constructor()
      ensures Valid()
      ensures users == [] && posts == [] && boards == []
    {
      users, posts, boards := [], [], [];
    }

    /** `POST /api/auth/register`. */
    method Register(form: Accounts.RegisterForm, secret: string, now: Time) returns (out: Accounts.Registration)
      requires Valid()
      modifies this
      ensures Valid()
      ensures Accounts.Step(out, users) == Accounts.Register(old(users), form, secret, now)
      ensures posts == old(posts) && boards == old(boards)
    {
      if Accounts.RegisterFormIncomplete(form) {
        return Accounts.RegisterRejected(Accounts.MissingFields);
      }
      if form.password != form.passwordConfirm {
        return Accounts.RegisterRejected(Accounts.PasswordMismatch);
      }
      var name, email, password := form.username.value, form.email.value, form.password.value;
      var existing := Accounts.FindOne(users, u => Accounts.ClashesWith(u, name, email));
      if existing.Some? {
        var i := existing.value;
        Accounts.RegisterClashError(users, form, secret, now, i);
        return Accounts.RegisterRejected(if users[i].username == name then Accounts.UsernameTaken else Accounts.EmailTaken);
      }
      Accounts.RegisterKeepsAccountsUnique(users, form, secret, now);
      var id := |users|;
      users := users + [NewUser(name, email, Crypto.Hash(password), UserRole, now)];
      var token := Crypto.Issue(id, name, Crypto.ShortTtl, secret, now);
      out := Accounts.Registered(token, Accounts.NewAccount(id, name, email, UserRole, now));
    }

    /** `POST /api/auth/login`. */
    method Login(form: Accounts.LoginForm, secret: string, now: Time) returns (out: Accounts.LoginResult)
      requires Valid()
      modifies this
      ensures Valid()
      ensures Accounts.Step(out, users) == Accounts.Login(old(users), form, secret, now)
      ensures posts == old(posts) && boards == old(boards)
    {
      if Missing(form.username) || Missing(form.password) {
        return Accounts.LoginRejected(Accounts.MissingCredentials);
      }
      var login, password := form.username.value, form.password.value;
      var found := Accounts.FindOne(users, u => Accounts.SignsInAs(u, login));
      if found.None? {
        return Accounts.LoginRejected(Accounts.UnknownUser);
      }
      var id := found.value;
      assert Accounts.FirstSignIn(users, login, id);
      var user := users[id];
      if !Crypto.Matches(password, user.password) {
        return Accounts.LoginRejected(Accounts.WrongPassword);
      }
      Accounts.LoginKeepsAccountsUnique(users, form, secret, now);
      var token := Crypto.Issue(id, user.username, Accounts.TokenTtl(form.remember), secret, now);
      users := users[id := Accounts.Touch(user, now)];
      out := Accounts.LoggedIn(token, Accounts.Session(id, user.username, user.email, user.role, user.stats));
    }

    /** `authenticateToken`; `saved` says whether stamping `lastActive` saves. */
    method AuthenticateToken(header: Option<string>, decode: string -> Option<Crypto.Jwt>, secret: string,
                             now: Time, saved: bool) returns (out: Gate.GateOutcome)
      requires Valid()
      modifies this
      ensures Valid()
      ensures Accounts.Step(out, users) == Gate.Authenticate(header, decode, secret, old(users), now, saved)
      ensures posts == old(posts) && boards == old(boards)
    {
      var token := Gate.BearerToken(header);
      if token.None? {
        return Gate.Refused(401);
      }
      var claims := Crypto.Verify(decode(token.value), secret, now);
      if claims.None? {
        return Gate.Refused(403);
      }
      var id := claims.value.userId;
      if !(id < |users| && users[id].isActive) {
        return Gate.Refused(401);
      }
      if !saved {
        return Gate.Refused(403);
      }
      Accounts.TouchKeepsAccountsUnique(users, id, now);
      users := users[id := Accounts.Touch(users[id], now)];
      out := Gate.Admitted(id);
    }

    /** The creation step of `POST /api/posts` for the authenticated user
        `author`. */
    method CreatePost(author: UserId, form: Posts.PostForm, files: Option<seq<Posts.UploadedFile>>, now: Time)
      returns (out: Posts.Creation)
      requires Valid() && author < |users|
      modifies this
      ensures Valid()
      ensures Posts.Step(out, posts) == Posts.CreatePost(old(posts), author, form, files, now)
      ensures users == old(users) && boards == old(boards)
    {
      if Missing(form.title) || Missing(form.content) || Missing(form.board) {
        return Posts.CreateRejected(400);
      }
      if |form.title.value| > TitleMaxLength {
        return Posts.CreateRejected(500);
      }
      var category := if Missing(form.category) then DefaultCategory else form.category.value;
      var post := NewPost(form.title.value, form.content.value, author, form.board.value, category,
                          Posts.ParseTags(form.tags), Posts.Attachments(files), now);
      out := Posts.Created(|posts|, post);
      posts := posts + [post];
    }

    /** `POST /api/posts` as routed: the gate first, then creation with the
        gate's user as author. The author never comes from the form. */
    method SubmitPost(header: Option<string>, decode: string -> Option<Crypto.Jwt>, secret: string,
                      now: Time, saved: bool, form: Posts.PostForm, files: Option<seq<Posts.UploadedFile>>)
      returns (out: Posts.Creation)
      requires Valid()
      modifies this
      ensures Valid()
      ensures var gate := Gate.Authenticate(header, decode, secret, old(users), now, saved);
              gate.out.Refused? ==>
                out == Posts.CreateRejected(gate.out.status) && users == old(users) && posts == old(posts)
      ensures var gate := Gate.Authenticate(header, decode, secret, old(users), now, saved);
              gate.out.Admitted? ==>
                users == gate.users
                && Posts.Step(out, posts) == Posts.CreatePost(old(posts), gate.out.userId, form, files, now)
      ensures out.Created? ==>
                Gate.Authenticate(header, decode, secret, old(users), now, saved).out == Gate.Admitted(out.post.author)
      ensures boards == old(boards)
    {
      var gate := AuthenticateToken(header, decode, secret, now, saved);
      match gate
      case Refused(status) =>
        out := Posts.CreateRejected(status);
      case Admitted(id) =>
        out := CreatePost(id, form, files, now);
    }

    /** `GET /api/posts`. */
    method ListPosts(q: Listing.Query) returns (page: Listing.Page)
      requires Valid() && Listing.WellFormed(q)
      ensures page == Listing.ListPosts(posts, q)
      ensures forall k :: 0 <= k < |page.posts| ==> page.posts[k].status == Published
      ensures Listing.BoardOf(q) != "best" ==>
                forall k :: 0 <= k < |page.posts| ==> page.posts[k].board == Listing.BoardOf(q)
      ensures forall k :: 0 <= k < |page.posts| ==> page.posts[k] in posts
    {
      page := Listing.ListPosts(posts, q);
      Listing.ListedPostsSelectedAndOrdered(posts, q);
      Listing.ListedPostsAreStored(posts, q);
    }

    /** `initializeData`: each default board whose id is missing is saved,
        in order; then the administrator account, if no user is named
        `admin` and the unique email index accepts it. */
    method InitializeData(now: Time)
      requires Valid()
      modifies this
      ensures Valid()
      ensures var t := Seed.Initialize(Seed.Store(old(boards), old(users)), now);
              boards == t.boards && users == t.users
      ensures posts == old(posts)
      ensures forall k :: 0 <= k < |Seed.DefaultBoards| ==> Seed.HasBoard(boards, Seed.DefaultBoards[k].id)
    {
      Seed.InitializeSpec(Seed.Store(boards, users), now);
      SaveMissingBoards(Seed.DefaultBoards, now);
      if !Seed.HasAdmin(users) && !Seed.EmailInUse(users, Seed.AdminEmail) {
        users := users + [NewUser(Seed.AdminUsername, Seed.AdminEmail, Crypto.Hash(Seed.AdminPassword), AdminRole, now)];
      }
    }

    /** The board loop of `initializeData`: for each seed in order, the
        board is saved unless a board with its id exists. */
    method SaveMissingBoards(seeds: seq<Seed.BoardSeed>, now: Time)
      modifies this
      ensures boards == Seed.SeedBoards(old(boards), seeds, now)
      ensures users == old(users) && posts == old(posts)
    {
      var i := 0;
      while i < |seeds|
        invariant 0 <= i <= |seeds|
        invariant boards == Seed.SeedBoards(old(boards), seeds[..i], now)
        invariant users == old(users) && posts == old(posts)
      {
        var seed := seeds[i];
        if !Seed.HasBoard(boards, seed.id) {
          boards := boards + [NewBoard(seed.id, seed.name, seed.description, now)];
        }
        assert seeds[..i + 1][..i] == seeds[..i];
        i := i + 1;
      }
      assert seeds[..i] == seeds;
    }
  }
}
