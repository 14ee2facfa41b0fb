/** The four Mongoose schemas of the forum (User, Post, Board) as Dafny
    records, with the defaults the schemas fill in when a document is created.
    Timestamps are milliseconds since the epoch; document ids are positions in
    their collection, which the forum never deletes from. */
module Schema {

  datatype Option<+T> = None | Some(value: T) {
    /** The value, or `default` when absent: a destructuring default. */
    function GetOr(default: T): T {
      if Some? then value else default
    }
  }

  /** A request-body field is falsy in JavaScript when it is absent or the empty string. */
  predicate Missing(field: Option<string>) {
    field.None? || field.value == ""
  }

  type Time = nat
  type UserId = nat
  type PostId = nat

  /** The schema's role enum `['user', 'admin']`. */
  datatype Role = UserRole | AdminRole

  /** An opaque bcrypt digest: the cost factor and what it was computed from.
      Only `Crypto` builds or inspects one. */
  datatype Digest = Bcrypt(cost: nat, source: string)

  datatype UserStats = UserStats(posts: nat, comments: nat, likes: nat)

  datatype User = User(
    username: string,
    email: string,
    password: Digest,
    role: Role,
    avatar: string,
    joinDate: Time,
    lastActive: Time,
    isActive: bool,
    stats: UserStats,
    createdAt: Time,
    updatedAt: Time)

  datatype PostStatus = Draft | Published | Hidden

  datatype Attachment = Attachment(
    filename: string,
    originalName: string,
    mimeType: string,
    size: nat,
    url: string)

  datatype PostStats = PostStats(views: nat, likes: nat, dislikes: nat, comments: nat)

  datatype Post = Post(
    title: string,
    content: string,
    author: UserId,
    board: string,
    category: string,
    tags: seq<string>,
    attachments: seq<Attachment>,
    status: PostStatus,
    isNotice: bool,
    isPinned: bool,
    stats: PostStats,
    createdAt: Time,
    updatedAt: Time)

  datatype Board = Board(
    id: string,
    name: string,
    description: string,
    category: string,
    isActive: bool,
    postCount: nat,
    createdAt: Time,
    updatedAt: Time)

  const DefaultCategory: string := "general"
  const TitleMaxLength: nat := 200

  /** A user document as `new User({...})` builds it: every field the
      caller does not give takes the schema default. */
  function NewUser(username: string, email: string, password: Digest, role: Role, now: Time): (u: User)
    ensures u.username == username && u.email == email && u.password == password && u.role == role
    ensures u.isActive && u.avatar == ""
    ensures u.stats == UserStats(0, 0, 0)
    ensures u.joinDate == u.lastActive == u.createdAt == u.updatedAt == now
  {
    User(username, email, password, role, "", now, now, true, UserStats(0, 0, 0), now, now)
  }

  /** A post document as `new Post({...})` builds it: published, neither
      pinned nor a notice, every counter zero. */
  function NewPost(title: string, content: string, author: UserId, board: string, category: string,
                   tags: seq<string>, attachments: seq<Attachment>, now: Time): (p: Post)
    ensures p.title == title && p.content == content && p.author == author && p.board == board
    ensures p.category == category && p.tags == tags && p.attachments == attachments
    ensures p.status == Published && !p.isPinned && !p.isNotice
    ensures p.stats == PostStats(0, 0, 0, 0)
    ensures p.createdAt == p.updatedAt == now
  {
    Post(title, content, author, board, category, tags, attachments, Published, false, false,
         PostStats(0, 0, 0, 0), now, now)
  }

  /** A board document as `new Board({id, name, description})` builds it. */
  function NewBoard(id: string, name: string, description: string, now: Time): (b: Board)
    ensures b.id == id && b.name == name && b.description == description
    ensures b.category == DefaultCategory && b.isActive && b.postCount == 0
    ensures b.createdAt == b.updatedAt == now
  {
    Board(id, name, description, DefaultCategory, true, 0, now, now)
  }

  /** Username and email are each unique over the user collection. */
  ghost predicate UniqueAccounts(users: seq<User>) {
    forall i, j :: 0 <= i < j < |users| ==>
      users[i].username != users[j].username && users[i].email != users[j].email
  }

  /** Board ids are unique over the board collection. */
  ghost predicate UniqueBoardIds(boards: seq<Board>) {
    forall i, j :: 0 <= i < j < |boards| ==> boards[i].id != boards[j].id
  }
}
