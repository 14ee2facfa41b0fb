/** Start-up seeding (`initializeData`): the default boards that are
    missing, then the administrator account if there is none. */
module Seed {
  import opened Schema
  import Crypto
  import Accounts

  datatype BoardSeed = BoardSeed(id: string, name: string, description: string)

  const DefaultBoards: seq<BoardSeed> := [
    BoardSeed("best", "일간-베스트", "가장 인기있는 게시글들"),
    BoardSeed("politics", "정치", "정치 이야기"),
    BoardSeed("issue", "이슈", "핫한 이슈들"),
    BoardSeed("society", "사회", "사회 문제 토론"),
    BoardSeed("celeb", "걸그룹/연예인", "연예계 소식"),
    BoardSeed("stock", "주식", "투자와 경제 정보")
  ]

  const AdminUsername: string := "admin"
  const AdminEmail: string := "admin@fightclub.com"
  const AdminPassword: string := "admin123"

  /** `Board.findOne({ id })` finds a board. */
  predicate HasBoard(boards: seq<Board>, id: string) {
    exists i :: 0 <= i < |boards| && boards[i].id == id
  }

  /** One turn of the seeding loop: save the board unless its id is taken. */
  function AddIfMissing(boards: seq<Board>, seed: BoardSeed, now: Time): (r: seq<Board>)
    ensures HasBoard(r, seed.id)
    ensures r == boards || r == boards + [NewBoard(seed.id, seed.name, seed.description, now)]
    ensures r == boards <==> HasBoard(boards, seed.id)
  {
    if HasBoard(boards, seed.id) then boards
    else
      var r := boards + [NewBoard(seed.id, seed.name, seed.description, now)];
      assert r[|boards|].id == seed.id;
      r
  }

  /** The boards after the seeding loop has run over `seeds`, in order. */
  function SeedBoards(boards: seq<Board>, seeds: seq<BoardSeed>, now: Time): (r: seq<Board>)
    ensures |boards| <= |r| <= |boards| + |seeds|
    decreases |seeds|
  {
    if seeds == [] then boards
    else AddIfMissing(SeedBoards(boards, seeds[..|seeds| - 1], now), seeds[|seeds| - 1], now)
  }

  /** Seeding only appends, and it appends only boards built from the seeds. */
  lemma {:induction false} SeedBoardsExtends(boards: seq<Board>, seeds: seq<BoardSeed>, now: Time)
    ensures var r := SeedBoards(boards, seeds, now);
            && |r| >= |boards| && r[..|boards|] == boards
            && forall k :: |boards| <= k < |r| ==>
                 exists s :: 0 <= s < |seeds| && r[k] == NewBoard(seeds[s].id, seeds[s].name, seeds[s].description, now)
    decreases |seeds|
  {
    if seeds != [] {
      var init, last := seeds[..|seeds| - 1], seeds[|seeds| - 1];
      var mid := SeedBoards(boards, init, now);
      SeedBoardsExtends(boards, init, now);
      var r := AddIfMissing(mid, last, now);
      forall k | |boards| <= k < |r|
        ensures exists s :: 0 <= s < |seeds| && r[k] == NewBoard(seeds[s].id, seeds[s].name, seeds[s].description, now)
      {
        if k < |mid| {
          var s :| 0 <= s < |init| && mid[k] == NewBoard(init[s].id, init[s].name, init[s].description, now);
          assert seeds[s] == init[s];
        } else {
          assert r[k] == NewBoard(last.id, last.name, last.description, now);
        }
      }
      assert r[..|boards|] == mid[..|boards|];
    }
  }

  /** After seeding, every seeded id names a board. */
  lemma {:induction false} SeedBoardsPresent(boards: seq<Board>, seeds: seq<BoardSeed>, now: Time)
    ensures forall k :: 0 <= k < |seeds| ==> HasBoard(SeedBoards(boards, seeds, now), seeds[k].id)
    decreases |seeds|
  {
    if seeds != [] {
      var init, last := seeds[..|seeds| - 1], seeds[|seeds| - 1];
      var mid := SeedBoards(boards, init, now);
      SeedBoardsPresent(boards, init, now);
      var r := AddIfMissing(mid, last, now);
      forall k | 0 <= k < |seeds| - 1
        ensures HasBoard(r, seeds[k].id)
      {
        assert seeds[k] == init[k];
        var i :| 0 <= i < |mid| && mid[i].id == seeds[k].id;
        assert r[i] == mid[i];
      }
    }
  }

  lemma AddIfMissingUnique(boards: seq<Board>, seed: BoardSeed, now: Time)
    requires UniqueBoardIds(boards)
    ensures UniqueBoardIds(AddIfMissing(boards, seed, now))
  {
    var r := AddIfMissing(boards, seed, now);
    if r != boards {
      forall i, j | 0 <= i < j < |r|
        ensures r[i].id != r[j].id
      {
        if j == |boards| {
          assert r[i] == boards[i];
        }
      }
    }
  }

  /** Seeding keeps board ids unique. */
  lemma {:induction false} SeedBoardsUnique(boards: seq<Board>, seeds: seq<BoardSeed>, now: Time)
    requires UniqueBoardIds(boards)
    ensures UniqueBoardIds(SeedBoards(boards, seeds, now))
    decreases |seeds|
  {
    if seeds != [] {
      var init := seeds[..|seeds| - 1];
      SeedBoardsUnique(boards, init, now);
      AddIfMissingUnique(SeedBoards(boards, init, now), seeds[|seeds| - 1], now);
    }
  }

  /** Once every seeded id is present, seeding changes nothing. */
  lemma {:induction false} SeedBoardsNoop(boards: seq<Board>, seeds: seq<BoardSeed>, now: Time)
    requires forall k :: 0 <= k < |seeds| ==> HasBoard(boards, seeds[k].id)
    ensures SeedBoards(boards, seeds, now) == boards
    decreases |seeds|
  {
    if seeds != [] {
      var init := seeds[..|seeds| - 1];
      assert forall k :: 0 <= k < |init| ==> init[k] == seeds[k];
      SeedBoardsNoop(boards, init, now);
    }
  }

  /** `User.findOne({ username: 'admin' })` finds a user. */
  predicate HasAdmin(users: seq<User>) {
    exists i :: 0 <= i < |users| && users[i].username == AdminUsername
  }

  predicate EmailInUse(users: seq<User>, email: string) {
    exists i :: 0 <= i < |users| && users[i].email == email
  }

  /** The administrator step. When no user is named `admin` the account is
      saved, unless the unique email index refuses it because another
      account already has its email; the error is caught and logged. */
  function SeedAdmin(users: seq<User>, now: Time): (r: seq<User>)
    ensures HasAdmin(users) || EmailInUse(users, AdminEmail) ==> r == users
    ensures !HasAdmin(users) && !EmailInUse(users, AdminEmail) ==>
              r == users + [NewUser(AdminUsername, AdminEmail, Crypto.Hash(AdminPassword), AdminRole, now)]
    ensures HasAdmin(r) || EmailInUse(r, AdminEmail)
  {
    if HasAdmin(users) || EmailInUse(users, AdminEmail) then users
    else
      var r := users + [NewUser(AdminUsername, AdminEmail, Crypto.Hash(AdminPassword), AdminRole, now)];
      assert r[|users|].username == AdminUsername;
      r
  }

  datatype Store = Store(boards: seq<Board>, users: seq<User>)

  /** `initializeData` on a store at time `now`. */
  function Initialize(s: Store, now: Time): (t: Store)
    ensures forall k :: 0 <= k < |DefaultBoards| ==> HasBoard(t.boards, DefaultBoards[k].id)
    ensures HasAdmin(t.users) || EmailInUse(t.users, AdminEmail)
    ensures t.users == s.users || |t.users| == |s.users| + 1
  {
    SeedBoardsPresent(s.boards, DefaultBoards, now);
    Store(SeedBoards(s.boards, DefaultBoards, now), SeedAdmin(s.users, now))
  }

  /** Seeding keeps account and board-id uniqueness, and afterwards every
      default board exists and the admin account exists unless another
      account holds its email. */
  lemma {:induction false} InitializeSpec(s: Store, now: Time)
    requires UniqueAccounts(s.users) && UniqueBoardIds(s.boards)
    ensures var t := Initialize(s, now);
            && UniqueAccounts(t.users) && UniqueBoardIds(t.boards)
            && (forall k :: 0 <= k < |DefaultBoards| ==> HasBoard(t.boards, DefaultBoards[k].id))
            && (HasAdmin(t.users) || EmailInUse(t.users, AdminEmail))
  {
    SeedBoardsPresent(s.boards, DefaultBoards, now);
    SeedBoardsUnique(s.boards, DefaultBoards, now);
    var users := SeedAdmin(s.users, now);
    if users != s.users {
      forall i, j | 0 <= i < j < |users|
        ensures users[i].username != users[j].username && users[i].email != users[j].email
      {
        if j == |s.users| {
          assert users[i] == s.users[i];
        }
      }
    }
  }

  /** Running `initializeData` a second time, at any time, changes nothing. */
  lemma {:induction false} InitializeIdempotent(s: Store, now: Time, later: Time)
    ensures Initialize(Initialize(s, now), later) == Initialize(s, now)
  {
    var t := Initialize(s, now);
    SeedBoardsPresent(s.boards, DefaultBoards, now);
    SeedBoardsNoop(t.boards, DefaultBoards, later);
  }
}
