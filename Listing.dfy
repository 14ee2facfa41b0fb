/** The listing engine behind `GET /api/posts`: select the published posts
    of a board, order them by the requested sort option and cut out one
    page, with the pagination summary. */
module Listing {
  import opened Schema

  // ------------------------------------------------------------- selection

  /** The query `{ status: 'published' }`, plus `board` unless it is `'best'`. */
  predicate Selected(board: string, p: Post) {
    p.status == Published && (board == "best" || p.board == board)
  }

  /** `Post.find(query)`, in collection order: exactly the selected posts,
      each as often as it occurs. */
  function Select(posts: seq<Post>, board: string): (r: seq<Post>)
    ensures forall k :: 0 <= k < |r| ==> Selected(board, r[k])
    ensures forall p :: multiset(r)[p] == if Selected(board, p) then multiset(posts)[p] else 0
    ensures |r| <= |posts|
  {
    if posts == [] then []
    else
      assert posts == [posts[0]] + posts[1..];
      (if Selected(board, posts[0]) then [posts[0]] else []) + Select(posts[1..], board)
  }

  // -------------------------------------------------------------- ordering

  /** The four branches of the `switch (sort)`; `Latest` is the default one. */
  datatype SortOption = Latest | Popular | MostViewed | MostCommented

  function SortOptionOf(sort: string): (o: SortOption)
    ensures o == Popular <==> sort == "popular"
    ensures o == MostViewed <==> sort == "views"
    ensures o == MostCommented <==> sort == "comments"
    ensures o == Latest <==> sort != "popular" && sort != "views" && sort != "comments"
  {
    match sort
    case "popular" => Popular
    case "views" => MostViewed
    case "comments" => MostCommented
    case _ => Latest
  }

  /** The first sort key, descending: a counter, or `isPinned` (pinned first). */
  function Rank(option: SortOption, p: Post): (n: nat)
    ensures option == Popular ==> n == p.stats.likes
    ensures option == MostViewed ==> n == p.stats.views
    ensures option == MostCommented ==> n == p.stats.comments
    ensures option == Latest ==> n <= 1 && (n == 1 <==> p.isPinned)
  {
    match option
    case Popular => p.stats.likes
    case MostViewed => p.stats.views
    case MostCommented => p.stats.comments
    case Latest => if p.isPinned then 1 else 0
  }

  /** `a` may be listed before `b`: higher first key, or the same first key
      and created no earlier (`createdAt: -1`). */
  predicate Precedes(option: SortOption, a: Post, b: Post) {
    Rank(option, a) > Rank(option, b) || (Rank(option, a) == Rank(option, b) && a.createdAt >= b.createdAt)
  }

  ghost predicate Ordered(option: SortOption, s: seq<Post>) {
    forall i, j :: 0 <= i < j < |s| ==> Precedes(option, s[i], s[j])
  }

  function Insert(option: SortOption, p: Post, s: seq<Post>): (r: seq<Post>)
    requires Ordered(option, s)
    ensures Ordered(option, r)
    ensures multiset(r) == multiset(s) + multiset{p}
    decreases |s|
  {
    if s == [] || Precedes(option, p, s[0]) then [p] + s
    else
      var rest := s[1..];
      var tail := Insert(option, p, rest);
      assert s == [s[0]] + rest;
      assert forall k :: 0 <= k < |rest| ==> Precedes(option, s[0], rest[k]) by {
        forall k | 0 <= k < |rest|
          ensures Precedes(option, s[0], rest[k])
        {
          assert rest[k] == s[k + 1];
        }
      }
      InsertedBelowHead(option, s[0], p, rest, tail);
      ConsOrdered(option, s[0], tail);
      [s[0]] + tail
  }

  /** Whatever precedes `p` and every post of `rest` precedes every post of
      any rearrangement of `rest` with `p` added. */
  lemma InsertedBelowHead(option: SortOption, head: Post, p: Post, rest: seq<Post>, tail: seq<Post>)
    requires Precedes(option, head, p)
    requires forall k :: 0 <= k < |rest| ==> Precedes(option, head, rest[k])
    requires multiset(tail) == multiset(rest) + multiset{p}
    ensures forall k :: 0 <= k < |tail| ==> Precedes(option, head, tail[k])
  {
    forall k | 0 <= k < |tail|
      ensures Precedes(option, head, tail[k])
    {
      assert tail[k] in multiset(tail);
      if tail[k] != p {
        assert tail[k] in rest;
        var m :| 0 <= m < |rest| && rest[m] == tail[k];
      }
    }
  }

  lemma ConsOrdered(option: SortOption, head: Post, tail: seq<Post>)
    requires Ordered(option, tail)
    requires forall k :: 0 <= k < |tail| ==> Precedes(option, head, tail[k])
    ensures Ordered(option, [head] + tail)
  {
    var r := [head] + tail;
    forall i, j | 0 <= i < j < |r|
      ensures Precedes(option, r[i], r[j])
    {
      assert r[j] == tail[j - 1];
      if i > 0 {
        assert r[i] == tail[i - 1];
      }
    }
  }

  /** `.sort(sortOption)`: the posts in the order the option asks for, each
      kept as often as it occurs. Equal keys keep collection order. */
  function Sort(option: SortOption, s: seq<Post>): (r: seq<Post>)
    ensures Ordered(option, r)
    ensures multiset(r) == multiset(s)
    decreases |s|
  {
    if s == [] then []
    else
      assert s == [s[0]] + s[1..];
      Insert(option, s[0], Sort(option, s[1..]))
  }

  // ------------------------------------------------------------ pagination

  /** `Math.ceil(total / limit)` for a positive `limit`, counted one page
      of `limit` posts at a time. */
  function TotalPages(total: nat, limit: nat): nat
    requires limit >= 1
    decreases total
  {
    if total == 0 then 0 else 1 + TotalPages(if total <= limit then 0 else total - limit, limit)
  }

  /** `TotalPages` is `Math.ceil(total / limit)`: the fewest pages of
      `limit` posts that hold `total` posts. */
  lemma {:induction false} TotalPagesIsCeiling(total: nat, limit: nat)
    requires limit >= 1
    ensures TotalPages(total, limit) * limit >= total
    ensures TotalPages(total, limit) == 0 || (TotalPages(total, limit) - 1) * limit < total
    decreases total
  {
    var pages := TotalPages(total, limit);
    if total > limit {
      TotalPagesIsCeiling(total - limit, limit);
      assert pages * limit == (pages - 1) * limit + limit;
      assert (pages - 1) * limit == (pages - 2) * limit + limit;
    }
  }

  /** `.skip(skip).limit(limit)`: at most `limit` posts, from position
      `skip` on, and none when `skip` is past the end. */
  function PageOf(s: seq<Post>, skip: nat, limit: nat): (r: seq<Post>)
    ensures |r| <= limit
    ensures skip >= |s| ==> r == []
    ensures skip < |s| ==> |r| == (if skip + limit <= |s| then limit else |s| - skip)
    ensures forall k :: 0 <= k < |r| ==> r[k] == s[skip + k]
  {
    if skip >= |s| then []
    else if skip + limit <= |s| then s[skip..skip + limit]
    else s[skip..]
  }

  /** `(page - 1) * limit`. */
  function Skip(page: nat, limit: nat): nat
    requires page >= 1
  {
    (page - 1) * limit
  }

  // ---------------------------------------------------------------- handler

  /** `req.query` with its defaults `board = 'best'`, `page = 1`,
      `limit = 30`, `sort = 'latest'`. */
  datatype Query = Query(board: Option<string>, page: Option<nat>, limit: Option<nat>, sort: Option<string>)

  const DefaultLimit: nat := 30

  predicate WellFormed(q: Query) {
    (q.page.Some? ==> q.page.value >= 1) && (q.limit.Some? ==> q.limit.value >= 1)
  }

  datatype Pagination = Pagination(currentPage: nat, totalPages: nat, totalPosts: nat, hasNext: bool, hasPrev: bool)

  datatype Page = Page(posts: seq<Post>, pagination: Pagination)

  function BoardOf(q: Query): string { q.board.GetOr("best") }
  function PageNumber(q: Query): nat { q.page.GetOr(1) }
  function PageSize(q: Query): nat { q.limit.GetOr(DefaultLimit) }
  function OptionOf(q: Query): SortOption { SortOptionOf(q.sort.GetOr("latest")) }

  /** The posts the query can list at all, in the order it lists them. */
  function Ranking(posts: seq<Post>, q: Query): (r: seq<Post>)
    ensures Ordered(OptionOf(q), r)
    ensures multiset(r) == multiset(Select(posts, BoardOf(q)))
    ensures forall p :: multiset(r)[p] == if Selected(BoardOf(q), p) then multiset(posts)[p] else 0
    ensures |r| == |Select(posts, BoardOf(q))|
  {
    var r := Sort(OptionOf(q), Select(posts, BoardOf(q)));
    assert |r| == |multiset(r)|;
    r
  }

  /** One page of an already ranked run: `.skip(skip).limit(limit)` and the
      pagination summary, with the whole run as the count. */
  function Paginate(ranked: seq<Post>, page: nat, limit: nat): (r: Page)
    requires page >= 1 && limit >= 1
    ensures r.pagination.currentPage == page && r.pagination.totalPosts == |ranked|
    ensures r.pagination.totalPages == TotalPages(|ranked|, limit)
    ensures r.pagination.hasNext <==> page < r.pagination.totalPages
    ensures r.pagination.hasPrev <==> page > 1
    ensures |r.posts| <= limit
    ensures Skip(page, limit) >= |ranked| ==> r.posts == []
    ensures Skip(page, limit) < |ranked| ==>
              && |r.posts| == (if Skip(page, limit) + limit <= |ranked| then limit else |ranked| - Skip(page, limit))
              && r.posts == ranked[Skip(page, limit)..Skip(page, limit) + |r.posts|]
  {
    PageOfIsSlice(ranked, Skip(page, limit), limit);
    var pages := TotalPages(|ranked|, limit);
    Page(PageOf(ranked, Skip(page, limit), limit), Pagination(page, pages, |ranked|, page < pages, page > 1))
  }

  /** The `GET /api/posts` handler: `countDocuments(query)` counts the
      selected posts. */
  function ListPosts(posts: seq<Post>, q: Query): (r: Page)
    requires WellFormed(q)
    ensures r.pagination.currentPage == PageNumber(q)
    ensures r.pagination.totalPosts == |Select(posts, BoardOf(q))|
    ensures r.pagination.totalPages == TotalPages(r.pagination.totalPosts, PageSize(q))
    ensures r.pagination.hasNext <==> PageNumber(q) < r.pagination.totalPages
    ensures r.pagination.hasPrev <==> PageNumber(q) > 1
    ensures |r.posts| <= PageSize(q)
  {
    Paginate(Ranking(posts, q), PageNumber(q), PageSize(q))
  }

  /** Every post the query ranks is selected by it. */
  lemma RankingSelected(posts: seq<Post>, q: Query)
    ensures forall k :: 0 <= k < |Ranking(posts, q)| ==> Selected(BoardOf(q), Ranking(posts, q)[k])
  {
    var ranked := Ranking(posts, q);
    var selected := Select(posts, BoardOf(q));
    forall k | 0 <= k < |ranked|
      ensures Selected(BoardOf(q), ranked[k])
    {
      assert ranked[k] in multiset(ranked);
      assert ranked[k] in multiset(selected);
      var i :| 0 <= i < |selected| && selected[i] == ranked[k];
    }
  }

  /** A page cut from an ordered run of selected posts is itself ordered
      and selected. */
  lemma {:induction false} PageKeepsOrder(s: seq<Post>, skip: nat, limit: nat, option: SortOption, board: string)
    requires Ordered(option, s)
    requires forall k :: 0 <= k < |s| ==> Selected(board, s[k])
    ensures var r := PageOf(s, skip, limit);
            Ordered(option, r) && forall k :: 0 <= k < |r| ==> Selected(board, r[k])
  {
    var r := PageOf(s, skip, limit);
    forall i, j | 0 <= i < j < |r|
      ensures Precedes(option, r[i], r[j])
    {
      assert r[i] == s[skip + i] && r[j] == s[skip + j];
    }
    forall k | 0 <= k < |r|
      ensures Selected(board, r[k])
    {
      assert r[k] == s[skip + k];
    }
  }

  /** Every listed post is published and on the requested board (any board
      for `'best'`), and the page is in sort order. */
  lemma {:induction false} ListedPostsSelectedAndOrdered(posts: seq<Post>, q: Query)
    requires WellFormed(q)
    ensures var r := ListPosts(posts, q);
            && (forall k :: 0 <= k < |r.posts| ==> r.posts[k].status == Published)
            && (BoardOf(q) != "best" ==> forall k :: 0 <= k < |r.posts| ==> r.posts[k].board == BoardOf(q))
            && Ordered(OptionOf(q), r.posts)
  {
    RankingSelected(posts, q);
    PageKeepsOrder(Ranking(posts, q), Skip(PageNumber(q), PageSize(q)), PageSize(q), OptionOf(q), BoardOf(q));
  }

  /** Each page is the run of the ranking that starts after the earlier
      pages, as long as the ranking allows, and the total counts the
      whole ranking. */
  lemma ListedPageIsSliceOfRanking(posts: seq<Post>, q: Query)
    requires WellFormed(q)
    ensures var r := ListPosts(posts, q);
            var skip := Skip(PageNumber(q), PageSize(q));
            && r.pagination.totalPosts == |Ranking(posts, q)|
            && (skip < |Ranking(posts, q)| ==> r.posts == Ranking(posts, q)[skip..skip + |r.posts|])
            && (skip < |Ranking(posts, q)| ==>
                  |r.posts| == if skip + PageSize(q) <= |Ranking(posts, q)| then PageSize(q)
                               else |Ranking(posts, q)| - skip)
  {
  }

  /** Every listed post is one of the stored posts. */
  lemma ListedPostsAreStored(posts: seq<Post>, q: Query)
    requires WellFormed(q)
    ensures forall k :: 0 <= k < |ListPosts(posts, q).posts| ==> ListPosts(posts, q).posts[k] in posts
  {
    var r := ListPosts(posts, q);
    var ranked := Ranking(posts, q);
    forall k | 0 <= k < |r.posts|
      ensures r.posts[k] in posts
    {
      var p := r.posts[k];
      assert p == ranked[Skip(PageNumber(q), PageSize(q)) + k];
      assert p in multiset(ranked);
    }
  }

  /** A published post appended to the collection is ranked by its own
      board and by `'best'`; appended to an empty collection, it is all
      that the first page lists. */
  lemma {:induction false} AppendedPostIsListed(posts: seq<Post>, p: Post, q: Query)
    requires p.status == Published && (BoardOf(q) == "best" || BoardOf(q) == p.board)
    ensures p in multiset(Ranking(posts + [p], q))
    ensures posts == [] && WellFormed(q) && PageNumber(q) == 1 ==> ListPosts(posts + [p], q).posts == [p]
  {
    var ranked := Ranking(posts + [p], q);
    assert Selected(BoardOf(q), p);
    assert p in multiset(posts + [p]);
    if posts == [] && WellFormed(q) && PageNumber(q) == 1 {
      assert posts + [p] == [p];
      assert multiset(ranked) == multiset{p};
      assert |ranked| == 1;
      assert ranked[0] in multiset(ranked);
      assert ranked == [p];
      assert Skip(1, PageSize(q)) == 0;
    }
  }

  lemma PageOfIsSlice(s: seq<Post>, skip: nat, limit: nat)
    ensures skip < |s| ==> PageOf(s, skip, limit) == s[skip..skip + |PageOf(s, skip, limit)|]
  {
  }

  lemma {:induction false} MulMonotone(a: int, b: int, c: nat)
    requires a <= b
    ensures a * c <= b * c
  {
    assert b * c - a * c == (b - a) * c;
  }

  /** The page arithmetic: page `page` has a successor exactly when
      `page * limit` posts do not exhaust the total, and it starts past the
      end exactly when it lies past the last page. */
  lemma {:induction false} PageArithmetic(total: nat, page: nat, limit: nat)
    requires page >= 1 && limit >= 1
    ensures page < TotalPages(total, limit) <==> page * limit < total
    ensures Skip(page, limit) >= total <==> page > TotalPages(total, limit)
  {
    var pages := TotalPages(total, limit);
    TotalPagesIsCeiling(total, limit);
    if page < pages {
      MulMonotone(page, pages - 1, limit);
    } else {
      MulMonotone(pages, page, limit);
    }
    if page > pages {
      MulMonotone(pages, page - 1, limit);
    } else {
      MulMonotone(page - 1, pages - 1, limit);
    }
  }

  /** The pagination flags: there is a next page exactly when posts remain
      after this one, a previous page exactly when this is not the first,
      and the page is empty exactly when it lies past the last page. */
  lemma {:induction false} PaginationFlags(posts: seq<Post>, q: Query)
    requires WellFormed(q)
    ensures var r := ListPosts(posts, q);
            var page, limit := PageNumber(q), PageSize(q);
            && (r.pagination.hasNext <==> page * limit < r.pagination.totalPosts)
            && (r.pagination.hasPrev <==> page > 1)
            && (r.posts == [] <==> page > r.pagination.totalPages)
  {
    PageArithmetic(|Ranking(posts, q)|, PageNumber(q), PageSize(q));
  }

  /** The reported page count is the fewest pages of the page size that
      hold all selected posts. */
  lemma ListedTotalPagesIsCeiling(posts: seq<Post>, q: Query)
    requires WellFormed(q)
    ensures var p := ListPosts(posts, q).pagination;
            && p.totalPages * PageSize(q) >= p.totalPosts
            && (p.totalPages == 0 || (p.totalPages - 1) * PageSize(q) < p.totalPosts)
  {
    var p := ListPosts(posts, q).pagination;
    var total, limit := p.totalPosts, PageSize(q);
    assert p.totalPages == TotalPages(total, limit);
    TotalPagesIsCeiling(total, limit);
  }

  /** Asking for page 3 when the posts fill two pages gives no posts, no
      next page, a previous page, and two pages in all. */
  lemma {:induction false} PageBeyondLast(posts: seq<Post>, q: Query)
    requires WellFormed(q) && PageNumber(q) == 3
    requires TotalPages(|Select(posts, BoardOf(q))|, PageSize(q)) == 2
    ensures var r := ListPosts(posts, q);
            && r.posts == [] && !r.pagination.hasNext && r.pagination.hasPrev && r.pagination.totalPages == 2
  {
    PaginationFlags(posts, q);
  }
}
