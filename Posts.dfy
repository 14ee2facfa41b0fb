/** Post creation behind `POST /api/posts`: required fields, tag parsing,
    the attachment records built from the uploaded files, and the schema
    defaults of a new post. */
module Posts {
  import opened Schema
  import Text
  import Listing

  datatype PostForm = PostForm(
    title: Option<string>,
    content: Option<string>,
    board: Option<string>,
    category: Option<string>,
    tags: Option<string>)

  /** What the upload middleware reports for one stored file. */
  datatype UploadedFile = UploadedFile(filename: string, originalName: string, mimeType: string, size: nat)

  /** A tag piece of `tags.split(',')` after `trim()`. */
  predicate IsTag(t: string) {
    ',' !in t && (t == [] || (!Text.IsWhiteSpace(t[0]) && !Text.IsWhiteSpace(t[|t| - 1])))
  }

  /** `tags ? tags.split(',').map(tag => tag.trim()) : []`: one tag per
      comma-separated piece, trimmed. */
  function ParseTags(tags: Option<string>): (r: seq<string>)
    ensures Missing(tags) ==> r == []
    ensures !Missing(tags) ==> |r| == Text.Count(tags.value, ',') + 1
    ensures forall k :: 0 <= k < |r| ==> IsTag(r[k])
    ensures !Missing(tags) ==> forall k :: 0 <= k < |r| ==> Text.PadsTo(Text.Split(tags.value, ',')[k], r[k])
  {
    if Missing(tags) then []
    else
      var pieces := Text.Split(tags.value, ',');
      Text.SplitPieces(tags.value, ',');
      var r := seq(|pieces|, k requires 0 <= k < |pieces| => Text.Trim(pieces[k]));
      TrimmedPieces(pieces, r);
      r
  }

  /** Trimming comma-free pieces gives tags, each with white space around
      it in its piece. */
  lemma TrimmedPieces(pieces: seq<string>, r: seq<string>)
    requires forall k :: 0 <= k < |pieces| ==> ',' !in pieces[k]
    requires |r| == |pieces| && forall k :: 0 <= k < |r| ==> r[k] == Text.Trim(pieces[k])
    ensures forall k :: 0 <= k < |r| ==> IsTag(r[k])
    ensures forall k :: 0 <= k < |r| ==> Text.PadsTo(pieces[k], r[k])
  {
    forall k | 0 <= k < |r|
      ensures IsTag(r[k])
      ensures Text.PadsTo(pieces[k], r[k])
    {
      var i, j :| 0 <= i <= j <= |pieces[k]| && r[k] == pieces[k][i..j];
      assert forall c :: c in r[k] ==> c in pieces[k];
      Text.TrimMargins(pieces[k]);
    }
  }

  /** Each tag is exactly the trimmed comma-separated piece at its position. */
  lemma ParseTagsPieces(tags: string)
    requires tags != ""
    ensures var r := ParseTags(Some(tags));
            forall k :: 0 <= k < |r| ==> r[k] == Text.Trim(Text.Split(tags, ',')[k])
  {
    var r := ParseTags(Some(tags));
    forall k | 0 <= k < |r|
      ensures r[k] == Text.Trim(Text.Split(tags, ',')[k])
    {
      Text.PaddedTrim(Text.Split(tags, ',')[k], r[k]);
    }
  }

  /** White space around the commas is dropped: comma-separated pieces
      that are tags padded with white space parse to those tags. */
  lemma {:induction false} ParseTagsPadded(pieces: seq<string>, tags: seq<string>)
    requires |tags| >= 1 && |pieces| == |tags|
    requires forall k :: 0 <= k < |pieces| ==> ',' !in pieces[k]
    requires forall k :: 0 <= k < |tags| ==> IsTag(tags[k]) && Text.PadsTo(pieces[k], tags[k])
    requires Text.Join(pieces, ',') != ""
    ensures ParseTags(Some(Text.Join(pieces, ','))) == tags
  {
    var joined := Text.Join(pieces, ',');
    Text.SplitJoin(pieces, ',');
    ParseTagsPieces(joined);
    var r := ParseTags(Some(joined));
    forall k | 0 <= k < |tags|
      ensures r[k] == tags[k]
    {
      Text.PaddedTrim(pieces[k], tags[k]);
    }
  }

  /** Parsing the comma-joined form of a nonempty list of tags gives the
      list back. */
  lemma {:induction false} ParseTagsJoin(tags: seq<string>)
    requires |tags| >= 1 && forall k :: 0 <= k < |tags| ==> IsTag(tags[k])
    requires Text.Join(tags, ',') != ""
    ensures ParseTags(Some(Text.Join(tags, ','))) == tags
  {
    forall k | 0 <= k < |tags|
      ensures ',' !in tags[k] && Text.PadsTo(tags[k], tags[k])
    {
      assert Text.AllWhiteSpace([]);
      assert tags[k] == [] + tags[k] + [];
    }
    ParseTagsPadded(tags, tags);
  }

  /** `req.files.map(file => ({ ... url: '/uploads/' + filename }))`, or no
      attachments when there are no files. */
  function Attachments(files: Option<seq<UploadedFile>>): (r: seq<Attachment>)
    ensures files.None? ==> r == []
    ensures files.Some? ==> |r| == |files.value|
    ensures files.Some? ==> forall k :: 0 <= k < |r| ==>
              var f := files.value[k];
              && r[k].filename == f.filename && r[k].originalName == f.originalName
              && r[k].mimeType == f.mimeType && r[k].size == f.size
              && r[k].url == "/uploads/" + f.filename
  {
    match files
    case None => []
    case Some(fs) =>
      seq(|fs|, k requires 0 <= k < |fs| =>
        Attachment(fs[k].filename, fs[k].originalName, fs[k].mimeType, fs[k].size, "/uploads/" + fs[k].filename))
  }

  datatype Creation = Created(postId: PostId, post: Post) | CreateRejected(status: int)

  datatype Step = Step(out: Creation, posts: seq<Post>)

  predicate FormIncomplete(form: PostForm) {
    Missing(form.title) || Missing(form.content) || Missing(form.board)
  }

  /** The creation handler for the authenticated user `author`: 400 for a
      missing title, content or board; 500 when the schema's title length
      limit makes the save fail; otherwise one new post. */
  function CreatePost(posts: seq<Post>, author: UserId, form: PostForm,
                      files: Option<seq<UploadedFile>>, now: Time): (r: Step)
    ensures r.out.CreateRejected? ==> r.posts == posts
    ensures r.out == CreateRejected(400) <==> FormIncomplete(form)
    ensures r.out == CreateRejected(500) <==> !FormIncomplete(form) && |form.title.value| > TitleMaxLength
    ensures r.out.Created? ==>
              var p := r.out.post;
              && r.out.postId == |posts| && r.posts == posts + [p]
              && p.author == author
              && p.title == form.title.value && p.content == form.content.value && p.board == form.board.value
              && p.category == (if Missing(form.category) then DefaultCategory else form.category.value)
              && p.tags == ParseTags(form.tags) && p.attachments == Attachments(files)
              && p.status == Published && !p.isPinned && !p.isNotice
              && p.stats == PostStats(0, 0, 0, 0) && p.createdAt == now
  {
    if FormIncomplete(form) then Step(CreateRejected(400), posts)
    else if |form.title.value| > TitleMaxLength then Step(CreateRejected(500), posts)
    else
      var category := if Missing(form.category) then DefaultCategory else form.category.value;
      var post := NewPost(form.title.value, form.content.value, author, form.board.value, category,
                          ParseTags(form.tags), Attachments(files), now);
      Step(Created(|posts|, post), posts + [post])
  }

  /** A created post is listed on its board and under `'best'`; on an empty
      forum, the default listing shows it alone. */
  lemma {:induction false} CreatedPostIsListed(posts: seq<Post>, author: UserId, form: PostForm,
                                               files: Option<seq<UploadedFile>>, now: Time, q: Listing.Query)
    requires CreatePost(posts, author, form, files, now).out.Created?
    requires Listing.BoardOf(q) == "best" || Listing.BoardOf(q) == form.board.value
    ensures var r := CreatePost(posts, author, form, files, now);
            r.out.post in multiset(Listing.Ranking(r.posts, q))
    ensures var r := CreatePost(posts, author, form, files, now);
            posts == [] && Listing.WellFormed(q) && Listing.PageNumber(q) == 1 ==>
              Listing.ListPosts(r.posts, q).posts == [r.out.post]
  {
    var r := CreatePost(posts, author, form, files, now);
    Listing.AppendedPostIsListed(posts, r.out.post, q);
  }
}
