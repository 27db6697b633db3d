/** The comment routes: the thread assembler behind `GET /comments`, comment
    and reply creation, and the signed vote ledger of `POST /comments/:id/vote`. */
module Comments {
  import opened Wrappers
  import opened Ledger
  import opened Store
  import Text

  // ---------- Thread assembler ----------

  /** A node of the assembled thread: the comment and the ids of its replies.
      Nodes refer to their replies by id, so a node reached from two places is
      one node, as the shared objects of the handler are. */
  datatype CommentNode = CommentNode(comment: Comment, replies: seq<Id>)

  predicate IsRoot(c: Comment) {
    c.parentComment.None?
  }

  /** Which comments a list of the thread holds: the roots, or the direct
      replies to one comment. */
  datatype Place = Roots | RepliesOf(parent: Id)

  predicate Belongs(place: Place, c: Comment) {
    match place
    case Roots => IsRoot(c)
    case RepliesOf(p) => c.parentComment == Some(p)
  }

  /** The ids of the comments that belong to `place`, in input order. */
  function IdsAt(cs: seq<Comment>, place: Place): seq<Id> {
    if cs == [] then []
    else IdsAt(cs[..|cs| - 1], place) + (if Belongs(place, cs[|cs| - 1]) then [cs[|cs| - 1].id] else [])
  }

  /** The ids of the parentless comments, in input order. */
  function RootIds(cs: seq<Comment>): seq<Id> {
    IdsAt(cs, Roots)
  }

  /** The ids of the direct replies to comment `p`, in input order. */
  function ReplyIds(cs: seq<Comment>, p: Id): seq<Id> {
    IdsAt(cs, RepliesOf(p))
  }

  function IdSet(cs: seq<Comment>): set<Id> {
    set c | c in cs :: c.id
  }

  /** `buildCommentTree`: every comment becomes a node with no replies, keyed by
      id; then, in input order, a parentless comment is appended to the roots, a
      reply is appended to its parent's replies, and a reply whose parent is not
      among the input is dropped. */
  method BuildCommentTree(cs: seq<Comment>) returns (roots: seq<Id>, byId: map<Id, CommentNode>)
    requires UniqueIds(cs, CommentId)
    ensures byId.Keys == IdSet(cs)
    ensures forall j :: 0 <= j < |cs| ==> byId[cs[j].id].comment == cs[j]
    ensures roots == RootIds(cs)
    ensures forall p :: p in byId ==> byId[p].replies == ReplyIds(cs, p)
  {
    byId := IndexComments(cs);
    roots := [];
    var i := 0;
    while i < |cs|
      invariant 0 <= i <= |cs|
      invariant byId.Keys == IdSet(cs)
      invariant forall j :: 0 <= j < |cs| ==> byId[cs[j].id].comment == cs[j]
      invariant roots == RootIds(cs[..i])
      invariant forall p :: p in byId ==> byId[p].replies == ReplyIds(cs[..i], p)
    {
      var c := cs[i];
      IdsAtSnoc(cs, i, Roots);
      if c.parentComment.Some? {
        var parentId := c.parentComment.value;
        if parentId in byId {
          LinkReply(cs, i, byId);
          byId := byId[parentId := byId[parentId].(replies := byId[parentId].replies + [c.id])];
        } else {
          SkipReply(cs, i, byId);
        }
      } else {
        SkipReply(cs, i, byId);
        roots := roots + [c.id];
      }
      i := i + 1;
    }
    FinishTree(cs, i, byId, roots);
  }

  /** The first pass of `buildCommentTree`: every comment becomes a node with
      an empty reply list, keyed by its id. */
  method IndexComments(cs: seq<Comment>) returns (byId: map<Id, CommentNode>)
    requires UniqueIds(cs, CommentId)
    ensures byId.Keys == IdSet(cs)
    ensures forall j :: 0 <= j < |cs| ==> byId[cs[j].id] == CommentNode(cs[j], [])
    ensures forall j :: 0 <= j < |cs| ==> byId[cs[j].id].comment == cs[j]
    ensures RootIds(cs[..0]) == []
    ensures forall p :: p in byId ==> byId[p].replies == ReplyIds(cs[..0], p)
  {
    byId := map[];
    var i := 0;
    while i < |cs|
      invariant 0 <= i <= |cs|
      invariant byId.Keys == IdSet(cs[..i])
      invariant forall j :: 0 <= j < i ==> byId[cs[j].id] == CommentNode(cs[j], [])
    {
      IdSetSnoc(cs, i);
      byId := byId[cs[i].id := CommentNode(cs[i], [])];
      i := i + 1;
    }
    assert cs[..|cs|] == cs;
    assert cs[..0] == [];
    forall p | p in byId
      ensures byId[p].replies == ReplyIds(cs[..0], p)
    {
      var j :| 0 <= j < |cs| && cs[j].id == p;
    }
  }

  /** One step of the second pass for a reply whose parent is present: the
      parent's list gains the reply, every other list covers one more comment
      unchanged, and the nodes keep their comments. */
  lemma LinkReply(cs: seq<Comment>, i: nat, byId: map<Id, CommentNode>)
    requires i < |cs| && cs[i].parentComment.Some? && cs[i].parentComment.value in byId
    requires byId.Keys == IdSet(cs)
    requires forall j :: 0 <= j < |cs| ==> byId[cs[j].id].comment == cs[j]
    requires forall p :: p in byId ==> byId[p].replies == ReplyIds(cs[..i], p)
    ensures var q := cs[i].parentComment.value;
            var after := byId[q := byId[q].(replies := byId[q].replies + [cs[i].id])];
            && after.Keys == IdSet(cs)
            && (forall j :: 0 <= j < |cs| ==> after[cs[j].id].comment == cs[j])
            && (forall p :: p in after ==> after[p].replies == ReplyIds(cs[..i + 1], p))
  {
    var q := cs[i].parentComment.value;
    var after := byId[q := byId[q].(replies := byId[q].replies + [cs[i].id])];
    forall p | p in after
      ensures after[p].replies == ReplyIds(cs[..i + 1], p)
    {
      IdsAtSnoc(cs, i, RepliesOf(p));
    }
  }

  /** One step of the second pass for a root or an orphaned reply: no reply
      list changes, and each already covers one more comment. */
  lemma SkipReply(cs: seq<Comment>, i: nat, byId: map<Id, CommentNode>)
    requires i < |cs| && (cs[i].parentComment.None? || cs[i].parentComment.value !in byId)
    requires forall p :: p in byId ==> byId[p].replies == ReplyIds(cs[..i], p)
    ensures forall p :: p in byId ==> byId[p].replies == ReplyIds(cs[..i + 1], p)
  {
    forall p | p in byId
      ensures byId[p].replies == ReplyIds(cs[..i + 1], p)
    {
      IdsAtSnoc(cs, i, RepliesOf(p));
    }
  }

  /** After the last comment, the prefix covered is the whole input. */
  lemma FinishTree(cs: seq<Comment>, n: nat, byId: map<Id, CommentNode>, roots: seq<Id>)
    requires n == |cs|
    requires roots == RootIds(cs[..n])
    requires forall p :: p in byId ==> byId[p].replies == ReplyIds(cs[..n], p)
    ensures roots == RootIds(cs)
    ensures forall p :: p in byId ==> byId[p].replies == ReplyIds(cs, p)
  {
    assert cs[..n] == cs;
  }

  lemma IdSetSnoc(cs: seq<Comment>, i: nat)
    requires i < |cs|
    ensures IdSet(cs[..i + 1]) == IdSet(cs[..i]) + {cs[i].id}
  {
    assert cs[..i + 1] == cs[..i] + [cs[i]];
  }

  lemma IdsAtSnoc(cs: seq<Comment>, i: nat, place: Place)
    requires i < |cs|
    ensures IdsAt(cs[..i + 1], place) == IdsAt(cs[..i], place) + (if Belongs(place, cs[i]) then [cs[i].id] else [])
  {
    assert cs[..i + 1][..i] == cs[..i];
  }

  /** Selection distributes over concatenation: the selected ids of a longer
      input extend those of its prefix, so input order is kept. */
  lemma {:induction false} IdsAtAppend(a: seq<Comment>, b: seq<Comment>, place: Place)
    ensures IdsAt(a + b, place) == IdsAt(a, place) + IdsAt(b, place)
    decreases |b|
  {
    if b == [] {
      assert a + b == a;
    } else {
      var b' := b[..|b| - 1];
      assert (a + b)[..|a + b| - 1] == a + b';
      IdsAtAppend(a, b', place);
    }
  }

  /** In an input with unique ids, a selected id occurs exactly once and an
      unselected one not at all. */
  lemma {:induction false} IdsAtMultiplicity(cs: seq<Comment>, place: Place, id: Id)
    requires UniqueIds(cs, CommentId)
    ensures multiset(IdsAt(cs, place))[id] == if exists i :: 0 <= i < |cs| && cs[i].id == id && Belongs(place, cs[i]) then 1 else 0
  {
    if cs != [] {
      var init := cs[..|cs| - 1];
      var last := cs[|cs| - 1];
      IdsAtMultiplicity(init, place, id);
      assert forall i :: 0 <= i < |init| ==> init[i] == cs[i];
      if last.id == id {
        assert forall i :: 0 <= i < |init| ==> init[i].id != id;
      }
    }
  }

  /** What `buildCommentTree` promises about each input comment: a root occurs
      once among the roots and in no reply list; a reply whose parent is present
      occurs once, in its parent's replies only; a reply whose parent is absent
      occurs nowhere. */
  lemma TreePlacesEachCommentOnce(cs: seq<Comment>, i: nat)
    requires UniqueIds(cs, CommentId) && i < |cs|
    ensures var c := cs[i];
            && (IsRoot(c) ==>
                  multiset(RootIds(cs))[c.id] == 1 && forall p :: c.id !in ReplyIds(cs, p))
            && (!IsRoot(c) && c.parentComment.value in IdSet(cs) ==>
                  && c.id !in RootIds(cs)
                  && multiset(ReplyIds(cs, c.parentComment.value))[c.id] == 1
                  && forall p :: p != c.parentComment.value ==> c.id !in ReplyIds(cs, p))
            && (!IsRoot(c) && c.parentComment.value !in IdSet(cs) ==>
                  c.id !in RootIds(cs) && forall p :: p in IdSet(cs) ==> c.id !in ReplyIds(cs, p))
  {
    var c := cs[i];
    IdsAtMultiplicity(cs, Roots, c.id);
    forall p
      ensures multiset(ReplyIds(cs, p))[c.id] == if Belongs(RepliesOf(p), c) then 1 else 0
    {
      IdsAtMultiplicity(cs, RepliesOf(p), c.id);
    }
  }

  /** Nothing is invented: every id in the roots or in a reply list is the id
      of an input comment that is, respectively, parentless or that parent's reply. */
  lemma {:induction false} IdsAtSound(cs: seq<Comment>, place: Place, id: Id)
    requires id in IdsAt(cs, place)
    ensures exists i :: 0 <= i < |cs| && cs[i].id == id && Belongs(place, cs[i])
  {
    var init := cs[..|cs| - 1];
    if id in IdsAt(init, place) {
      IdsAtSound(init, place, id);
      var i :| 0 <= i < |init| && init[i].id == id && Belongs(place, init[i]);
      assert cs[i] == init[i];
    } else {
      assert cs[|cs| - 1].id == id && Belongs(place, cs[|cs| - 1]);
    }
  }

  // ---------- Listing the comments of a post or essay ----------

  /** `if (x) ...`: a request parameter counts only when present and non-empty. */
  predicate Truthy(o: Option<string>) {
    o.Some? && o.value != ""
  }

  /** `x || null`. */
  function OrNull(o: Option<string>): (r: Option<Id>)
    ensures r.Some? <==> Truthy(o)
    ensures r.Some? ==> r == o
  {
    if Truthy(o) then o else None
  }

  /** The query of `GET /comments`: a filter on `postId` and/or `essayId`, each
      applied only when given. */
  predicate InQuery(postQ: Option<string>, essayQ: Option<string>, c: Comment) {
    (Truthy(postQ) ==> c.postId == Some(postQ.value)) && (Truthy(essayQ) ==> c.essayId == Some(essayQ.value))
  }

  function SelectComments(cs: seq<Comment>, postQ: Option<string>, essayQ: Option<string>): (r: seq<Comment>)
    ensures forall c :: c in r <==> c in cs && InQuery(postQ, essayQ, c)
    ensures UniqueIds(cs, CommentId) ==> UniqueIds(r, CommentId)
  {
    if cs == [] then []
    else
      var rest := SelectComments(cs[1..], postQ, essayQ);
      if InQuery(postQ, essayQ, cs[0]) then
        assert forall j :: 0 <= j < |rest| ==> rest[j] in cs[1..];
        [cs[0]] + rest
      else rest
  }

  /** The query keeps creation order: selecting from two runs of comments
      gives the selection from the first run, then that from the second. */
  lemma {:induction false} SelectCommentsAppend(a: seq<Comment>, b: seq<Comment>, postQ: Option<string>, essayQ: Option<string>)
    ensures SelectComments(a + b, postQ, essayQ) == SelectComments(a, postQ, essayQ) + SelectComments(b, postQ, essayQ)
  {
    if a == [] {
      assert a + b == b;
    } else {
      assert (a + b)[0] == a[0];
      assert (a + b)[1..] == a[1..] + b;
      SelectCommentsAppend(a[1..], b, postQ, essayQ);
    }
  }

  /** A single comment is selected exactly when it matches the query. */
  lemma SelectCommentsOne(c: Comment, postQ: Option<string>, essayQ: Option<string>)
    ensures SelectComments([c], postQ, essayQ) == if InQuery(postQ, essayQ, c) then [c] else []
  {
    assert [c][1..] == [];
  }

  /** `GET /comments`: the comments of the queried item, in creation order
      (the order of the collection), assembled into a thread. */
  method ListComments(db: Db, postQ: Option<string>, essayQ: Option<string>) returns (roots: seq<Id>, byId: map<Id, CommentNode>)
    requires db.Valid()
    ensures var cs := SelectComments(db.tables.comments, postQ, essayQ);
            && byId.Keys == IdSet(cs)
            && (forall j :: 0 <= j < |cs| ==> byId[cs[j].id].comment == cs[j])
            && roots == RootIds(cs)
            && (forall p :: p in byId ==> byId[p].replies == ReplyIds(cs, p))
            && (forall p :: p in byId ==> byId[p].comment in db.tables.comments && InQuery(postQ, essayQ, byId[p].comment))
  {
    var cs := SelectComments(db.tables.comments, postQ, essayQ);
    roots, byId := BuildCommentTree(cs);
  }

  // ---------- Creating a comment or reply ----------

  /** `POST /comments`: 400 when the content is missing or empty or neither a
      post nor an essay is named; 500 when the content is blank, since the
      schema trims it and then requires it; otherwise the comment with its
      trimmed content, the given references or null, and no votes. */
  function NewComment(newId: Id, author: Id, content: Option<string>, postId: Option<string>,
                      essayId: Option<string>, parent: Option<string>): (r: Result<Comment, Status>)
    ensures r == Failure(BadRequest) <==> !Truthy(content) || (!Truthy(postId) && !Truthy(essayId))
    ensures r == Failure(ServerError) <==>
              Truthy(content) && (Truthy(postId) || Truthy(essayId)) && Text.AllSpace(content.value)
    ensures r.Success? ==>
              && r.value.id == newId && r.value.author == author && r.value.votes == 0
              && r.value.content == Text.Trim(content.value)
              && r.value.content != [] && Text.IsTrimmed(r.value.content)
              && r.value.postId == OrNull(postId) && r.value.essayId == OrNull(essayId)
              && r.value.parentComment == OrNull(parent)
              && (r.value.postId.Some? || r.value.essayId.Some?)
  {
    if !Truthy(content) || (!Truthy(postId) && !Truthy(essayId)) then Failure(BadRequest)
    else
      var stored := Text.Trim(content.value);
      Text.TrimEmptyIffBlank(content.value);
      Text.TrimIsTrimmed(content.value);
      if stored == [] then Failure(ServerError)
      else Success(Comment(newId, stored, author, OrNull(postId), OrNull(essayId), OrNull(parent), 0))
  }

  /** `findByIdAndUpdate(id, { $inc: { commentCount: 1 } })`: the item with
      that id, if any, gains one comment; an unknown id changes nothing. */
  function CountComment(items: seq<ContentItem>, id: Id): (items': seq<ContentItem>)
    ensures |items'| == |items|
    ensures UniqueIds(items, ItemId) ==> forall j :: 0 <= j < |items| ==>
              items'[j] == if items[j].id == id then items[j].(commentCount := items[j].commentCount + 1) else items[j]
  {
    var found := IndexOf(items, ItemId, id);
    if found.None? then items
    else
      var i := found.value;
      items[i := items[i].(commentCount := items[i].commentCount + 1)]
  }

  /** Counting a comment touches no id and no reaction counter, so the
      collection's unique index and reaction histograms still hold. */
  lemma CountCommentKeepsTallies(items: seq<ContentItem>, id: Id, rows: map<RowKey, Reaction>)
    requires UniqueIds(items, ItemId) && ReactionsTallied(items, rows)
    ensures UniqueIds(CountComment(items, id), ItemId) && ReactionsTallied(CountComment(items, id), rows)
  {
  }

  /** The `commentCount` bump of one optional reference: only when given. */
  function CountIf(items: seq<ContentItem>, ref: Option<Id>): seq<ContentItem> {
    if ref.Some? then CountComment(items, ref.value) else items
  }

  lemma CountIfKeepsTallies(items: seq<ContentItem>, ref: Option<Id>, rows: map<RowKey, Reaction>)
    requires UniqueIds(items, ItemId) && ReactionsTallied(items, rows)
    ensures UniqueIds(CountIf(items, ref), ItemId) && ReactionsTallied(CountIf(items, ref), rows)
  {
    if ref.Some? {
      CountCommentKeepsTallies(items, ref.value, rows);
    }
  }

  /** A reply is counted on the post or essay exactly like a root comment:
      the parent reference plays no part in the counters. */
  lemma RepliesCountLikeRoots(newId: Id, author: Id, content: Option<string>, postId: Option<string>,
                              essayId: Option<string>, parent: Option<string>, items: seq<ContentItem>)
    requires NewComment(newId, author, content, postId, essayId, parent).Success?
    ensures var c := NewComment(newId, author, content, postId, essayId, parent).value;
            var root := NewComment(newId, author, content, postId, essayId, None).value;
            && root.parentComment.None?
            && CountIf(items, c.postId) == CountIf(items, root.postId)
            && CountIf(items, c.essayId) == CountIf(items, root.essayId)
  {
  }

  /** `POST /comments` against the database: a refused request changes
      nothing; an accepted one appends the comment and adds one to
      `commentCount` of the post and of the essay it names. */
  method Create(db: Db, author: Id, content: Option<string>, postId: Option<string>, essayId: Option<string>,
                parent: Option<string>, newId: Id) returns (res: Result<Comment, Status>)
    requires db.Valid()
    requires forall j :: 0 <= j < |db.tables.comments| ==> db.tables.comments[j].id != newId
    requires forall k :: k in db.tables.votes ==> k.target != CommentTarget(newId)
    modifies db
    ensures db.Valid()
    ensures res == NewComment(newId, author, content, postId, essayId, parent)
    ensures res.Failure? ==> db.tables == old(db.tables)
    ensures res.Success? ==>
              db.tables == old(db.tables).(comments := old(db.tables.comments) + [res.value],
                                           posts := CountIf(old(db.tables.posts), res.value.postId),
                                           essays := CountIf(old(db.tables.essays), res.value.essayId))
  {
    res := NewComment(newId, author, content, postId, essayId, parent);
    if res.Failure? {
      return;
    }
    var c := res.value;
    var t := db.tables;
    AppendKeepsConsistent(t.users, t.posts, t.essays, t.comments, t.postReactions, t.essayReactions, t.votes, c);
    db.tables := t.(comments := t.comments + [c], posts := CountIf(t.posts, c.postId), essays := CountIf(t.essays, c.essayId));
  }

  /** A comment with a fresh id and no votes, together with the comment
      counts, keeps the indexes and histograms of the database. */
  lemma AppendKeepsConsistent(users: seq<User>, posts: seq<ContentItem>, essays: seq<ContentItem>, comments: seq<Comment>,
                              postReactions: map<RowKey, Reaction>, essayReactions: map<RowKey, Reaction>,
                              votes: map<VoteKey, int>, c: Comment)
    requires Consistent(users, posts, essays, comments, postReactions, essayReactions, votes)
    requires forall j :: 0 <= j < |comments| ==> comments[j].id != c.id
    requires forall k :: k in votes ==> k.target != CommentTarget(c.id)
    requires c.votes == 0
    ensures Consistent(users, CountIf(posts, c.postId), CountIf(essays, c.essayId), comments + [c],
                       postReactions, essayReactions, votes)
  {
    TallyUntargeted(votes, CommentTarget(c.id), 1);
    TallyUntargeted(votes, CommentTarget(c.id), -1);
    var comments' := comments + [c];
    assert UniqueIds(comments', CommentId);
    assert VotesTallied(comments', votes);
    CountIfKeepsTallies(posts, c.postId, postReactions);
    CountIfKeepsTallies(essays, c.essayId, essayReactions);
  }

  // ---------- Voting on a comment ----------

  /** The counter arithmetic of the three branches: a new row adds `v`, the
      same value again subtracts it, the opposite value adds `2 * v`. */
  function SignedBump(votes: int, held: Option<int>, v: int): int {
    match held
    case None => votes + v
    case Some(o) => if o == v then votes - v else votes + v * 2
  }

  predicate IsVoteType(v: int) {
    v == 1 || v == -1
  }

  /** The central invariant of the vote ledger: when a comment's counter is
      the signed sum of its rows, the counter arithmetic keeps it so after the
      row is created, deleted or rewritten. */
  lemma SignedBumpTracksSum(votes: map<VoteKey, int>, c: Comment, user: Id, v: int)
    requires SignedVotes(votes) && IsVoteType(v)
    requires c.votes == VoteSum(votes, c.id)
    ensures var k := Key(user, CommentTarget(c.id));
            var votes' := Write(votes, k, Step(Held(votes, k), v));
            && SignedVotes(votes')
            && SignedBump(c.votes, Held(votes, k), v) == VoteSum(votes', c.id)
  {
    var k := Key(user, CommentTarget(c.id));
    var next := Step(Held(votes, k), v);
    TallyWrite(votes, k, next, CommentTarget(c.id), 1);
    TallyWrite(votes, k, next, CommentTarget(c.id), -1);
  }

  /** What one vote request does to the comments and the Vote table. The
      existence check comes first; a value outside {1, -1} is then refused by
      the schema when the row is written, before the counter is saved. */
  ghost predicate VoteSpec(comments: seq<Comment>, votes: map<VoteKey, int>, user: Id, id: Id, v: int,
                           res: Result<int, Status>, comments': seq<Comment>, votes': map<VoteKey, int>)
  {
    if IndexOf(comments, CommentId, id).None? then
      res == Failure(NotFound) && comments' == comments && votes' == votes
    else if !IsVoteType(v) && Held(votes, Key(user, CommentTarget(id))) != Some(v) then
      res == Failure(ServerError) && comments' == comments && votes' == votes
    else
      var i := IndexOf(comments, CommentId, id).value;
      var k := Key(user, CommentTarget(id));
      && votes' == Write(votes, k, Step(Held(votes, k), v))
      && comments' == comments[i := comments[i].(votes := SignedBump(comments[i].votes, Held(votes, k), v))]
      && res == Success(comments'[i].votes)
  }

  /** `POST /comments/:id/vote` over the comments and the Vote table. */
  method VoteOn(comments: seq<Comment>, votes: map<VoteKey, int>, user: Id, id: Id, v: int)
    returns (res: Result<int, Status>, comments': seq<Comment>, votes': map<VoteKey, int>)
    ensures VoteSpec(comments, votes, user, id, v, res, comments', votes')
    ensures UniqueIds(comments, CommentId) && SignedVotes(votes) && VotesTallied(comments, votes) ==>
              UniqueIds(comments', CommentId) && SignedVotes(votes') && VotesTallied(comments', votes')
  {
    var k := Key(user, CommentTarget(id));
    var existing := Held(votes, k);
    var found := IndexOf(comments, CommentId, id);
    if found.None? {
      return Failure(NotFound), comments, votes;
    }
    var i := found.value;
    var comment := comments[i];
    if existing.Some? {
      if existing.value == v {
        votes' := votes - {k};
        comment := comment.(votes := comment.votes - v);
      } else {
        if !IsVoteType(v) {
          return Failure(ServerError), comments, votes;
        }
        votes' := votes[k := v];
        comment := comment.(votes := comment.votes + v * 2);
      }
    } else {
      if !IsVoteType(v) {
        return Failure(ServerError), comments, votes;
      }
      votes' := votes[k := v];
      comment := comment.(votes := comment.votes + v);
    }
    ReplaceKeepsUnique(comments, CommentId, i, comment);
    comments' := comments[i := comment];
    res := Success(comment.votes);
    if UniqueIds(comments, CommentId) && SignedVotes(votes) && VotesTallied(comments, votes) {
      PreserveVoteSums(comments, votes, user, i, v);
    }
  }

  lemma PreserveVoteSums(comments: seq<Comment>, votes: map<VoteKey, int>, user: Id, i: nat, v: int)
    requires UniqueIds(comments, CommentId) && SignedVotes(votes) && VotesTallied(comments, votes)
    requires i < |comments| && IsVoteType(v)
    ensures var k := Key(user, CommentTarget(comments[i].id));
            var votes' := Write(votes, k, Step(Held(votes, k), v));
            var comments' := comments[i := comments[i].(votes := SignedBump(comments[i].votes, Held(votes, k), v))];
            SignedVotes(votes') && VotesTallied(comments', votes')
  {
    var k := Key(user, CommentTarget(comments[i].id));
    var next := Step(Held(votes, k), v);
    var votes' := Write(votes, k, next);
    var comments' := comments[i := comments[i].(votes := SignedBump(comments[i].votes, Held(votes, k), v))];
    SignedBumpTracksSum(votes, comments[i], user, v);
    forall j | 0 <= j < |comments'|
      ensures comments'[j].votes == VoteSum(votes', comments'[j].id)
    {
      if j != i {
        assert comments[j].id != comments[i].id;
        TallyWriteElsewhere(votes, k, next, CommentTarget(comments[j].id), 1);
        TallyWriteElsewhere(votes, k, next, CommentTarget(comments[j].id), -1);
      }
    }
  }

  /** The same vote twice, from no row or from holding that vote, leaves the
      row and the counter as they were: the net effect is zero. */
  lemma {:induction false} SameVoteTwiceRestores(votes: map<VoteKey, int>, c: Comment, user: Id, v: int)
    requires var h := Held(votes, Key(user, CommentTarget(c.id))); h == None || h == Some(v)
    ensures var k := Key(user, CommentTarget(c.id));
            var h := Held(votes, k);
            var votes1 := Write(votes, k, Step(h, v));
            && SignedBump(SignedBump(c.votes, h, v), Held(votes1, k), v) == c.votes
            && Write(votes1, k, Step(Held(votes1, k), v)) == votes
  {
    var k := Key(user, CommentTarget(c.id));
    WriteStepTwice(votes, k, v);
    assert Held(Write(votes, k, Step(Held(votes, k), v)), k) == Step(Held(votes, k), v);
  }

  /** Switching from the opposite vote rewrites the row to `v` and moves the
      counter by `2 * v`, which is the signed sum's change when an opposite
      row becomes a `v` row. */
  lemma SwitchAddsTwice(votes: map<VoteKey, int>, c: Comment, user: Id, v: int)
    requires SignedVotes(votes) && IsVoteType(v)
    requires Held(votes, Key(user, CommentTarget(c.id))) == Some(-v)
    ensures var k := Key(user, CommentTarget(c.id));
            && Write(votes, k, Step(Held(votes, k), v)) == votes[k := v]
            && SignedBump(c.votes, Held(votes, k), v) == c.votes + 2 * v
            && VoteSum(votes[k := v], c.id) == VoteSum(votes, c.id) + 2 * v
  {
    var k := Key(user, CommentTarget(c.id));
    assert Step(Held(votes, k), v) == Some(v);
    TallyWrite(votes, k, Some(v), CommentTarget(c.id), 1);
    TallyWrite(votes, k, Some(v), CommentTarget(c.id), -1);
  }

  /** `POST /comments/:id/vote`: the response carries only the new count. */
  method Vote(db: Db, user: Id, id: Id, v: int) returns (res: Result<int, Status>)
    requires db.Valid()
    modifies db
    ensures db.Valid()
    ensures VoteSpec(old(db.tables.comments), old(db.tables.votes), user, id, v, res, db.tables.comments, db.tables.votes)
    ensures db.tables == old(db.tables).(comments := db.tables.comments, votes := db.tables.votes)
  {
    var t := db.tables;
    var comments, votes;
    res, comments, votes := VoteOn(t.comments, t.votes, user, id, v);
    db.tables := t.(comments := comments, votes := votes);
  }
}
