/** The account routes: partial profile update, the view and lightbulb
    totals, awarding a badge, and the account deletion sweep. */
module Profile {
  import opened Wrappers
  import opened Ledger
  import opened Store
  import Content

  function UserName(u: User): string { u.username }

  // ---------- Partial update ----------

  /** What `PUT /profile/update` does to the users: 404 for an unknown id;
      otherwise each of the four profile fields that was supplied is written,
      every other field of that user and every other user is kept, and the
      updated user is returned. */
  ghost predicate UpdateSpec(users: seq<User>, id: Id, bio: Option<string>, location: Option<string>,
                             interests: Option<seq<string>>, picture: Option<string>,
                             res: Result<User, Status>, users': seq<User>)
  {
    if IndexOf(users, UserId, id).None? then
      res == Failure(NotFound) && users' == users
    else
      var i := IndexOf(users, UserId, id).value;
      var u := users[i];
      && res.Success? && |users'| == |users| && users'[i] == res.value
      && (forall j :: 0 <= j < |users| && j != i ==> users'[j] == users[j])
      && res.value.bio == bio.GetOr(u.bio)
      && res.value.location == location.GetOr(u.location)
      && res.value.interests == interests.GetOr(u.interests)
      && res.value.profilePicture == picture.GetOr(u.profilePicture)
      && res.value.(bio := u.bio, location := u.location, interests := u.interests, profilePicture := u.profilePicture) == u
  }

  /** `PUT /profile/update` over the users: the update is built field by
      field from the values that are not undefined, then applied by id. */
  method UpdateOn(users: seq<User>, id: Id, bio: Option<string>, location: Option<string>,
                  interests: Option<seq<string>>, picture: Option<string>)
    returns (res: Result<User, Status>, users': seq<User>)
    ensures UpdateSpec(users, id, bio, location, interests, picture, res, users')
    ensures UniqueIds(users, UserId) ==> UniqueIds(users', UserId)
  {
    var found := IndexOf(users, UserId, id);
    if found.None? {
      return Failure(NotFound), users;
    }
    var i := found.value;
    var user := users[i];
    if bio.Some? {
      user := user.(bio := bio.value);
    }
    if location.Some? {
      user := user.(location := location.value);
    }
    if interests.Some? {
      user := user.(interests := interests.value);
    }
    if picture.Some? {
      user := user.(profilePicture := picture.value);
    }
    ReplaceKeepsUnique(users, UserId, i, user);
    users' := users[i := user];
    res := Success(user);
  }

  /** An update with no field supplied returns the user unchanged. */
  lemma EmptyUpdateIsIdentity(users: seq<User>, id: Id, res: Result<User, Status>, users': seq<User>)
    requires UpdateSpec(users, id, None, None, None, None, res, users')
    ensures users' == users
    ensures res.Success? ==> res.value in users
  {
    if IndexOf(users, UserId, id).Some? {
      var i := IndexOf(users, UserId, id).value;
      assert res.value == users[i];
      assert users' == users;
    }
  }

  /** `PUT /profile/update`. */
  method Update(db: Db, id: Id, bio: Option<string>, location: Option<string>,
                interests: Option<seq<string>>, picture: Option<string>) returns (res: Result<User, Status>)
    requires db.Valid()
    modifies db
    ensures db.Valid()
    ensures UpdateSpec(old(db.tables.users), id, bio, location, interests, picture, res, db.tables.users)
    ensures db.tables == old(db.tables).(users := db.tables.users)
  {
    var t := db.tables;
    var users;
    res, users := UpdateOn(t.users, id, bio, location, interests, picture);
    db.tables := t.(users := users);
  }

  // ---------- Totals ----------

  /** The two fields the statistics add up. */
  datatype Metric = Views | Lightbulbs

  /** One document's contribution to a `$sum`: a missing field adds nothing. */
  function Measure(p: ContentItem, m: Metric): int {
    match m
    case Views => Content.ViewCount(p)
    case Lightbulbs => p.lightbulbs.GetOr(0)
  }

  /** `$match: { author } , $group: { total: { $sum } }`, with `[0]?.total || 0`:
      the sum over the author's documents, zero when there are none. */
  function Total(items: seq<ContentItem>, author: Id, m: Metric): int {
    if items == [] then 0
    else Total(items[..|items| - 1], author, m) + Contribution(items[|items| - 1], author, m)
  }

  function Contribution(p: ContentItem, author: Id, m: Metric): int {
    if p.author == author then Measure(p, m) else 0
  }

  /** Totals add up over concatenated collections. */
  lemma {:induction false} TotalAppend(a: seq<ContentItem>, b: seq<ContentItem>, author: Id, m: Metric)
    ensures Total(a + b, author, m) == Total(a, author, m) + Total(b, author, m)
    decreases |b|
  {
    if b == [] {
      assert a + b == a;
    } else {
      var b' := b[..|b| - 1];
      assert (a + b)[..|a + b| - 1] == a + b';
      TotalAppend(a, b', author, m);
    }
  }

  /** Documents by other authors add nothing to a user's total. */
  lemma {:induction false} TotalOfOthers(items: seq<ContentItem>, author: Id, m: Metric)
    requires forall j :: 0 <= j < |items| ==> items[j].author != author
    ensures Total(items, author, m) == 0
  {
    if items != [] {
      TotalOfOthers(items[..|items| - 1], author, m);
    }
  }

  /** No document carries a `lightbulbs` field that the schema does not
      declare, so the lightbulb total of every user is zero. */
  lemma {:induction false} LightbulbsAbsentTotalZero(items: seq<ContentItem>, author: Id)
    requires forall j :: 0 <= j < |items| ==> items[j].lightbulbs.None?
    ensures Total(items, author, Lightbulbs) == 0
  {
    if items != [] {
      LightbulbsAbsentTotalZero(items[..|items| - 1], author);
    }
  }

  /** Replacing one document changes the total by exactly the change of that
      document's own contribution. */
  lemma {:induction false} TotalUpdate(items: seq<ContentItem>, i: nat, p: ContentItem, author: Id, m: Metric)
    requires i < |items|
    ensures Total(items[i := p], author, m)
         == Total(items, author, m) - Contribution(items[i], author, m) + Contribution(p, author, m)
    decreases |items|
  {
    var n := |items| - 1;
    assert items[i := p][..n] == if i == n then items[..n] else items[..n][i := p];
    if i < n {
      TotalUpdate(items[..n], i, p, author, m);
    }
  }

  /** A detail fetch raises the view total of the item's author by one and
      leaves every other user's view total as it was. */
  lemma ViewRaisesAuthorTotal(items: seq<ContentItem>, id: Id, res: Result<ContentItem, Status>,
                              items': seq<ContentItem>, author: Id)
    requires Content.ViewSpec(items, id, res, items')
    requires res.Success?
    ensures Total(items', author, Views) == Total(items, author, Views) + Ind(res.value.author == author)
  {
    var i := IndexOf(items, ItemId, id).value;
    assert items' == items[i := items'[i]];
    TotalUpdate(items, i, items'[i], author, Views);
  }

  /** The body of the statistics response. */
  datatype StatsReply = StatsReply(
    totalViews: int, totalUpvotes: int, totalLightbulbs: int,
    postsCount: int, essaysCount: int, commentsCount: int, awards: seq<Award>)

  /** What `GET /profile/:username/stats` does: 404 for an unknown username;
      otherwise the user's `totalViews` and `totalUpvotes` are overwritten with
      the view and lightbulb totals over the user's posts and essays, and the
      reply reports them, the lightbulb total again, and the user's counts and
      awards. */
  ghost predicate StatsSpec(users: seq<User>, posts: seq<ContentItem>, essays: seq<ContentItem>, username: string,
                            res: Result<StatsReply, Status>, users': seq<User>)
  {
    if IndexOf(users, UserName, username).None? then
      res == Failure(NotFound) && users' == users
    else
      var i := IndexOf(users, UserName, username).value;
      var u := users[i];
      var views := Total(posts + essays, u.id, Views);
      var bulbs := Total(posts + essays, u.id, Lightbulbs);
      && users' == users[i := u.(totalViews := views, totalUpvotes := bulbs)]
      && res == Success(StatsReply(views, bulbs, bulbs, u.postsCount, u.essaysCount, u.commentsCount, u.awards))
  }

  method StatsOn(users: seq<User>, posts: seq<ContentItem>, essays: seq<ContentItem>, username: string)
    returns (res: Result<StatsReply, Status>, users': seq<User>)
    ensures StatsSpec(users, posts, essays, username, res, users')
    ensures res.Success? ==> res.value.totalUpvotes == res.value.totalLightbulbs
    ensures UniqueIds(users, UserId) ==> UniqueIds(users', UserId)
  {
    var found := IndexOf(users, UserName, username);
    if found.None? {
      return Failure(NotFound), users;
    }
    var i := found.value;
    var user := users[i];
    var postViews := Total(posts, user.id, Views);
    var essayViews := Total(essays, user.id, Views);
    var postLightbulbs := Total(posts, user.id, Lightbulbs);
    var essayLightbulbs := Total(essays, user.id, Lightbulbs);
    var totalViews := postViews + essayViews;
    var totalLightbulbs := postLightbulbs + essayLightbulbs;
    TotalAppend(posts, essays, user.id, Views);
    TotalAppend(posts, essays, user.id, Lightbulbs);
    ReplaceKeepsUnique(users, UserId, i, user.(totalViews := totalViews, totalUpvotes := totalLightbulbs));
    users' := users[i := user.(totalViews := totalViews, totalUpvotes := totalLightbulbs)];
    res := Success(StatsReply(totalViews, totalLightbulbs, totalLightbulbs,
                              user.postsCount, user.essaysCount, user.commentsCount, user.awards));
  }

  /** `GET /profile/:username/stats`. */
  method Stats(db: Db, username: string) returns (res: Result<StatsReply, Status>)
    requires db.Valid()
    modifies db
    ensures db.Valid()
    ensures StatsSpec(old(db.tables.users), db.tables.posts, db.tables.essays, username, res, db.tables.users)
    ensures db.tables == old(db.tables).(users := db.tables.users)
  {
    var t := db.tables;
    var users;
    res, users := StatsOn(t.users, t.posts, t.essays, username);
    db.tables := t.(users := users);
  }

  // ---------- Awards ----------

  /** What `POST /profile/:username/award` does: 404 for an unknown username;
      otherwise one award, stamped with the request time, is appended to that
      user's awards, and the whole list is returned. */
  ghost predicate AwardSpec(users: seq<User>, username: string, name: Option<string>, description: Option<string>,
                            icon: Option<string>, now: int, res: Result<seq<Award>, Status>, users': seq<User>)
  {
    if IndexOf(users, UserName, username).None? then
      res == Failure(NotFound) && users' == users
    else
      var i := IndexOf(users, UserName, username).value;
      var awards := users[i].awards + [Award(name, description, icon, now)];
      && users' == users[i := users[i].(awards := awards)]
      && res == Success(awards)
  }

  method AwardOn(users: seq<User>, username: string, name: Option<string>, description: Option<string>,
                 icon: Option<string>, now: int)
    returns (res: Result<seq<Award>, Status>, users': seq<User>)
    ensures AwardSpec(users, username, name, description, icon, now, res, users')
    ensures res.Success? ==> |res.value| >= 1 && res.value[|res.value| - 1] == Award(name, description, icon, now)
    ensures UniqueIds(users, UserId) ==> UniqueIds(users', UserId)
  {
    var found := IndexOf(users, UserName, username);
    if found.None? {
      return Failure(NotFound), users;
    }
    var i := found.value;
    var user := users[i];
    user := user.(awards := user.awards + [Award(name, description, icon, now)]);
    ReplaceKeepsUnique(users, UserId, i, user);
    users' := users[i := user];
    res := Success(user.awards);
  }

  /** An award request extends the list by one entry and keeps every earlier
      entry in place. */
  lemma AwardExtends(users: seq<User>, username: string, name: Option<string>, description: Option<string>,
                     icon: Option<string>, now: int, res: Result<seq<Award>, Status>, users': seq<User>)
    requires AwardSpec(users, username, name, description, icon, now, res, users')
    requires res.Success?
    ensures var old_ := users[IndexOf(users, UserName, username).value].awards;
            |res.value| == |old_| + 1 && res.value[..|old_|] == old_
  {
    var old_ := users[IndexOf(users, UserName, username).value].awards;
    assert res.value == old_ + [Award(name, description, icon, now)];
    assert res.value[..|old_|] == old_;
  }

  /** `POST /profile/:username/award`, stamped with `now`. */
  method GrantAward(db: Db, username: string, name: Option<string>, description: Option<string>,
                    icon: Option<string>, now: int) returns (res: Result<seq<Award>, Status>)
    requires db.Valid()
    modifies db
    ensures db.Valid()
    ensures AwardSpec(old(db.tables.users), username, name, description, icon, now, res, db.tables.users)
    ensures db.tables == old(db.tables).(users := db.tables.users)
  {
    var t := db.tables;
    var users;
    res, users := AwardOn(t.users, username, name, description, icon, now);
    db.tables := t.(users := users);
  }

  // ---------- Account deletion ----------

  /** `Post.deleteMany({ author })` / `Essay.deleteMany({ author })`. */
  function ItemsNotBy(items: seq<ContentItem>, author: Id): seq<ContentItem> {
    if items == [] then []
    else if items[0].author != author then [items[0]] + ItemsNotBy(items[1..], author)
    else ItemsNotBy(items[1..], author)
  }

  /** `Comment.deleteMany({ author })`. */
  function CommentsNotBy(cs: seq<Comment>, author: Id): seq<Comment> {
    if cs == [] then []
    else if cs[0].author != author then [cs[0]] + CommentsNotBy(cs[1..], author)
    else CommentsNotBy(cs[1..], author)
  }

  /** `User.findByIdAndDelete(id)`. */
  function UsersWithout(users: seq<User>, id: Id): seq<User> {
    if users == [] then []
    else if users[0].id != id then [users[0]] + UsersWithout(users[1..], id)
    else UsersWithout(users[1..], id)
  }

  /** The author's posts or essays are deleted and every other one is kept;
      the unique index still holds. */
  lemma {:induction false} ItemsNotByKeepsOthers(items: seq<ContentItem>, author: Id)
    ensures forall p :: p in ItemsNotBy(items, author) <==> p in items && p.author != author
    ensures UniqueIds(items, ItemId) ==> UniqueIds(ItemsNotBy(items, author), ItemId)
  {
    if items != [] {
      ItemsNotByKeepsOthers(items[1..], author);
      var rest := ItemsNotBy(items[1..], author);
      assert forall j :: 0 <= j < |rest| ==> rest[j] in items[1..];
    }
  }

  /** The author's comments are deleted and every other one is kept; the
      unique index still holds. */
  lemma {:induction false} CommentsNotByKeepsOthers(cs: seq<Comment>, author: Id)
    ensures forall c :: c in CommentsNotBy(cs, author) <==> c in cs && c.author != author
    ensures UniqueIds(cs, CommentId) ==> UniqueIds(CommentsNotBy(cs, author), CommentId)
  {
    if cs != [] {
      CommentsNotByKeepsOthers(cs[1..], author);
      var rest := CommentsNotBy(cs[1..], author);
      assert forall j :: 0 <= j < |rest| ==> rest[j] in cs[1..];
    }
  }

  /** The user record is deleted and every other user is kept; the unique
      index still holds. */
  lemma {:induction false} UsersWithoutKeepsOthers(users: seq<User>, id: Id)
    ensures forall u :: u in UsersWithout(users, id) <==> u in users && u.id != id
    ensures UniqueIds(users, UserId) ==> UniqueIds(UsersWithout(users, id), UserId)
  {
    if users != [] {
      UsersWithoutKeepsOthers(users[1..], id);
      var rest := UsersWithout(users[1..], id);
      assert forall j :: 0 <= j < |rest| ==> rest[j] in users[1..];
    }
  }

  /** Filtering a collection keeps the counters of what remains in step with
      an unchanged reaction table. */
  lemma ItemsNotByKeepsTallies(items: seq<ContentItem>, author: Id, rows: map<RowKey, Reaction>)
    requires UniqueIds(items, ItemId) && ReactionsTallied(items, rows)
    ensures ReactionsTallied(ItemsNotBy(items, author), rows)
  {
    var r := ItemsNotBy(items, author);
    ItemsNotByKeepsOthers(items, author);
    forall i | 0 <= i < |r|
      ensures r[i].insightful == Tally(rows, r[i].id, Insightful) && r[i].notHelpful == Tally(rows, r[i].id, NotHelpful)
    {
      assert r[i] in items;
    }
  }

  /** What the sweep of `DELETE /profile/delete-account` leaves: the user's
      Vote and CommentReaction rows, comments, posts, essays and user record
      are gone; all other records, and the user's PostReaction and
      EssayReaction rows, remain. */
  function SweepAsWritten(t: Tables, id: Id): Tables {
    t.(votes := SweepUser(t.votes, id),
       commentReactions := SweepUser(t.commentReactions, id),
       comments := CommentsNotBy(t.comments, id),
       posts := ItemsNotBy(t.posts, id),
       essays := ItemsNotBy(t.essays, id),
       users := UsersWithout(t.users, id))
  }

  /** `DELETE /profile/delete-account` as written: the Vote rows of the user
      are deleted, but the `votes` counters of the comments they were cast on
      are left as they were; only the invariants that do not involve those
      counters survive. */
  method DeleteAccountAsWritten(db: Db, id: Id) returns (res: Result<string, Status>)
    requires db.Valid()
    modifies db
    ensures old(IndexOf(db.tables.users, UserId, id)).None? ==>
              res == Failure(NotFound) && db.tables == old(db.tables)
    ensures old(IndexOf(db.tables.users, UserId, id)).Some? ==>
              res == Success("Account deleted successfully") && db.tables == SweepAsWritten(old(db.tables), id)
    ensures ConsistentExceptVoteCounts(db.tables.users, db.tables.posts, db.tables.essays, db.tables.comments,
                                       db.tables.postReactions, db.tables.essayReactions, db.tables.votes)
  {
    var t := db.tables;
    var found := IndexOf(t.users, UserId, id);
    if found.None? {
      return Failure(NotFound);
    }
    SweepAsWrittenKeeps(t, id);
    db.tables := SweepAsWritten(t, id);
    res := Success("Account deleted successfully");
  }

  /** What the sweep as written keeps: the unique indexes, the signs of the
      remaining Vote rows and the post and essay histograms. */
  lemma SweepAsWrittenKeeps(t: Tables, id: Id)
    requires Consistent(t.users, t.posts, t.essays, t.comments, t.postReactions, t.essayReactions, t.votes)
    ensures var r := SweepAsWritten(t, id);
            ConsistentExceptVoteCounts(r.users, r.posts, r.essays, r.comments, r.postReactions, r.essayReactions, r.votes)
  {
    ItemsNotByKeepsTallies(t.posts, id, t.postReactions);
    ItemsNotByKeepsTallies(t.essays, id, t.essayReactions);
    ItemsNotByKeepsOthers(t.posts, id);
    ItemsNotByKeepsOthers(t.essays, id);
    CommentsNotByKeepsOthers(t.comments, id);
    UsersWithoutKeepsOthers(t.users, id);
  }

  /** The counter drift of the sweep as written: one up-vote by "u" on a
      comment by "a", correctly tallied beforehand, is deleted while the
      comment keeps its count of one. */
  lemma DeleteAccountLeavesStaleVotes()
    ensures var c := Comment("c", "text", "a", Some("p"), None, None, 1);
            var votes := map[Key("u", CommentTarget("c")) := 1];
            && VotesTallied([c], votes)
            && CommentsNotBy([c], "u") == [c]
            && !VotesTallied(CommentsNotBy([c], "u"), SweepUser(votes, "u"))
  {
    var c := Comment("c", "text", "a", Some("p"), None, None, 1);
    var k := Key("u", CommentTarget("c"));
    var votes := map[k := 1];
    assert Holders(votes, CommentTarget("c"), 1) == {k};
    assert Holders(votes, CommentTarget("c"), -1) == {};
    var swept := SweepUser(votes, "u");
    assert swept == map[];
    assert Holders(swept, CommentTarget("c"), 1) == {};
    assert Holders(swept, CommentTarget("c"), -1) == {};
  }

  /** The vote the user holds on a comment, as a number; zero when none. */
  function HeldVote(votes: map<VoteKey, int>, user: Id, c: Comment): int {
    Held(votes, Key(user, CommentTarget(c.id))).GetOr(0)
  }

  /** Withdrawing the user's votes from the remaining comments' counters. */
  function Unvote(cs: seq<Comment>, votes: map<VoteKey, int>, user: Id): (r: seq<Comment>)
    ensures |r| == |cs|
    ensures forall i :: 0 <= i < |cs| ==> r[i] == cs[i].(votes := cs[i].votes - HeldVote(votes, user, cs[i]))
  {
    if cs == [] then []
    else [cs[0].(votes := cs[0].votes - HeldVote(votes, user, cs[0]))] + Unvote(cs[1..], votes, user)
  }

  /** Sweeping a user's votes lowers each comment's signed sum by exactly the
      vote that user held on it. */
  lemma SweepLowersSum(votes: map<VoteKey, int>, user: Id, c: Comment)
    requires SignedVotes(votes)
    ensures VoteSum(SweepUser(votes, user), c.id) == VoteSum(votes, c.id) - HeldVote(votes, user, c)
  {
    TallySweep(votes, user, CommentTarget(c.id), 1);
    TallySweep(votes, user, CommentTarget(c.id), -1);
  }

  /** With the counters corrected, the remaining comments stay tallied against
      the swept Vote table. */
  lemma UnvoteKeepsTallies(cs: seq<Comment>, votes: map<VoteKey, int>, user: Id)
    requires SignedVotes(votes) && VotesTallied(cs, votes)
    ensures VotesTallied(Unvote(cs, votes, user), SweepUser(votes, user))
    ensures SignedVotes(SweepUser(votes, user))
  {
    var r := Unvote(cs, votes, user);
    forall i | 0 <= i < |r|
      ensures r[i].votes == VoteSum(SweepUser(votes, user), r[i].id)
    {
      SweepLowersSum(votes, user, cs[i]);
    }
  }

  /** A filtered comment collection stays tallied. */
  lemma CommentsNotByKeepsTallies(cs: seq<Comment>, author: Id, votes: map<VoteKey, int>)
    requires VotesTallied(cs, votes)
    ensures VotesTallied(CommentsNotBy(cs, author), votes)
  {
    var r := CommentsNotBy(cs, author);
    CommentsNotByKeepsOthers(cs, author);
    forall i | 0 <= i < |r|
      ensures r[i].votes == VoteSum(votes, r[i].id)
    {
      assert r[i] in cs;
    }
  }

  /** The sweep with the comment counters kept in step: before the user's
      Vote rows are deleted, each remaining comment's `votes` gives back the
      vote the user held on it. Everything else is the sweep as written. */
  function Sweep(t: Tables, id: Id): Tables {
    SweepAsWritten(t, id).(comments := CommentsNotBy(Unvote(t.comments, t.votes, id), id))
  }

  /** `DELETE /profile/delete-account` with the corrected sweep: the
      database stays consistent. */
  method DeleteAccount(db: Db, id: Id) returns (res: Result<string, Status>)
    requires db.Valid()
    modifies db
    ensures db.Valid()
    ensures old(IndexOf(db.tables.users, UserId, id)).None? ==>
              res == Failure(NotFound) && db.tables == old(db.tables)
    ensures old(IndexOf(db.tables.users, UserId, id)).Some? ==>
              res == Success("Account deleted successfully") && db.tables == Sweep(old(db.tables), id)
  {
    var t := db.tables;
    var found := IndexOf(t.users, UserId, id);
    if found.None? {
      return Failure(NotFound);
    }
    SweepKeepsConsistent(t, id);
    db.tables := Sweep(t, id);
    res := Success("Account deleted successfully");
  }

  /** The corrected sweep keeps the database consistent. */
  lemma SweepKeepsConsistent(t: Tables, id: Id)
    requires Consistent(t.users, t.posts, t.essays, t.comments, t.postReactions, t.essayReactions, t.votes)
    ensures var r := Sweep(t, id);
            Consistent(r.users, r.posts, r.essays, r.comments, r.postReactions, r.essayReactions, r.votes)
  {
    SweepAsWrittenKeeps(t, id);
    SweptCommentsTallied(t.comments, t.votes, id);
  }

  /** The comments the corrected sweep keeps have unique ids and are tallied
      against the swept Vote table. */
  lemma SweptCommentsTallied(cs: seq<Comment>, votes: map<VoteKey, int>, id: Id)
    requires UniqueIds(cs, CommentId) && SignedVotes(votes) && VotesTallied(cs, votes)
    ensures var kept := CommentsNotBy(Unvote(cs, votes, id), id);
            UniqueIds(kept, CommentId) && VotesTallied(kept, SweepUser(votes, id))
  {
    var adjusted := Unvote(cs, votes, id);
    UnvoteKeepsTallies(cs, votes, id);
    UnvoteKeepsIds(cs, votes, id);
    CommentsNotByKeepsTallies(adjusted, id, SweepUser(votes, id));
    CommentsNotByKeepsOthers(adjusted, id);
  }

  lemma UnvoteKeepsIds(cs: seq<Comment>, votes: map<VoteKey, int>, user: Id)
    requires UniqueIds(cs, CommentId)
    ensures UniqueIds(Unvote(cs, votes, user), CommentId)
  {
    var r := Unvote(cs, votes, user);
    assert forall i :: 0 <= i < |r| ==> r[i].id == cs[i].id;
  }

  /** The corrected sweep differs from the one as written only in the
      counters: the comments kept, their ids, authors and content are the same. */
  lemma UnvoteKeepsAllButCounters(cs: seq<Comment>, votes: map<VoteKey, int>, user: Id)
    ensures var r := Unvote(cs, votes, user);
            forall i :: 0 <= i < |cs| ==> r[i].(votes := cs[i].votes) == cs[i]
    ensures forall c :: c in cs ==> HeldVote(SweepUser(votes, user), user, c) == 0
  {
  }
}
