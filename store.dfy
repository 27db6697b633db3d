/** The persisted state of the application as in-memory collections: the
    document collections as sequences in insertion order, the ledger tables as
    maps keyed by their unique (user, target) index. */
module Store {
  import opened Wrappers
  import opened Ledger

  /** Document ids and user ids (database object ids) as text. */
  type Id = string

  /** The error responses of the route handlers. */
  datatype Status = BadRequest | NotFound | ServerError

  function Code(s: Status): int {
    match s
    case BadRequest => 400
    case NotFound => 404
    case ServerError => 500
  }

  /** The labelled reaction alphabet of posts, essays and comments. */
  datatype Reaction = Insightful | NotHelpful

  /** The target of a row of the generic Vote table. */
  datatype Target = PostTarget(id: Id) | EssayTarget(id: Id) | CommentTarget(id: Id)

  /** A post or an essay. `views` and `lightbulbs` may be absent from a stored
      document; `published` is only meaningful for essays. */
  datatype ContentItem = ContentItem(
    id: Id, author: Id, title: string, content: string, kind: string, category: string,
    published: bool, views: Option<int>, lightbulbs: Option<int>,
    insightful: int, notHelpful: int, commentCount: int)

  datatype Comment = Comment(
    id: Id, content: string, author: Id,
    postId: Option<Id>, essayId: Option<Id>, parentComment: Option<Id>, votes: int)

  datatype Award = Award(name: Option<string>, description: Option<string>, icon: Option<string>, earnedAt: int)

  datatype User = User(
    id: Id, username: string, email: string,
    bio: string, location: string, interests: seq<string>, profilePicture: string,
    totalViews: int, totalUpvotes: int, awards: seq<Award>,
    postsCount: int, essaysCount: int, commentsCount: int)

  function ItemId(p: ContentItem): Id { p.id }
  function CommentId(c: Comment): Id { c.id }
  function UserId(u: User): Id { u.id }

  /** `findById`: the position of the document with that id, if any. */
  function IndexOf<T>(s: seq<T>, idOf: T -> Id, id: Id): (r: Option<nat>)
    ensures r.Some? ==> r.value < |s| && idOf(s[r.value]) == id
    ensures r.Some? ==> forall j :: 0 <= j < r.value ==> idOf(s[j]) != id
    ensures r.None? <==> forall j :: 0 <= j < |s| ==> idOf(s[j]) != id
  {
    if s == [] then None
    else if idOf(s[0]) == id then Some(0)
    else
      var r := IndexOf(s[1..], idOf, id);
      if r.Some? then Some(r.value + 1) else None
  }

  ghost predicate UniqueIds<T>(s: seq<T>, idOf: T -> Id) {
    forall i, j :: 0 <= i < j < |s| ==> idOf(s[i]) != idOf(s[j])
  }

  /** In a collection with unique ids, the position found is the only one with that id. */
  lemma IndexOfUnique<T>(s: seq<T>, idOf: T -> Id, id: Id, j: nat)
    requires UniqueIds(s, idOf)
    requires j < |s| && idOf(s[j]) == id
    ensures IndexOf(s, idOf, id) == Some(j)
  {
  }

  /** Replacing a document by one with the same id keeps the ids unique. */
  lemma ReplaceKeepsUnique<T>(s: seq<T>, idOf: T -> Id, i: nat, x: T)
    requires i < |s| && idOf(x) == idOf(s[i])
    ensures UniqueIds(s, idOf) ==> UniqueIds(s[i := x], idOf)
  {
  }

  type RowKey = Key<Id, Id>
  type VoteKey = Key<Id, Target>

  /** Each content item's counters equal the histogram of its ledger rows. */
  ghost predicate ReactionsTallied(items: seq<ContentItem>, rows: map<RowKey, Reaction>) {
    forall i :: 0 <= i < |items| ==>
      items[i].insightful == Tally(rows, items[i].id, Insightful) &&
      items[i].notHelpful == Tally(rows, items[i].id, NotHelpful)
  }

  /** Every Vote row holds +1 or -1. */
  ghost predicate SignedVotes(votes: map<VoteKey, int>) {
    forall k :: k in votes ==> votes[k] == 1 || votes[k] == -1
  }

  /** The signed sum of a comment's Vote rows: rows hold only +1 or -1, so the
      sum is the number of up-votes less the number of down-votes. */
  ghost function VoteSum(votes: map<VoteKey, int>, id: Id): int {
    Tally(votes, CommentTarget(id), 1) - Tally(votes, CommentTarget(id), -1)
  }

  /** Each comment's `votes` counter equals the signed sum of its Vote rows. */
  ghost predicate VotesTallied(comments: seq<Comment>, votes: map<VoteKey, int>) {
    forall i :: 0 <= i < |comments| ==> comments[i].votes == VoteSum(votes, comments[i].id)
  }

  /** The unique indexes of the collections, the signs of the Vote rows and
      the post and essay counters in step with their reaction tables. */
  ghost predicate ConsistentExceptVoteCounts(users: seq<User>, posts: seq<ContentItem>, essays: seq<ContentItem>,
                                             comments: seq<Comment>, postReactions: map<RowKey, Reaction>,
                                             essayReactions: map<RowKey, Reaction>, votes: map<VoteKey, int>)
  {
    && UniqueIds(users, UserId)
    && UniqueIds(posts, ItemId)
    && UniqueIds(essays, ItemId)
    && UniqueIds(comments, CommentId)
    && ReactionsTallied(posts, postReactions)
    && ReactionsTallied(essays, essayReactions)
    && SignedVotes(votes)
  }

  /** The unique indexes of the collections, and the denormalized counters in
      step with the ledger tables. */
  ghost predicate Consistent(users: seq<User>, posts: seq<ContentItem>, essays: seq<ContentItem>, comments: seq<Comment>,
                             postReactions: map<RowKey, Reaction>, essayReactions: map<RowKey, Reaction>,
                             votes: map<VoteKey, int>)
  {
    && ConsistentExceptVoteCounts(users, posts, essays, comments, postReactions, essayReactions, votes)
    && VotesTallied(comments, votes)
  }

  /** The collections of the application's database, one field per
      Mongoose model. */
  datatype Tables = Tables(
    users: seq<User>, posts: seq<ContentItem>, essays: seq<ContentItem>, comments: seq<Comment>,
    postReactions: map<RowKey, Reaction>, essayReactions: map<RowKey, Reaction>,
    commentReactions: map<RowKey, Reaction>, votes: map<VoteKey, int>)

  /** The empty database. */
  const NoTables := Tables([], [], [], [], map[], map[], map[], map[])

  /** The database: every route handler reads its collections and writes
      back the ones it changes. */
  class Db {
    var tables: Tables

    ghost predicate Valid()
      reads this
    {
      Consistent(tables.users, tables.posts, tables.essays, tables.comments,
                 tables.postReactions, tables.essayReactions, tables.votes)
    }

    constructor ()
      ensures Valid()
      ensures tables == NoTables
    {
      tables := NoTables;
    }
  }
}
