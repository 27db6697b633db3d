/** The post routes: the reaction ledger handler and the detail fetch. The
    listing arithmetic is in module Listing. */
module Posts {
  import opened Wrappers
  import opened Store
  import Content

  /** `POST /posts/:id/reaction`: only the posts and their reaction table change. */
  method React(db: Db, user: Id, id: Id, name: string) returns (res: Result<Content.Counts, Status>)
    requires db.Valid()
    modifies db
    ensures db.Valid()
    ensures Content.ReactSpec(old(db.tables.posts), old(db.tables.postReactions), user, id, name,
                              res, db.tables.posts, db.tables.postReactions)
    ensures db.tables == old(db.tables).(posts := db.tables.posts, postReactions := db.tables.postReactions)
  {
    var t := db.tables;
    var posts, rows;
    res, posts, rows := Content.ReactOn(t.posts, t.postReactions, user, id, name);
    db.tables := t.(posts := posts, postReactions := rows);
  }

  /** `GET /posts/:id`: only the posts change. */
  method View(db: Db, id: Id) returns (res: Result<ContentItem, Status>)
    requires db.Valid()
    modifies db
    ensures db.Valid()
    ensures Content.ViewSpec(old(db.tables.posts), id, res, db.tables.posts)
    ensures db.tables == old(db.tables).(posts := db.tables.posts)
  {
    var t := db.tables;
    var posts;
    res, posts := Content.ViewOn(t.posts, id);
    db.tables := t.(posts := posts);
  }
}
