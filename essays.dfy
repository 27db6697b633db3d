/** The essay routes: the reaction ledger handler, the detail fetch and
    creation. The listing arithmetic is in module Listing. */
module Essays {
  import opened Wrappers
  import opened Ledger
  import opened Store
  import Content
  import Text

  /** `POST /essays/:id/reaction`: only the essays and their reaction table change. */
  method React(db: Db, user: Id, id: Id, name: string) returns (res: Result<Content.Counts, Status>)
    requires db.Valid()
    modifies db
    ensures db.Valid()
    ensures Content.ReactSpec(old(db.tables.essays), old(db.tables.essayReactions), user, id, name,
                              res, db.tables.essays, db.tables.essayReactions)
    ensures db.tables == old(db.tables).(essays := db.tables.essays, essayReactions := db.tables.essayReactions)
  {
    var t := db.tables;
    var essays, rows;
    res, essays, rows := Content.ReactOn(t.essays, t.essayReactions, user, id, name);
    db.tables := t.(essays := essays, essayReactions := rows);
  }

  /** `GET /essays/:id`: only the essays change. */
  method View(db: Db, id: Id) returns (res: Result<ContentItem, Status>)
    requires db.Valid()
    modifies db
    ensures db.Valid()
    ensures Content.ViewSpec(old(db.tables.essays), id, res, db.tables.essays)
    ensures db.tables == old(db.tables).(essays := db.tables.essays)
  {
    var t := db.tables;
    var essays;
    res, essays := Content.ViewOn(t.essays, id);
    db.tables := t.(essays := essays);
  }

  /** `published !== undefined ? published : true`. */
  function PublishedOr(published: Option<bool>): (b: bool)
    ensures published.None? ==> b
    ensures published.Some? ==> b == published.value
  {
    if published.Some? then published.value else true
  }

  /** The enumerations of the schema's `type` and `category` fields. */
  const Kinds: seq<string> := ["question", "discussion"]
  const Categories: seq<string> :=
    ["Ethics", "Metaphysics", "Epistemology", "Political Philosophy", "Philosophy of Mind",
     "Philosophy of Religion", "Aesthetics", "Logic", "Eastern Philosophy", "Other"]

  /** `new Essay({...})` and its validation on `save()`: the title is trimmed and
      then required, the content is required, an omitted type or category takes
      its default and a given one must be one of its enumeration; any validation
      failure is the handler's 500. */
  function NewEssay(newId: Id, author: Id, title: Option<string>, content: Option<string>,
                    kind: Option<string>, category: Option<string>, published: Option<bool>): (r: Result<ContentItem, Status>)
    ensures r.Failure? ==> r.error == ServerError
    ensures r.Success? <==>
              && title.Some? && !Text.AllSpace(title.value)
              && content.Some? && content.value != []
              && (kind.None? || kind.value in Kinds)
              && (category.None? || category.value in Categories)
    ensures r.Success? ==>
              && r.value.id == newId && r.value.author == author
              && r.value.title == Text.Trim(title.value) && r.value.title != [] && Text.IsTrimmed(r.value.title)
              && r.value.content == content.value
              && r.value.kind == kind.GetOr("discussion") && r.value.kind in Kinds
              && r.value.category == category.GetOr("Other") && r.value.category in Categories
              && r.value.published == PublishedOr(published)
              && r.value.insightful == 0 && r.value.notHelpful == 0
              && r.value.views == Some(0) && r.value.commentCount == 0
  {
    if title.None? || content.None? || content.value == [] then Failure(ServerError)
    else
      var stored := Text.Trim(title.value);
      Text.TrimEmptyIffBlank(title.value);
      Text.TrimIsTrimmed(title.value);
      var k := kind.GetOr("discussion");
      var c := category.GetOr("Other");
      if stored == [] || k !in Kinds || c !in Categories then Failure(ServerError)
      else Success(ContentItem(newId, author, stored, content.value, k, c, PublishedOr(published), Some(0), None, 0, 0, 0))
  }

  /** `POST /essays`: the essay `NewEssay` builds is stored under a fresh object
      id; a request the save rejects changes nothing. */
  method Create(db: Db, author: Id, title: Option<string>, content: Option<string>, kind: Option<string>,
                category: Option<string>, published: Option<bool>, newId: Id) returns (res: Result<ContentItem, Status>)
    requires db.Valid()
    requires forall j :: 0 <= j < |db.tables.essays| ==> db.tables.essays[j].id != newId
    requires forall k :: k in db.tables.essayReactions ==> k.target != newId
    modifies db
    ensures db.Valid()
    ensures res == NewEssay(newId, author, title, content, kind, category, published)
    ensures res.Failure? ==> db.tables == old(db.tables)
    ensures res.Success? ==> db.tables == old(db.tables).(essays := old(db.tables.essays) + [res.value])
  {
    res := NewEssay(newId, author, title, content, kind, category, published);
    if res.Success? {
      var t := db.tables;
      TallyUntargeted(t.essayReactions, newId, Insightful);
      TallyUntargeted(t.essayReactions, newId, NotHelpful);
      db.tables := t.(essays := t.essays + [res.value]);
    }
  }
}
