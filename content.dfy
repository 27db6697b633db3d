/** The logic the post and essay routes share: the labelled reaction handler
    and the view counter of a detail fetch, over one content collection and
    its reaction table. */
module Content {
  import opened Wrappers
  import opened Ledger
  import opened Store

  /** The wire name of a reaction label. */
  function LabelOf(r: Reaction): string {
    match r
    case Insightful => "insightful"
    case NotHelpful => "notHelpful"
  }

  /** The request's `reactionType`, accepted only when it names a label. */
  function ParseReaction(name: string): (r: Option<Reaction>)
    ensures r.Some? <==> name == "insightful" || name == "notHelpful"
    ensures r.Some? ==> LabelOf(r.value) == name
  {
    if name == "insightful" then Some(Insightful)
    else if name == "notHelpful" then Some(NotHelpful)
    else None
  }

  /** The response of the reaction handler. */
  datatype Counts = Counts(insightful: int, notHelpful: int)

  function CountsOf(p: ContentItem): Counts {
    Counts(p.insightful, p.notHelpful)
  }

  /** `item[r]`, the counter of one name. */
  function Count(p: ContentItem, r: Reaction): int {
    match r
    case Insightful => p.insightful
    case NotHelpful => p.notHelpful
  }

  /** `item[r] += d`. */
  function AddTo(p: ContentItem, r: Reaction, d: int): (p': ContentItem)
    ensures Count(p', r) == Count(p, r) + d
    ensures forall o :: o != r ==> Count(p', o) == Count(p, o)
    ensures p'.id == p.id && p'.views == p.views && p'.author == p.author
  {
    match r
    case Insightful => p.(insightful := p.insightful + d)
    case NotHelpful => p.(notHelpful := p.notHelpful + d)
  }

  /** The counter updates of the three branches of the handler: a new row adds
      one, the same name again takes one away, a different name moves one
      unit from the old name to the new one. */
  function Bump(p: ContentItem, held: Option<Reaction>, r: Reaction): ContentItem {
    match held
    case None => AddTo(p, r, 1)
    case Some(o) => if o == r then AddTo(p, r, -1) else AddTo(AddTo(p, o, -1), r, 1)
  }

  /** The item's counters are the histogram of the rows for its id. */
  ghost predicate Tallied(p: ContentItem, rows: map<RowKey, Reaction>) {
    p.insightful == Tally(rows, p.id, Insightful) && p.notHelpful == Tally(rows, p.id, NotHelpful)
  }

  /** The central invariant of the ledger: when the counters match the rows
      before a request, the counter arithmetic keeps them matching after the
      row is written, created, switched or deleted. */
  lemma BumpTracksTally(p: ContentItem, rows: map<RowKey, Reaction>, user: Id, r: Reaction)
    requires Tallied(p, rows)
    ensures Tallied(Bump(p, Held(rows, Key(user, p.id)), r), Write(rows, Key(user, p.id), Step(Held(rows, Key(user, p.id)), r)))
  {
    var k := Key(user, p.id);
    TallyWrite(rows, k, Step(Held(rows, k), r), p.id, Insightful);
    TallyWrite(rows, k, Step(Held(rows, k), r), p.id, NotHelpful);
  }

  /** Under the invariant no counter is ever negative. */
  lemma TalliedCountersNonNegative(p: ContentItem, rows: map<RowKey, Reaction>)
    requires Tallied(p, rows)
    ensures p.insightful >= 0 && p.notHelpful >= 0
  {
  }

  /** A switch leaves one row, now holding the new name, takes one from the
      old counter, adds one to the new and keeps the sum of the two. */
  lemma SwitchMovesOneUnit(p: ContentItem, rows: map<RowKey, Reaction>, user: Id, r: Reaction)
    requires Held(rows, Key(user, p.id)).Some? && Held(rows, Key(user, p.id)) != Some(r)
    ensures var o := rows[Key(user, p.id)];
            var p' := Bump(p, Some(o), r);
            && Count(p', o) == Count(p, o) - 1 && Count(p', r) == Count(p, r) + 1
            && p'.insightful + p'.notHelpful == p.insightful + p.notHelpful
            && Write(rows, Key(user, p.id), Step(Some(o), r)) == rows[Key(user, p.id) := r]
  {
    var o := rows[Key(user, p.id)];
    assert o != r;
    assert o == Insightful || o == NotHelpful;
  }

  /** Two identical requests in a row, from NoReaction or from holding that
      same name, restore both the row and the counters. */
  lemma {:induction false} SameRequestTwiceRestores(p: ContentItem, rows: map<RowKey, Reaction>, user: Id, r: Reaction)
    requires Held(rows, Key(user, p.id)) == None || Held(rows, Key(user, p.id)) == Some(r)
    ensures var k := Key(user, p.id);
            var h := Held(rows, k);
            var rows1 := Write(rows, k, Step(h, r));
            var p1 := Bump(p, h, r);
            && Bump(p1, Held(rows1, k), r) == p
            && Write(rows1, k, Step(Held(rows1, k), r)) == rows
  {
    var k := Key(user, p.id);
    WriteStepTwice(rows, k, r);
    var h := Held(rows, k);
    assert Held(Write(rows, k, Step(h, r)), k) == Step(h, r);
  }

  /** What one reaction request does to a content collection and its table. */
  ghost predicate ReactSpec(items: seq<ContentItem>, rows: map<RowKey, Reaction>, user: Id, id: Id, name: string,
                            res: Result<Counts, Status>, items': seq<ContentItem>, rows': map<RowKey, Reaction>)
  {
    if ParseReaction(name).None? then
      res == Failure(BadRequest) && items' == items && rows' == rows
    else if IndexOf(items, ItemId, id).None? then
      res == Failure(NotFound) && items' == items && rows' == rows
    else
      var r := ParseReaction(name).value;
      var i := IndexOf(items, ItemId, id).value;
      var k := Key(user, id);
      && rows' == Write(rows, k, Step(Held(rows, k), r))
      && items' == items[i := Bump(items[i], Held(rows, k), r)]
      && res == Success(CountsOf(items'[i]))
  }

  /** `POST /:id/reaction` over one content collection and its reaction table:
      400 for an unknown name, 404 for a missing item, otherwise the row and the
      item's counters are updated and the new pair of counters is returned. */
  method ReactOn(items: seq<ContentItem>, rows: map<RowKey, Reaction>, user: Id, id: Id, name: string)
    returns (res: Result<Counts, Status>, items': seq<ContentItem>, rows': map<RowKey, Reaction>)
    ensures ReactSpec(items, rows, user, id, name, res, items', rows')
    ensures UniqueIds(items, ItemId) && ReactionsTallied(items, rows) ==>
              UniqueIds(items', ItemId) && ReactionsTallied(items', rows')
  {
    var reaction := ParseReaction(name);
    if reaction.None? {
      return Failure(BadRequest), items, rows;
    }
    var r := reaction.value;
    var k := Key(user, id);
    var existing := Held(rows, k);
    var found := IndexOf(items, ItemId, id);
    if found.None? {
      return Failure(NotFound), items, rows;
    }
    var i := found.value;
    var item := items[i];
    if existing.Some? {
      if existing.value == r {
        rows' := rows - {k};
        item := AddTo(item, r, -1);
      } else {
        var oldType := existing.value;
        rows' := rows[k := r];
        item := AddTo(item, oldType, -1);
        item := AddTo(item, r, 1);
      }
    } else {
      rows' := rows[k := r];
      item := AddTo(item, r, 1);
    }
    items' := items[i := item];
    res := Success(CountsOf(item));
    if UniqueIds(items, ItemId) && ReactionsTallied(items, rows) {
      PreserveTallies(items, rows, user, i, r);
    }
  }

  lemma PreserveTallies(items: seq<ContentItem>, rows: map<RowKey, Reaction>, user: Id, i: nat, r: Reaction)
    requires UniqueIds(items, ItemId) && ReactionsTallied(items, rows) && i < |items|
    ensures var k := Key(user, items[i].id);
            var items' := items[i := Bump(items[i], Held(rows, k), r)];
            UniqueIds(items', ItemId) && ReactionsTallied(items', Write(rows, k, Step(Held(rows, k), r)))
  {
    var k := Key(user, items[i].id);
    var rows' := Write(rows, k, Step(Held(rows, k), r));
    var items' := items[i := Bump(items[i], Held(rows, k), r)];
    BumpTracksTally(items[i], rows, user, r);
    forall j | 0 <= j < |items'|
      ensures Tallied(items'[j], rows')
    {
      if j != i {
        assert items[j].id != items[i].id;
        TallyWriteElsewhere(rows, k, Step(Held(rows, k), r), items[j].id, Insightful);
        TallyWriteElsewhere(rows, k, Step(Held(rows, k), r), items[j].id, NotHelpful);
      }
    }
  }

  /** `(item.views || 0)`: a missing view count reads as zero. */
  function ViewCount(p: ContentItem): int {
    p.views.GetOr(0)
  }

  /** What one detail fetch does to a content collection. */
  ghost predicate ViewSpec(items: seq<ContentItem>, id: Id, res: Result<ContentItem, Status>, items': seq<ContentItem>) {
    if IndexOf(items, ItemId, id).None? then
      res == Failure(NotFound) && items' == items
    else
      var i := IndexOf(items, ItemId, id).value;
      && |items'| == |items|
      && items'[i] == items[i].(views := Some(ViewCount(items[i]) + 1))
      && (forall j :: 0 <= j < |items| && j != i ==> items'[j] == items[j])
      && res == Success(items'[i])
  }

  /** `GET /:id`: 404 for a missing item, otherwise that item's view count goes
      up by exactly one and the item is returned; nothing else changes. */
  method ViewOn(items: seq<ContentItem>, id: Id) returns (res: Result<ContentItem, Status>, items': seq<ContentItem>)
    ensures ViewSpec(items, id, res, items')
    ensures res.Success? ==> ViewCount(res.value) == ViewCount(items[IndexOf(items, ItemId, id).value]) + 1
    ensures forall j :: 0 <= j < |items| && items[j].id != id ==> j < |items'| && items'[j] == items[j]
    ensures forall rows :: UniqueIds(items, ItemId) && ReactionsTallied(items, rows) ==>
              UniqueIds(items', ItemId) && ReactionsTallied(items', rows)
  {
    var found := IndexOf(items, ItemId, id);
    if found.None? {
      return Failure(NotFound), items;
    }
    var i := found.value;
    var item := items[i];
    item := item.(views := Some(ViewCount(item) + 1));
    ReplaceKeepsUnique(items, ItemId, i, item);
    items' := items[i := item];
    res := Success(item);
  }
}
