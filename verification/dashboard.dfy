/**
 * The to-do list actions of the admin Dashboard page, each a transition of the
 * `todo_items` table: `reorder` (drag and drop), `done` (delete), `save`
 * (update or create from the modal form) and `items` (the listing).
 */
module Dashboard {
  import opened Wrappers
  import opened TodoItems
  import RequestText

  // ---------------------------------------------------------------------------
  // reorder
  // ---------------------------------------------------------------------------

  /**
   * One step of the reorder loop: the item with this id, if there is one, gets
   * the sort order `position`. A missing id makes the step do nothing.
   */
  function SetSortOrder(s: Store, id: int, position: int): (r: Store)
    ensures r.Keys == s.Keys
    ensures id in s ==> r[id].sortOrder == position
    ensures forall k | k in s :: r[k] == s[k].(sortOrder := r[k].sortOrder)
    ensures forall k | k in s && k != id :: r[k] == s[k]
  {
    if id in s then s[id := s[id].(sortOrder := position)] else s
  }

  /**
   * The ids in drag order, applied left to right: the id at 0-based position i
   * gets sort order i. Written as a fold that applies the last position last.
   */
  function Reorder(s: Store, ids: seq<int>): (r: Store)
    ensures r.Keys == s.Keys
    decreases |ids|
  {
    if |ids| == 0 then s
    else SetSortOrder(Reorder(s, ids[..|ids| - 1]), ids[|ids| - 1], |ids| - 1)
  }

  /** The position of the last occurrence of `id` in `ids`, if any. */
  function LastIndexOf(ids: seq<int>, id: int): (r: Option<nat>)
    ensures r.None? <==> id !in ids
    ensures r.Some? ==> r.value < |ids| && ids[r.value] == id
    ensures r.Some? ==> forall j :: r.value < j < |ids| ==> ids[j] != id
  {
    if |ids| == 0 then None
    else match LastIndexOf(ids[1..], id)
      case Some(j) => Some(j + 1)
      case None => if ids[0] == id then Some(0) else None
  }

  /**
   * The sort order an item should have after the ids are applied: its last
   * position in `ids`, or its current order when it is not listed.
   */
  function ExpectedOrder(ids: seq<int>, id: int, current: int): int
  {
    match LastIndexOf(ids, id)
    case Some(i) => i
    case None => current
  }

  lemma {:induction false} LastIndexOfIsLast(ids: seq<int>, id: int, k: nat)
    requires k < |ids| && ids[k] == id
    requires forall j :: k < j < |ids| ==> ids[j] != id
    ensures LastIndexOf(ids, id) == Some(k)
  {
  }

  lemma {:induction false} LastIndexOfSnoc(prefix: seq<int>, x: int, id: int)
    ensures LastIndexOf(prefix + [x], id)
         == if x == id then Some(|prefix|) else LastIndexOf(prefix, id)
  {
    var t := prefix + [x];
    if x == id {
      LastIndexOfIsLast(t, id, |prefix|);
    } else {
      match LastIndexOf(prefix, id)
      case Some(k) =>
        assert t[k] == id;
        LastIndexOfIsLast(t, id, k);
      case None =>
        assert id !in t;
    }
  }

  /**
   * What reorder does to each item: nothing is added or removed, and every item
   * keeps its fields except that its sort order becomes its last position in
   * `ids` when it is listed there.
   */
  lemma {:induction false} ReorderEffect(s: Store, ids: seq<int>)
    ensures Reorder(s, ids).Keys == s.Keys
    ensures forall id | id in s ::
      Reorder(s, ids)[id] == s[id].(sortOrder := ExpectedOrder(ids, id, s[id].sortOrder))
    decreases |ids|
  {
    if |ids| > 0 {
      var n := |ids| - 1;
      var prefix := ids[..n];
      assert ids == prefix + [ids[n]];
      ReorderEffect(s, prefix);
      forall id | id in s
        ensures Reorder(s, ids)[id] == s[id].(sortOrder := ExpectedOrder(ids, id, s[id].sortOrder))
      {
        LastIndexOfSnoc(prefix, ids[n], id);
      }
    }
  }

  /** PHP's `(int)` applied to every piece. */
  function ParseIds(tokens: seq<string>): seq<int>
  {
    seq(|tokens|, i requires 0 <= i < |tokens| => RequestText.ParseId(tokens[i]))
  }

  /** The reorder action: `data` is cut at commas and the pieces are applied as ids. */
  function ReorderRequest(s: Store, data: string): (r: Store)
    ensures r.Keys == s.Keys
  {
    Reorder(s, ParseIds(RequestText.Explode(data)))
  }

  // ---------------------------------------------------------------------------
  // done
  // ---------------------------------------------------------------------------

  /**
   * The done action: the item with the request's id is deleted. No id, or an id
   * with no item, leaves the table as it is.
   */
  function Done(s: Store, itemId: Option<int>): (r: Store)
    ensures itemId.Some? && itemId.value in s ==> r.Keys == s.Keys - {itemId.value}
    ensures itemId.None? || itemId.value !in s ==> r == s
    ensures forall id | id in r :: id in s && r[id] == s[id]
  {
    match itemId
    case Some(id) => if id in s then s - {id} else s
    case None => s
  }

  // ---------------------------------------------------------------------------
  // save
  // ---------------------------------------------------------------------------

  /** The `date` field of the form: a range with optional bounds. */
  datatype DateRange = DateRange(from: Option<DateValue>, to: Option<DateValue>)

  /** The form fields sent in one part of a request; a field not sent there is `None`. */
  datatype FormFields = FormFields(
    title: Option<string>,
    description: Option<string>,
    date: Option<DateRange>)

  /**
   * A save request. `id` is the form's id read as an integer from the whole
   * input, which is 0 when the form has no id. The form fields can arrive in the
   * query string, in the body, or in both.
   */
  datatype SaveRequest = SaveRequest(id: int, query: FormFields, body: FormFields)

  /** `first` when it is present, otherwise `second`. */
  function Prefer<T>(first: Option<T>, second: Option<T>): Option<T>
  {
    if first.Some? then first else second
  }

  /**
   * The title that validation checks. Validation sees the whole input, where a
   * value in the body overrides one in the query string.
   */
  function ValidatedTitle(req: SaveRequest): Option<string>
  {
    Prefer(req.body.title, req.query.title)
  }

  /**
   * The fields that are written. Each is read on its own, and that lookup
   * takes the query string's value before the body's.
   */
  function WrittenFields(req: SaveRequest): FormFields
  {
    FormFields(
      Prefer(req.query.title, req.body.title),
      Prefer(req.query.description, req.body.description),
      Prefer(req.query.date, req.body.date))
  }

  datatype SaveError = TitleRequired

  /** The `from` bound of the date field; absent when the date itself is absent. */
  function RangeFrom(date: Option<DateRange>): Option<DateValue>
  {
    match date
    case Some(d) => d.from
    case None => None
  }

  /** The `to` bound of the date field; absent when the date itself is absent. */
  function RangeTo(date: Option<DateRange>): Option<DateValue>
  {
    match date
    case Some(d) => d.to
    case None => None
  }

  /** The characters PHP's trim() removes: space, \t, \n, \r, NUL and \v. */
  predicate IsTrimmed(c: char)
  {
    c == ' ' || c == '\t' || c == '\n' || c == '\r' || c == '\0' || c as int == 11
  }

  predicate IsBlank(t: string)
  {
    forall i | 0 <= i < |t| :: IsTrimmed(t[i])
  }

  /** The `required|string` rule on the title: present and not blank after trim. */
  predicate TitleAccepted(title: Option<string>)
  {
    title.Some? && !IsBlank(title.value)
  }

  /**
   * The save action. A request whose validated title fails the rule is refused
   * before anything is written. Otherwise it updates or creates by id with the
   * written fields: an existing item gets their title, description and date
   * bounds and keeps its sort order; for an id with no item, one new item is
   * stored under the key `newId` that the table assigns, with the sort order
   * `initialOrder` that the table's column default supplies.
   */
  function Save(s: Store, req: SaveRequest, newId: int, initialOrder: int): (r: Result<Store, SaveError>)
    requires newId > 0 && newId !in s
    ensures r.Failure? <==> !TitleAccepted(ValidatedTitle(req))
    ensures r.Success? ==> WrittenFields(req).title.Some?
    ensures r.Success? && req.id in s ==>
      && r.value.Keys == s.Keys
      && r.value[req.id].title == WrittenFields(req).title.value
      && r.value[req.id].description == WrittenFields(req).description
      && r.value[req.id].from == RangeFrom(WrittenFields(req).date)
      && r.value[req.id].to == RangeTo(WrittenFields(req).date)
      && r.value[req.id].sortOrder == s[req.id].sortOrder
    ensures r.Success? && req.id !in s ==>
      var w := WrittenFields(req);
      && r.value.Keys == s.Keys + {newId}
      && r.value[newId] == Item(w.title.value, w.description, RangeFrom(w.date), RangeTo(w.date), initialOrder)
    ensures r.Success? ==> forall id | id in s && id != req.id :: id in r.value && r.value[id] == s[id]
  {
    if !TitleAccepted(ValidatedTitle(req)) then Failure(TitleRequired)
    else
      var w := WrittenFields(req);
      var fields := (w.title.value, w.description, RangeFrom(w.date), RangeTo(w.date));
      if req.id in s then
        Success(s[req.id := s[req.id].(title := fields.0, description := fields.1, from := fields.2, to := fields.3)])
      else
        Success(s[newId := Item(fields.0, fields.1, fields.2, fields.3, initialOrder)])
  }

  // ---------------------------------------------------------------------------
  // items
  // ---------------------------------------------------------------------------

  /** One line of the listing: an item together with its id. */
  datatype Row = Row(id: int, item: Item)

  /**
   * `rows` lists every item of `s` exactly once, with its current fields, in
   * non-decreasing sort order. Items with equal sort orders may come in any order.
   */
  ghost predicate IsListing(s: Store, rows: seq<Row>)
  {
    && |rows| == |s|
    && (forall i | 0 <= i < |rows| :: rows[i].id in s && s[rows[i].id] == rows[i].item)
    && (forall id | id in s :: exists i :: 0 <= i < |rows| && rows[i].id == id)
    && (forall i, j | 0 <= i < j < |rows| :: rows[i].id != rows[j].id)
    && (forall i, j | 0 <= i < j < |rows| :: rows[i].item.sortOrder <= rows[j].item.sortOrder)
  }

  lemma NonEmptyHasMember(ids: set<int>)
    requires ids != {}
    ensures exists x :: x in ids
  {
    if forall x :: x !in ids {
      assert false;
    }
  }

  /** Every non-empty set of ids has one whose item has the least sort order. */
  lemma {:induction false} LeastSortOrderExists(s: Store, ids: set<int>)
    requires ids != {} && ids <= s.Keys
    ensures exists id | id in ids :: forall other | other in ids :: s[id].sortOrder <= s[other].sortOrder
    decreases ids
  {
    NonEmptyHasMember(ids);
    var x :| x in ids;
    if ids != {x} {
      var rest := ids - {x};
      LeastSortOrderExists(s, rest);
      var y :| y in rest && forall other | other in rest :: s[y].sortOrder <= s[other].sortOrder;
      if s[x].sortOrder <= s[y].sortOrder {
        assert forall other | other in ids :: s[x].sortOrder <= s[other].sortOrder;
      } else {
        assert forall other | other in ids :: s[y].sortOrder <= s[other].sortOrder;
      }
    }
  }

  /**
   * `rows` is the beginning of a listing of `s` whose remaining ids are `rest`:
   * the rows listed so far are in order and none of them sorts after an item
   * still to be listed.
   */
  ghost predicate ListedSoFar(s: Store, rows: seq<Row>, rest: set<int>)
  {
    && rest <= s.Keys
    && |rows| + |rest| == |s|
    && (forall i | 0 <= i < |rows| :: rows[i].id in s && rows[i].id !in rest && s[rows[i].id] == rows[i].item)
    && (forall id | id in s && id !in rest :: exists i :: 0 <= i < |rows| && rows[i].id == id)
    && (forall i, j | 0 <= i < j < |rows| :: rows[i].id != rows[j].id)
    && (forall i, j | 0 <= i < j < |rows| :: rows[i].item.sortOrder <= rows[j].item.sortOrder)
    && (forall i, id | 0 <= i < |rows| && id in rest :: rows[i].item.sortOrder <= s[id].sortOrder)
  }

  /** Listing next an item of `rest` with the least sort order keeps `ListedSoFar`. */
  lemma {:induction false} ListLeast(s: Store, rows: seq<Row>, rest: set<int>, id: int)
    requires ListedSoFar(s, rows, rest)
    requires id in rest && forall other | other in rest :: s[id].sortOrder <= s[other].sortOrder
    ensures ListedSoFar(s, rows + [Row(id, s[id])], rest - {id})
  {
    var next := rows + [Row(id, s[id])];
    var left := rest - {id};
    assert next[|rows|].id == id;
    assert forall i | 0 <= i < |rows| :: next[i] == rows[i];
    assert |left| == |rest| - 1;
    forall i | 0 <= i < |next|
      ensures next[i].id in s && next[i].id !in left && s[next[i].id] == next[i].item
    {
    }
    forall k | k in s && k !in left
      ensures exists i :: 0 <= i < |next| && next[i].id == k
    {
      if k != id {
        var i :| 0 <= i < |rows| && rows[i].id == k;
        assert next[i].id == k;
      }
    }
    forall i, j | 0 <= i < j < |next|
      ensures next[i].id != next[j].id
    {
      if j == |rows| {
        assert rows[i].id !in rest;
      }
    }
    forall i, j | 0 <= i < j < |next|
      ensures next[i].item.sortOrder <= next[j].item.sortOrder
    {
      if j == |rows| {
        assert rows[i].item.sortOrder <= s[id].sortOrder;
      }
    }
    forall i, k | 0 <= i < |next| && k in left
      ensures next[i].item.sortOrder <= s[k].sortOrder
    {
      if i == |rows| {
        assert k in rest;
      }
    }
  }

  /** The listing query: every item, ascending by sort order. */
  method Items(s: Store) returns (rows: seq<Row>)
    ensures IsListing(s, rows)
  {
    rows := [];
    var rest := s.Keys;
    while rest != {}
      invariant ListedSoFar(s, rows, rest)
      decreases |rest|
    {
      LeastSortOrderExists(s, rest);
      var id :| id in rest && forall other | other in rest :: s[id].sortOrder <= s[other].sortOrder;
      ListLeast(s, rows, rest, id);
      rows := rows + [Row(id, s[id])];
      rest := rest - {id};
    }
  }
}
