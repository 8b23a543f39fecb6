/**
 * Properties of the Dashboard actions that relate several calls or state what a
 * whole action promises: frame conditions, idempotence, the wire format of the
 * reorder request, and what the listing shows after a drag and drop.
 */
module DashboardProperties {
  import opened Wrappers
  import opened TodoItems
  import opened RequestText
  import opened Dashboard

  // ---------------------------------------------------------------------------
  // reorder
  // ---------------------------------------------------------------------------

  /**
   * Every listed id that has an item ends at a position where it was listed,
   * and that is its last position: a later occurrence overrides an earlier one.
   */
  lemma {:induction false} ReorderSetsLastPosition(s: Store, ids: seq<int>)
    ensures forall i | 0 <= i < |ids| && ids[i] in s ::
      var p := Reorder(s, ids)[ids[i]].sortOrder;
      && i <= p < |ids|
      && ids[p] == ids[i]
      && (forall j | p < j < |ids| :: ids[j] != ids[i])
    ensures forall i | 0 <= i < |ids| && ids[i] in s && (forall j | i < j < |ids| :: ids[j] != ids[i]) ::
      Reorder(s, ids)[ids[i]].sortOrder == i
  {
    ReorderEffect(s, ids);
    forall i | 0 <= i < |ids| && ids[i] in s
      ensures Reorder(s, ids)[ids[i]].sortOrder == LastIndexOf(ids, ids[i]).value
    {
      assert ids[i] in ids;
    }
    forall i | 0 <= i < |ids| && ids[i] in s && (forall j | i < j < |ids| :: ids[j] != ids[i])
      ensures Reorder(s, ids)[ids[i]].sortOrder == i
    {
      LastIndexOfIsLast(ids, ids[i], i);
    }
  }

  /**
   * Reorder touches nothing but sort orders: no item appears or disappears,
   * title, description and dates never change, and an item whose id is not
   * listed keeps its sort order too.
   */
  lemma {:induction false} ReorderFrame(s: Store, ids: seq<int>)
    ensures Reorder(s, ids).Keys == s.Keys
    ensures forall id | id in s ::
      var it := Reorder(s, ids)[id];
      it.title == s[id].title && it.description == s[id].description
      && it.from == s[id].from && it.to == s[id].to
    ensures forall id | id in s && id !in ids :: Reorder(s, ids)[id] == s[id]
  {
    ReorderEffect(s, ids);
  }

  /** Applying the same order twice gives the same table as applying it once. */
  lemma {:induction false} ReorderIdempotent(s: Store, ids: seq<int>)
    ensures Reorder(Reorder(s, ids), ids) == Reorder(s, ids)
  {
    var once := Reorder(s, ids);
    var twice := Reorder(once, ids);
    ReorderEffect(s, ids);
    ReorderEffect(once, ids);
    forall id | id in once
      ensures twice[id] == once[id]
    {
    }
  }

  /** Sending the same `data` twice gives the same table as sending it once. */
  lemma {:induction false} ReorderRequestIdempotent(s: Store, data: string)
    ensures ReorderRequest(ReorderRequest(s, data), data) == ReorderRequest(s, data)
  {
    ReorderIdempotent(s, ParseIds(Explode(data)));
  }

  /**
   * A token whose id has no item is skipped without error: what it says does not
   * matter, although it still takes up its position in the order.
   */
  lemma {:induction false} ReorderIgnoresUnknown(s: Store, ids: seq<int>, i: nat, x: int)
    requires i < |ids| && ids[i] !in s && x !in s
    ensures Reorder(s, ids[i := x]) == Reorder(s, ids)
  {
    var other := ids[i := x];
    ReorderEffect(s, ids);
    ReorderEffect(s, other);
    forall id | id in s
      ensures Reorder(s, other)[id] == Reorder(s, ids)[id]
    {
      LastIndexOfUnaffected(ids, i, x, id);
    }
  }

  /** Overwriting a position that holds neither `id` nor becomes `id` leaves its last index alone. */
  lemma {:induction false} LastIndexOfUnaffected(ids: seq<int>, i: nat, x: int, id: int)
    requires i < |ids| && ids[i] != id && x != id
    ensures LastIndexOf(ids[i := x], id) == LastIndexOf(ids, id)
  {
    var other := ids[i := x];
    match LastIndexOf(ids, id)
    case Some(k) =>
      assert other[k] == id;
      LastIndexOfIsLast(other, id, k);
    case None =>
      forall k | 0 <= k < |other|
        ensures other[k] != id
      {
        if k != i {
          assert other[k] == ids[k];
        }
      }
  }

  /**
   * Under auto-increment ids, a token without digits, or with a minus sign, is
   * cast to an id that no item has, so reorder skips it.
   */
  lemma UnnumberedTokenIsUnknown(s: Store, token: string)
    requires Valid(s)
    requires !HasNumericPrefix(token) || IsNegated(token)
    ensures ParseId(token) !in s
  {
    if !HasNumericPrefix(token) {
      assert ParseId(token) == 0;
    } else {
      assert ParseId(token) <= 0;
    }
  }

  // ---------------------------------------------------------------------------
  // The `data` string of a reorder request
  // ---------------------------------------------------------------------------

  /** The ids in the decimal form the page sends. */
  function EncodeIds(ids: seq<int>): seq<string>
  {
    seq(|ids|, i requires 0 <= i < |ids| => DecimalText(ids[i]))
  }

  /** The pieces of `data` are one more than its commas and glue back into `data`. */
  lemma {:induction false} ExplodeShape(data: string)
    ensures |Explode(data)| == Occurrences(data, ',') + 1
    ensures Join(Explode(data)) == data
  {
    JoinExplode(data);
  }

  /**
   * A non-empty order sent as comma-joined decimal ids is applied exactly as
   * the ids themselves.
   */
  lemma {:induction false} ReorderRequestOfJoinedIds(s: Store, ids: seq<int>)
    requires |ids| > 0
    ensures ReorderRequest(s, Join(EncodeIds(ids))) == Reorder(s, ids)
  {
    var tokens := EncodeIds(ids);
    forall i | 0 <= i < |tokens|
      ensures ',' !in tokens[i]
    {
      DecimalTextHasNoComma(ids[i]);
    }
    ExplodeJoin(tokens);
    forall i | 0 <= i < |ids|
      ensures ParseIds(tokens)[i] == ids[i]
    {
      ParseDecimalText(ids[i]);
    }
    assert ParseIds(tokens) == ids;
  }

  // ---------------------------------------------------------------------------
  // What the listing shows after a drag and drop
  // ---------------------------------------------------------------------------

  /** `ids` names every item exactly once: the order a full drag and drop sends. */
  ghost predicate NamesEachItemOnce(s: Store, ids: seq<int>)
  {
    && (forall i | 0 <= i < |ids| :: ids[i] in s)
    && (forall id | id in s :: id in ids)
    && (forall i, j | 0 <= i < j < |ids| :: ids[i] != ids[j])
  }

  lemma {:induction false} DistinctElementCount(ids: seq<int>)
    requires forall i, j | 0 <= i < j < |ids| :: ids[i] != ids[j]
    ensures |set x | x in ids| == |ids|
    decreases |ids|
  {
    if |ids| > 0 {
      var n := |ids| - 1;
      var prefix := ids[..n];
      DistinctElementCount(prefix);
      assert (set x | x in ids) == (set x | x in prefix) + {ids[n]};
      assert ids[n] !in (set x | x in prefix);
    }
  }

  lemma {:induction false} IncreasingAtLeastIndex(v: seq<int>, i: nat)
    requires forall a, b | 0 <= a < b < |v| :: v[a] < v[b]
    requires forall a | 0 <= a < |v| :: 0 <= v[a]
    requires i < |v|
    ensures v[i] >= i
  {
    if i > 0 {
      IncreasingAtLeastIndex(v, i - 1);
    }
  }

  lemma {:induction false} IncreasingAtMostIndex(v: seq<int>, i: nat)
    requires forall a, b | 0 <= a < b < |v| :: v[a] < v[b]
    requires forall a | 0 <= a < |v| :: v[a] < |v|
    requires i < |v|
    ensures v[i] <= i
    decreases |v| - i
  {
    if i < |v| - 1 {
      IncreasingAtMostIndex(v, i + 1);
    }
  }

  lemma {:induction false} DragNamesAsManyAsItems(s: Store, ids: seq<int>)
    requires NamesEachItemOnce(s, ids)
    ensures |ids| == |s|
  {
    DistinctElementCount(ids);
    var named := set x | x in ids;
    forall x | x in named
      ensures x in s
    {
      var k :| 0 <= k < |ids| && ids[k] == x;
    }
    forall x | x in s
      ensures x in named
    {
      assert x in ids;
    }
    assert named == s.Keys;
  }

  /** The sort orders of a listing, top to bottom. */
  function ListedOrders(rows: seq<Row>): seq<int>
  {
    seq(|rows|, i requires 0 <= i < |rows| => rows[i].item.sortOrder)
  }

  /** After a full drag and drop, each listed item's sort order is its position in the drag. */
  lemma {:induction false} ListedOrderIsDragPosition(s: Store, ids: seq<int>, rows: seq<Row>)
    requires NamesEachItemOnce(s, ids)
    requires IsListing(Reorder(s, ids), rows)
    ensures forall i | 0 <= i < |rows| ::
      && 0 <= rows[i].item.sortOrder < |ids|
      && ids[rows[i].item.sortOrder] == rows[i].id
  {
    var r := Reorder(s, ids);
    ReorderEffect(s, ids);
    forall i | 0 <= i < |rows|
      ensures 0 <= rows[i].item.sortOrder < |ids| && ids[rows[i].item.sortOrder] == rows[i].id
    {
      var id := rows[i].id;
      assert id in s && r[id] == rows[i].item;
      assert id in ids;
      assert r[id].sortOrder == LastIndexOf(ids, id).value;
    }
  }

  /**
   * After a drag and drop that sends every item once, the listing shows the
   * items in exactly the dragged order.
   */
  lemma {:induction false} DragOrderIsListed(s: Store, ids: seq<int>, rows: seq<Row>)
    requires NamesEachItemOnce(s, ids)
    requires IsListing(Reorder(s, ids), rows)
    ensures |rows| == |ids|
    ensures forall i | 0 <= i < |rows| :: rows[i].id == ids[i]
  {
    DragNamesAsManyAsItems(s, ids);
    assert |rows| == |ids| by {
      assert |rows| == |Reorder(s, ids)| && Reorder(s, ids).Keys == s.Keys;
    }
    ListedOrderIsDragPosition(s, ids, rows);
    var v := ListedOrders(rows);
    forall a, b | 0 <= a < b < |v|
      ensures v[a] < v[b]
    {
      assert v[a] <= v[b];
      assert rows[a].id != rows[b].id;
    }
    forall i | 0 <= i < |rows|
      ensures rows[i].id == ids[i]
    {
      IncreasingAtLeastIndex(v, i);
      IncreasingAtMostIndex(v, i);
    }
  }

  /** The drag and drop "3,1,2" over items 1, 2 and 3: the request is the ids 3, 1, 2. */
  lemma ExampleRequest(s: Store)
    ensures ReorderRequest(s, "3,1,2") == Reorder(s, [3, 1, 2])
  {
    ReorderRequestOfJoinedIds(s, [3, 1, 2]);
    assert Join(EncodeIds([3, 1, 2])) == "3,1,2";
  }

  /** After "3,1,2" over items 1, 2 and 3 the items 3, 1, 2 have orders 0, 1, 2. */
  lemma ReorderExampleOrders(s: Store, ids: seq<int>)
    requires s.Keys == {1, 2, 3}
    requires |ids| == 3 && ids[0] == 3 && ids[1] == 1 && ids[2] == 2
    ensures Reorder(s, ids)[3].sortOrder == 0
    ensures Reorder(s, ids)[1].sortOrder == 1
    ensures Reorder(s, ids)[2].sortOrder == 2
  {
    ReorderEffect(s, ids);
    LastIndexOfIsLast(ids, 3, 0);
    LastIndexOfIsLast(ids, 1, 1);
    LastIndexOfIsLast(ids, 2, 2);
  }

  /** After "3,1,2" over items 1, 2 and 3 the listing shows 3, 1, 2. */
  lemma ReorderExampleListing(s: Store, ids: seq<int>, rows: seq<Row>)
    requires s.Keys == {1, 2, 3}
    requires |ids| == 3 && ids[0] == 3 && ids[1] == 1 && ids[2] == 2
    requires IsListing(Reorder(s, ids), rows)
    ensures |rows| == 3 && rows[0].id == 3 && rows[1].id == 1 && rows[2].id == 2
  {
    ExampleNamesEachItemOnce(s, ids);
    DragOrderIsListed(s, ids, rows);
  }

  lemma ExampleNamesEachItemOnce(s: Store, ids: seq<int>)
    requires s.Keys == {1, 2, 3}
    requires |ids| == 3 && ids[0] == 3 && ids[1] == 1 && ids[2] == 2
    ensures NamesEachItemOnce(s, ids)
  {
    forall id | id in s
      ensures id in ids
    {
      assert id == ids[0] || id == ids[1] || id == ids[2];
    }
  }

  /**
   * The order "3,99,1,2" over items 1, 2 and 3: 99 has no item and is skipped,
   * but it still occupies position 1, so items 1 and 2 get orders 2 and 3.
   */
  lemma ReorderWithUnknownExample(s: Store, ids: seq<int>)
    requires s.Keys == {1, 2, 3}
    requires |ids| == 4 && ids[0] == 3 && ids[1] == 99 && ids[2] == 1 && ids[3] == 2
    ensures Reorder(s, ids).Keys == {1, 2, 3}
    ensures Reorder(s, ids)[3].sortOrder == 0
    ensures Reorder(s, ids)[1].sortOrder == 2
    ensures Reorder(s, ids)[2].sortOrder == 3
  {
    ReorderEffect(s, ids);
    LastIndexOfIsLast(ids, 3, 0);
    LastIndexOfIsLast(ids, 1, 2);
    LastIndexOfIsLast(ids, 2, 3);
  }

  /** Two items created from the form on an empty table, under ids a and b. */
  function CreateTwo(first: SaveRequest, second: SaveRequest, a: int, b: int, orderA: int, orderB: int): (s: Store)
    requires TitleAccepted(ValidatedTitle(first)) && TitleAccepted(ValidatedTitle(second)) && first.id == 0 && second.id == 0
    requires 0 < a && 0 < b && a != b
    ensures s.Keys == {a, b}
    ensures s[a].title == WrittenFields(first).title.value && s[b].title == WrittenFields(second).title.value
  {
    var created := Save(map[], first, a, orderA).value;
    Save(created, second, b, orderB).value
  }

  /** The create-create flow followed by dragging b above a. */
  function CreateTwoThenSwap(first: SaveRequest, second: SaveRequest, a: int, b: int, orderA: int, orderB: int): Store
    requires TitleAccepted(ValidatedTitle(first)) && TitleAccepted(ValidatedTitle(second)) && first.id == 0 && second.id == 0
    requires 0 < a && 0 < b && a != b
  {
    ReorderRequest(CreateTwo(first, second, a, b, orderA, orderB), Join(EncodeIds([b, a])))
  }

  /** Create an item (id a), then a second one (id b), then drag b above a: every listing is b, a. */
  lemma CreateTwoThenSwapListing(first: SaveRequest, second: SaveRequest, a: int, b: int, orderA: int, orderB: int)
    requires TitleAccepted(ValidatedTitle(first)) && TitleAccepted(ValidatedTitle(second)) && first.id == 0 && second.id == 0
    requires 0 < a && 0 < b && a != b
    ensures forall rows: seq<Row> | IsListing(CreateTwoThenSwap(first, second, a, b, orderA, orderB), rows) ::
      && |rows| == 2 && rows[0].id == b && rows[1].id == a
      && rows[0].item.title == WrittenFields(second).title.value && rows[1].item.title == WrittenFields(first).title.value
  {
    var both := CreateTwo(first, second, a, b, orderA, orderB);
    var ids := [b, a];
    ReorderRequestOfJoinedIds(both, ids);
    SwapNamesEachItemOnce(both, ids, a, b);
    ReorderFrame(both, ids);
    forall rows: seq<Row> | IsListing(CreateTwoThenSwap(first, second, a, b, orderA, orderB), rows)
      ensures |rows| == 2 && rows[0].id == b && rows[1].id == a
      ensures rows[0].item.title == WrittenFields(second).title.value && rows[1].item.title == WrittenFields(first).title.value
    {
      DragOrderIsListed(both, ids, rows);
    }
  }

  lemma SwapNamesEachItemOnce(s: Store, ids: seq<int>, a: int, b: int)
    requires s.Keys == {a, b} && a != b
    requires |ids| == 2 && ids[0] == b && ids[1] == a
    ensures NamesEachItemOnce(s, ids)
  {
    forall id | id in s
      ensures id in ids
    {
      assert id == ids[0] || id == ids[1];
    }
  }

  /** Then marking a done leaves b alone in every listing. */
  lemma CreateTwoThenSwapThenDone(first: SaveRequest, second: SaveRequest, a: int, b: int, orderA: int, orderB: int)
    requires TitleAccepted(ValidatedTitle(first)) && TitleAccepted(ValidatedTitle(second)) && first.id == 0 && second.id == 0
    requires 0 < a && 0 < b && a != b
    ensures forall rows: seq<Row> | IsListing(Done(CreateTwoThenSwap(first, second, a, b, orderA, orderB), Some(a)), rows) ::
      |rows| == 1 && rows[0].id == b && rows[0].item.title == WrittenFields(second).title.value
  {
    var both := CreateTwo(first, second, a, b, orderA, orderB);
    var ids := [b, a];
    ReorderRequestOfJoinedIds(both, ids);
    ReorderFrame(both, ids);
    var left := Done(Reorder(both, ids), Some(a));
    assert left.Keys == {b};
    forall rows: seq<Row> | IsListing(left, rows)
      ensures |rows| == 1 && rows[0].id == b && rows[0].item.title == WrittenFields(second).title.value
    {
      assert rows[0].id in left;
    }
  }

  // ---------------------------------------------------------------------------
  // done
  // ---------------------------------------------------------------------------

  /** Marking an item done twice is the same as marking it done once. */
  lemma DoneIdempotent(s: Store, itemId: Option<int>)
    ensures Done(Done(s, itemId), itemId) == Done(s, itemId)
  {
  }

  /** Done removes exactly one item when the id has one, and none otherwise. */
  lemma DoneCount(s: Store, id: int)
    ensures id in s ==> |Done(s, Some(id))| == |s| - 1
    ensures id !in s ==> |Done(s, Some(id))| == |s|
  {
    if id in s {
      assert Done(s, Some(id)).Keys == s.Keys - {id};
    }
  }

  // ---------------------------------------------------------------------------
  // save
  // ---------------------------------------------------------------------------

  /** Marking a freshly created item done gives back the table from before the save. */
  lemma DoneUndoesCreate(s: Store, req: SaveRequest, newId: int, initialOrder: int)
    requires newId > 0 && newId !in s
    requires TitleAccepted(ValidatedTitle(req)) && req.id !in s
    ensures Done(Save(s, req, newId, initialOrder).value, Some(newId)) == s
  {
    var created := Save(s, req, newId, initialOrder).value;
    assert Done(created, Some(newId)).Keys == s.Keys;
  }

  /** Saving the same edit of an existing item twice changes nothing the second time. */
  lemma SaveUpdateIdempotent(s: Store, req: SaveRequest, newId: int, initialOrder: int)
    requires newId > 0 && newId !in s
    requires TitleAccepted(ValidatedTitle(req)) && req.id in s
    ensures Save(s, req, newId, initialOrder).Success?
    ensures Save(Save(s, req, newId, initialOrder).value, req, newId, initialOrder)
         == Save(s, req, newId, initialOrder)
  {
    var once := Save(s, req, newId, initialOrder).value;
    var twice := Save(once, req, newId, initialOrder).value;
    assert twice.Keys == once.Keys;
    forall id | id in once
      ensures twice[id] == once[id]
    {
    }
    assert twice == once;
  }

  /**
   * Submitting the create form twice creates two items: the request carries no
   * id of an item, so the second save does not find the first one.
   */
  lemma CreateTwiceAddsTwo(s: Store, req: SaveRequest, id1: int, id2: int, order1: int, order2: int)
    requires TitleAccepted(ValidatedTitle(req)) && req.id == 0 && Valid(s)
    requires id1 > 0 && id1 !in s && id2 > 0 && id2 != id1 && id2 !in s
    ensures Save(s, req, id1, order1).Success?
    ensures
      var twice := Save(Save(s, req, id1, order1).value, req, id2, order2);
      && twice.Success?
      && twice.value.Keys == s.Keys + {id1, id2}
      && twice.value[id1].(sortOrder := order2) == twice.value[id2]
  {
    var once := Save(s, req, id1, order1);
    assert once.value.Keys == s.Keys + {id1};
    assert 0 !in once.value;
    var twice := Save(once.value, req, id2, order2);
    assert twice.value.Keys == s.Keys + {id1, id2};
  }

  /** A refused save writes nothing: the request is rejected before any change. */
  lemma RefusedSaveIsTitleRequired(s: Store, req: SaveRequest, newId: int, initialOrder: int)
    requires newId > 0 && newId !in s
    requires ValidatedTitle(req).None? || IsBlank(ValidatedTitle(req).value)
    ensures Save(s, req, newId, initialOrder) == Failure(TitleRequired)
  {
  }

  /**
   * When the title is sent in one part of the request only, or in both with the
   * same value, the title that is stored is the one validation accepted.
   */
  lemma SaveStoresValidatedTitle(s: Store, req: SaveRequest, newId: int, initialOrder: int)
    requires newId > 0 && newId !in s
    requires req.query.title.None? || req.body.title.None? || req.query.title == req.body.title
    ensures Save(s, req, newId, initialOrder).Success? ==>
      var key := if req.id in s then req.id else newId;
      && key in Save(s, req, newId, initialOrder).value
      && Save(s, req, newId, initialOrder).value[key].title == ValidatedTitle(req).value
      && !IsBlank(Save(s, req, newId, initialOrder).value[key].title)
  {
  }

  /**
   * Validation and the write read the title from different places: a blank
   * title in the query string is stored when the body carries a non-blank one.
   */
  lemma BlankQueryTitleIsStored(s: Store, newId: int, initialOrder: int)
    requires Valid(s) && newId > 0 && newId !in s
    ensures
      var req := SaveRequest(0, FormFields(Some(" "), None, None), FormFields(Some("Buy milk"), None, None));
      && Save(s, req, newId, initialOrder).Success?
      && newId in Save(s, req, newId, initialOrder).value
      && Save(s, req, newId, initialOrder).value[newId].title == " "
      && IsBlank(Save(s, req, newId, initialOrder).value[newId].title)
  {
    var req := SaveRequest(0, FormFields(Some(" "), None, None), FormFields(Some("Buy milk"), None, None));
    assert 0 !in s;
    assert !IsBlank("Buy milk") by {
      assert !IsTrimmed("Buy milk"[0]);
    }
  }

  // ---------------------------------------------------------------------------
  // The table invariant
  // ---------------------------------------------------------------------------

  /** Every action keeps ids positive. */
  lemma ActionsKeepValid(s: Store, data: string, itemId: Option<int>, req: SaveRequest, newId: int, initialOrder: int)
    requires Valid(s)
    requires newId > 0 && newId !in s
    ensures Valid(ReorderRequest(s, data))
    ensures Valid(Done(s, itemId))
    ensures Save(s, req, newId, initialOrder).Success? ==> Valid(Save(s, req, newId, initialOrder).value)
  {
  }
}
