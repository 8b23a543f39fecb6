# To-do list Dashboard — a Dafny model

This project models the to-do list logic of the admin Dashboard page of a
small Laravel/MoonShine application. The page keeps one table, `todo_items`,
with one row per `TodoItem`. Each row has an id, a title, a description, a
`from`/`to` date range and a `sort_order`. The page offers four actions:

- `items` lists every item ascending by `sort_order`.
- `reorder` takes the comma-separated id list that a drag and drop sends in
  `data`. It gives the id at 0-based position `i` the sort order `i`, and it
  silently skips ids that have no item.
- `done` deletes the item with the given id, or does nothing when there is none.
- `save` validates that a title is present and non-blank. It then updates the
  item with the given id (title, description, `from`, `to`; the sort order is
  kept), or creates a new item when that id has none.

The table is an immutable `map<int, Item>` keyed by id. Each action is a pure
transition of that map.

- `wrappers.dfy` (`Wrappers`): `Option` and `Result`.
- `todo_items.dfy` (`TodoItems`): `Item`, `Store` and the invariant `Valid`
  (auto-increment ids are positive).
- `request_text.dfy` (`RequestText`): PHP's `explode(',', …)` as `Explode`,
  with `Join` as its inverse, and PHP's `(int)` cast of a token as `ParseId`,
  with `DecimalText` as its inverse.
- `dashboard.dfy` (`Dashboard`): the four actions. `Reorder` is a left fold of
  `SetSortOrder` over the ids. `Done` removes one key from the map. `Save` either
  updates a row or inserts one under a fresh key. `Items` is a method that
  selects rows in order of least sort order.
- `dashboard_properties.dfy` (`DashboardProperties`): frame conditions,
  idempotence, the wire format of `data`, what the listing shows after a drag
  and drop, and the create, drag and done walk-through.

Two facts about the table are not visible in the code, so the model keeps them
abstract:

- The id of a newly created row is the parameter `newId` of `Save`. It is only
  required to be positive and not already a key.
- The initial sort order of a new row comes from a column default. It is the
  parameter `initialOrder` of `Save`.

## Model

| member | source | states |
|---|---|---|
| RequestText.Explode | app/MoonShine/Pages/Dashboard.php:161 | cutting `data` at commas gives exactly one more piece than `data` has commas, and no piece contains a comma |
| RequestText.JoinExplode | app/MoonShine/Pages/Dashboard.php:161 | re-joining the pieces of `data` with commas gives `data` back |
| RequestText.ExplodeJoin | app/MoonShine/Pages/Dashboard.php:161 | cutting a comma-joined list of comma-free pieces gives back exactly those pieces |
| DashboardProperties.ExplodeShape | app/MoonShine/Pages/Dashboard.php:161 | the token list has one more element than there are commas, and it re-joins to the original string |
| RequestText.ParseId | app/MoonShine/Pages/Dashboard.php:163 | the `(int)` cast gives 0 for a token with no leading digits, and a negative id only for a token with a minus sign |
| RequestText.ParseDecimalText | app/MoonShine/Pages/Dashboard.php:163 | casting the decimal text of any id back to an integer gives that id |
| DashboardProperties.UnnumberedTokenIsUnknown | app/MoonShine/Pages/Dashboard.php:162-164 | with positive ids, a non-numeric or negative token casts to an id that has no item, so reorder skips it |
| Dashboard.SetSortOrder | app/MoonShine/Pages/Dashboard.php:162-164 | one loop step (look up the id, set its sort order to the position) changes only that item's sort order, and does nothing when the id has no item |
| Dashboard.Reorder | app/MoonShine/Pages/Dashboard.php:161-165 | reorder never adds or removes an item |
| Dashboard.ReorderEffect | app/MoonShine/Pages/Dashboard.php:161-165 | after reorder, each item keeps every field except the sort order. The sort order becomes the item's last position in the id list, or stays as it was if the id is not listed |
| DashboardProperties.ReorderSetsLastPosition | app/MoonShine/Pages/Dashboard.php:161-165 | a listed id with an item ends with the sort order of its last position in the list; an id listed once gets exactly its position |
| DashboardProperties.ReorderFrame | app/MoonShine/Pages/Dashboard.php:164 | reorder keeps the set of ids, never changes title, description, from or to, and leaves unlisted items entirely unchanged |
| DashboardProperties.ReorderIgnoresUnknown | app/MoonShine/Pages/Dashboard.php:162-164 | a token whose id has no item is skipped without error. Replacing it by another unknown id changes nothing, yet it still uses up its position |
| DashboardProperties.ReorderIdempotent | app/MoonShine/Pages/Dashboard.php:161-165 | applying the same id order twice gives the same table as applying it once |
| Dashboard.ReorderRequest | app/MoonShine/Pages/Dashboard.php:159-168 | the reorder action on a `data` string never adds or removes an item |
| DashboardProperties.ReorderRequestIdempotent | app/MoonShine/Pages/Dashboard.php:159-168 | sending the same `data` twice gives the same table as sending it once |
| DashboardProperties.ReorderRequestOfJoinedIds | app/MoonShine/Pages/Dashboard.php:161-165 | a non-empty id order sent as comma-joined decimal text is applied exactly as the id sequence itself |
| DashboardProperties.DragOrderIsListed | app/MoonShine/Pages/Dashboard.php:161-165 | after a drag and drop that names every item exactly once, every sorted listing shows the items in exactly the dragged order |
| DashboardProperties.ExampleRequest | app/MoonShine/Pages/Dashboard.php:161-163 | the request text "3,1,2" is applied as the ids 3, 1, 2 |
| DashboardProperties.ReorderExampleOrders | app/MoonShine/Pages/Dashboard.php:161-165 | ids 3, 1, 2 over items {1, 2, 3} give sort orders 0, 1, 2 to items 3, 1, 2 |
| DashboardProperties.ReorderExampleListing | app/MoonShine/Pages/Dashboard.php:161-165 | after ids 3, 1, 2 over items {1, 2, 3}, the listing is 3, 1, 2 |
| DashboardProperties.ReorderWithUnknownExample | app/MoonShine/Pages/Dashboard.php:161-165 | with ids 3, 99, 1, 2 over items {1, 2, 3}, id 99 is skipped but keeps position 1, so items 3, 1, 2 get orders 0, 2, 3 |
| Dashboard.Done | app/MoonShine/Pages/Dashboard.php:170-178 | done removes exactly the item with that id and leaves every other item unchanged. With no id, or an id that has no item, the table is unchanged |
| DashboardProperties.DoneIdempotent | app/MoonShine/Pages/Dashboard.php:172-174 | marking the same id done twice is the same as marking it done once |
| DashboardProperties.DoneCount | app/MoonShine/Pages/Dashboard.php:172-174 | done shrinks the table by one item when the id has one, and by none otherwise |
| Dashboard.Save | app/MoonShine/Pages/Dashboard.php:180-195 | save is refused exactly when the validated title (body first, then query string) is missing or blank. An existing id gets the written title, description, from and to (each query string first, then body) and keeps its sort order. Any other id adds exactly one new item under a fresh positive key. No other item changes |
| DashboardProperties.RefusedSaveIsTitleRequired | app/MoonShine/Pages/Dashboard.php:182-184 | a missing or blank validated title is rejected with a title error before any write |
| DashboardProperties.SaveStoresValidatedTitle | app/MoonShine/Pages/Dashboard.php:182-187 | when the title is sent in only one part of the request, or in both with the same value, the stored title is the validated one and is not blank |
| DashboardProperties.BlankQueryTitleIsStored | app/MoonShine/Pages/Dashboard.php:182-187 | a blank query-string title with a non-blank body title passes validation, and the blank one is stored |
| DashboardProperties.SaveUpdateIdempotent | app/MoonShine/Pages/Dashboard.php:186-191 | saving the same edit of an existing item twice leaves the table as after the first save |
| DashboardProperties.DoneUndoesCreate | app/MoonShine/Pages/Dashboard.php:186-191 | marking a freshly created item done gives back exactly the table from before the save |
| DashboardProperties.CreateTwiceAddsTwo | app/MoonShine/Pages/Dashboard.php:186-191 | submitting the create form twice adds two items with the same fields under two different keys |
| Dashboard.Items | app/MoonShine/Pages/Dashboard.php:95-100 | the listing is a permutation of the stored items, each with its current fields, ordered non-decreasingly by sort order |
| Dashboard.LeastSortOrderExists | app/MoonShine/Pages/Dashboard.php:97-99 | every non-empty set of ids has one whose item has the least sort order |
| DashboardProperties.CreateTwoThenSwapListing | app/MoonShine/Pages/Dashboard.php:159-195 | create item a, then item b, then drag b above a: the listing is b, a, with their titles |
| DashboardProperties.CreateTwoThenSwapThenDone | app/MoonShine/Pages/Dashboard.php:159-195 | after also marking a done, the listing is b alone |
| DashboardProperties.ActionsKeepValid | app/MoonShine/Pages/Dashboard.php:159-195 | reorder, done and save all keep every id positive |

An id with no item still uses up its position, because `each` passes every
token's own index. So with ids 3, 99, 1, 2 over items 1, 2 and 3, items 1 and 2
get sort orders 2 and 3 (see `ReorderWithUnknownExample`).

The save action validates one title and writes another. Validation reads the
whole input, where a value in the body overrides one in the query string. The
write reads each field with `get`, which takes the query string's value first.
The model keeps both parts of the request (`SaveRequest.query` and
`SaveRequest.body`). `SaveStoresValidatedTitle` shows that the two agree when
the title is sent in one place only. `BlankQueryTitleIsStored` shows a blank
query-string title that is stored while the body's title passes validation.

## Left out

- The page's UI wiring: `components`, `listFields`, `formFields`,
  `formComponent`, `updateListingEvents`, `getBreadcrumbs` and `getTitle`.
  They declare framework components and have no behaviour of their own.
- The JSON responses and their toast messages. They are presentation only.
- Storage failures. These propagate as an opaque server error and are not
  modelled.
- Concurrent requests. The source updates each reorder row independently, but
  the model applies each action as one step.
- `app/Models/TodoItem.php` is not part of this model. So the id that
  `updateOrCreate` gives a new row is only assumed to be fresh and positive, and the
  initial `sort_order` from the column default is a parameter. Whether a
  requested non-zero id with no row becomes the new key depends on the model's
  fillable attributes, which are not visible.
- Dashboard.Save: its precondition `newId > 0 && newId !in s` is stated for
  every call. The update path ignores `newId`. If the item model lets `id` be
  mass-assigned, a requested id with no item, including a negative one, would
  become the new key instead. The model does not cover that case. Both
  `ActionsKeepValid` and the negative-token half of `UnnumberedTokenIsUnknown`
  rest on keys being positive.
- Dashboard.Save: the route parameters, which the per-field lookup consults
  before the query string, are not modelled. Neither are uploaded files, which
  validation also sees. The id is taken as already read from the whole input.
- Dashboard.Save: values are stored as the request delivers them. The
  framework's request middleware (string trimming, empty string to null) is not
  modelled. The `required|string` rule is modelled as "present and not blank
  after PHP's trim". Because the title has type `Option<string>`, a non-string
  title cannot be expressed.
- Dates are opaque strings. Their parsing and the `d.m.Y H:i` display format
  are not modelled. The model does not check that `to` comes after `from`, and
  neither does the code.
- RequestText.ParseId: models PHP's `(int)` cast for leading whitespace, an
  optional sign and a run of digits. It leaves out exponent and fraction forms
  such as "1e3", which PHP reads as a float first. It also leaves out 64-bit
  saturation: ids are unbounded integers.
- Dashboard.Reorder: Laravel's `each` stops early when its callback returns
  `false`. Here the callback returns `null` for a missing row or `true` from
  `update`, so every token is visited. The model always visits every token, and
  does not model a model event that would cancel a save.
- Dashboard.Done: the item id of the request is an `Option<int>`. How the
  framework extracts it from the route or the input is not modelled.
- Dashboard.Items: the query leaves the order of equal sort orders open. The
  method picks one order, and its contract allows any order.
- `app/Providers/MoonShineServiceProvider.php` only registers pages with the
  framework, so it is not modelled.
- `database/seeders/DatabaseSeeder.php` writes one admin user, with a password
  hashed by `bcrypt`. That is a foreign call, so it is not modelled.
