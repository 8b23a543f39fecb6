/**
 * The `todo_items` table: one TodoItem record per id.
 */
module TodoItems {
  import opened Wrappers

  /** A date-time bound exactly as the request carried it; the page never parses it. */
  type DateValue = string

  /** The mutable columns of a `todo_items` row. The id is the key under which it is stored. */
  datatype Item = Item(
    title: string,
    description: Option<string>,
    from: Option<DateValue>,
    to: Option<DateValue>,
    sortOrder: int)

  /** The whole table: at most one row per id. */
  type Store = map<int, Item>

  /** Ids come from the table's auto-increment counter, so every stored id is positive. */
  predicate Valid(s: Store)
  {
    forall id | id in s :: id > 0
  }
}
