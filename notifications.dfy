// Change notifications of an observable ordered sequence, and what each one
// says about the sequence it was raised for.

module Notifications {

  /** One collection-changed notification, over items of type `P`. Both a
      group's notifications and the composite's own carry items: the
      composite's Add, Remove and Replace carry the items of the group that
      went in or out. */
  datatype Change<P> =
    | Added(newItems: seq<P>, index: int)
    | Removed(oldItems: seq<P>, index: int)
    | Replaced(newItems: seq<P>, oldItems: seq<P>, index: int)
    | Moved(items: seq<P>, newIndex: int, oldIndex: int)
    | Reset

  /** The notification with every index set to 0: what remains is the
      action and the items it carries. */
  function Unindexed<P>(c: Change<P>): Change<P>
  {
    match c
    case Added(items, _) => Added(items, 0)
    case Removed(items, _) => Removed(items, 0)
    case Replaced(newItems, oldItems, _) => Replaced(newItems, oldItems, 0)
    case Moved(items, _, _) => Moved(items, 0, 0)
    case Reset => Reset
  }

  /** The indices a notification carries, new index first. */
  function Indices<P>(c: Change<P>): seq<int>
  {
    match c
    case Added(_, k) => [k]
    case Removed(_, k) => [k]
    case Replaced(_, _, k) => [k]
    case Moved(_, n, o) => [n, o]
    case Reset => []
  }

  /** `before` with `items` put in at position `k`. */
  function InsertAt<T>(before: seq<T>, k: nat, items: seq<T>): seq<T>
    requires k <= |before|
  {
    before[..k] + items + before[k..]
  }

  /** `before` with the `n` items from position `k` on taken out. */
  function CutAt<T>(before: seq<T>, k: nat, n: nat): seq<T>
    requires k + n <= |before|
  {
    before[..k] + before[k + n..]
  }

  /** `c` truthfully describes the edit that turned `before` into `after`:
      an Add puts its items in at its index, a Remove takes out the items it
      names from where they stood, a Replace swaps its old items for its new
      ones, a Move takes its items out at the old index and puts them back at
      the new index of what is left, and a Reset says only "anything may have
      changed". */
  ghost predicate Describes<T>(c: Change<T>, before: seq<T>, after: seq<T>)
  {
    match c
    case Added(items, k) =>
      0 <= k <= |before| && after == InsertAt(before, k, items)
    case Removed(items, k) =>
      0 <= k && k + |items| <= |before| && before[k..k + |items|] == items &&
      after == CutAt(before, k, |items|)
    case Replaced(newItems, oldItems, k) =>
      0 <= k && k + |oldItems| <= |before| && before[k..k + |oldItems|] == oldItems &&
      after == InsertAt(CutAt(before, k, |oldItems|), k, newItems)
    case Moved(items, n, o) =>
      0 <= o && o + |items| <= |before| && before[o..o + |items|] == items &&
      0 <= n <= |before| - |items| &&
      after == InsertAt(CutAt(before, o, |items|), n, items)
    case Reset => true
  }
}
