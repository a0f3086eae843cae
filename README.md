# Composite observable collection, modelled in Dafny

`CompositeObservableCollection<T>` keeps an ordered registry of child groups
(each an observable list of `T`) and presents them as one flat sequence: the
groups' items, group after group. It raises notifications in two ways:

- for edits of the registry itself (`Insert`, `Add`, `RemoveAt`, `Remove`,
  the indexer's setter) it raises one notification carrying the group's
  items, at the group's *offset*, the item total of the groups before it;
  `Clear` raises one Reset, with no items and no index;
- for edits inside a group it is registered with, `ReceiveWeakEvent` re-raises
  the group's notification with every index moved by that group's offset,
  computed when the notification arrives.

Membership is by identity, and a group already in the registry is refused.

The model:

- `notifications.dfy` (`Notifications`): the notification variant `Change<P>`
  (Add, Remove, Replace, Move, Reset) and `Describes(c, before, after)`, what a
  notification says about the list it was raised for. `Describes` is the
  reference against which both kinds of notification are proved.
- `registry.dfy` (`Registry`): groups are handles (`GroupId`) into a `Store`
  map from handle to items, so identity is explicit. `Flatten` is the flat
  view. `Total`, `Offset` and `OffsetOf` are the three sums the class computes
  (`Sum`, `Take(index).Sum`, `TakeWhile(x != source).Sum`). `IndexOf` and
  `AnyContains` model the two lookups.
- `translation.dfy` (`Translation`): `Translate`, the `switch` of
  `ReceiveWeakEvent`, and the lemmas that each notification the composite
  raises describes the change of the flat view. Item-level notifications are
  translated. Group-level ones carry the group's items at its offset.
- `composite.dfy` (`Composite`): the class. `groups` is `_collection`.
  `subscribed` is the set of groups the composite is registered with as a
  listener. `log` is every raised notification, in order. Each method follows
  the source's order of steps, including what stays changed when it throws.
  `Count()` is the number of groups, not of items. Two verified clients
  exercise it: `ItemEditScenario` (an item edit in the second of two groups,
  re-raised at index 2) and `FailedInsertScenario` (an `Insert` past the end
  that fails but leaves the group registered with, so its edits are still
  re-raised).
- `enumerator.dfy` (`Enumeration`): the enumerator, with an outer cursor over
  the groups and an inner cursor over the current group's items. `MoveNext`
  recurses as the source does. `Enumerate` drives it like a `foreach`, and the
  items it collects are exactly `Flatten`.

Behaviour of the code that the model keeps, where a tidier reading would differ:

- `ReceiveWeakEvent` does not drop notifications from a group that is not in
  the registry. `TakeWhile` then sums every group, so the indices move by the
  whole flat length (`OffsetOf`).
- The re-raised notification's sender is the group, not the composite
  (`Notice.ItemChange` keeps the sender).
- The composite's own Add, Remove and Replace notifications pass the group
  list to the `IList` overload of the event-args constructor, so they carry
  the group's items, not the group (`Notice.GroupChange` over `Change<T>`).
  Their sender is the composite.
- The setter unregisters the old group before the duplicate check on the
  new one. A duplicate therefore fails with the old group still in place
  but no longer registered with.
- `Insert` registers with the group before `_collection.Insert` (the
  `Collection<T>.Insert` of the registry) checks the index.
  An index outside `0..Count` therefore fails with the group registered
  with but not a member, and its later notifications are re-raised past the
  end of the flat view.
- The copy constructor copies the registry but registers with no group.
- `Clear` unregisters only the groups in the registry.

After every call that ends normally, starting from a state where `subscribed`
equals the registry's members, the two still agree (`Synced`).

## Model

| member | source | states |
|---|---|---|
| `Registry.Total` | WpfComboBox/CompositeObservableCollection.cs:148 | the item total of the groups is the length of the flat view |
| `Registry.Offset` | WpfComboBox/CompositeObservableCollection.cs:124 | `Take(index).Sum` is the length of the flat view of the groups before `index`: 0 for `index <= 0`, the whole flat length for `index >= Count` |
| `Registry.GroupOccupiesSlice` | WpfComboBox/CompositeObservableCollection.cs:86 | group `i`'s items are exactly the slice of the flat view starting at `Offset(i)`, and the flat view before it is the groups before `i` |
| `Registry.IndexOf` | WpfComboBox/CompositeObservableCollection.cs:120 | the position of the first occurrence by identity, or -1 exactly when the group is not present |
| `Registry.TakeWhileOther` | WpfComboBox/CompositeObservableCollection.cs:106 | `TakeWhile(x != source)` gives the groups before `source`'s position, or every group when `source` is absent |
| `Registry.OffsetOf` | WpfComboBox/CompositeObservableCollection.cs:106 | for a member, the sum equals `Offset` at its position; for a non-member, the whole flat length |
| `Registry.AnyContains` | WpfComboBox/CompositeObservableCollection.cs:165 | some group holds `x` exactly when `x` is in the flat view |
| `Translation.Translate` | WpfComboBox/CompositeObservableCollection.cs:107-115 | same action and items; every index (both for Move) moved by the offset; Reset unchanged |
| `Translation.ForwardedEditMatchesFlatView` | WpfComboBox/CompositeObservableCollection.cs:104-116 | when a member's notification describes its edit, the notification re-raised with the offset looked up after the edit (equal to the one before it) describes the resulting change of the flat view (Add/Remove/Replace/Move shifted, Reset opaque) |
| `Translation.InsertMatchesFlatView` | WpfComboBox/CompositeObservableCollection.cs:122-128 | the Add carrying the group's items, raised at `Offset(i)` when it goes in at `i` (and, with `i == Count`, by `Add`) describes the change of the flat view |
| `Translation.RemoveMatchesFlatView` | WpfComboBox/CompositeObservableCollection.cs:130-144 | the Remove raised at `Offset(i)` carrying group `i`'s items describes the change of the flat view |
| `Translation.ReplaceMatchesFlatView` | WpfComboBox/CompositeObservableCollection.cs:81-92 | the Replace raised at `Offset(i)`, carrying the new and the old group's items, describes the change of the flat view |
| `Composite.CompositeCollection.constructor` | WpfComboBox/CompositeObservableCollection.cs:68-71 | empty registry, no registrations, nothing raised |
| `Composite.CompositeCollection.Copy` | WpfComboBox/CompositeObservableCollection.cs:73-76 | same groups in the same order, registered with none of them |
| `Composite.CompositeCollection.Count` | WpfComboBox/CompositeObservableCollection.cs:66 | the number of groups, which in a registry without duplicates is the number of distinct members |
| `Composite.CompositeCollection.At` | WpfComboBox/CompositeObservableCollection.cs:80 | the group at `index`, or out of range exactly when `index` is outside `0..Count-1` |
| `Composite.CompositeCollection.IndexOfGroup` | WpfComboBox/CompositeObservableCollection.cs:120 | a position holding `g`, or -1 exactly when `g` is not a member |
| `Composite.CompositeCollection.ContainsGroup` | WpfComboBox/CompositeObservableCollection.cs:164 | membership by identity |
| `Composite.CompositeCollection.ContainsItem` | WpfComboBox/CompositeObservableCollection.cs:165 | true exactly when the item is in the flat view |
| `Composite.CompositeCollection.AddCollection` | WpfComboBox/CompositeObservableCollection.cs:178-185 | a member is refused with no registration; otherwise the group is registered with |
| `Composite.CompositeCollection.RemoveCollection` | WpfComboBox/CompositeObservableCollection.cs:187-190 | the group is unregistered; nothing else changes |
| `Composite.CompositeCollection.SetAt` | WpfComboBox/CompositeObservableCollection.cs:81-92 | out of range changes nothing; the same group changes nothing and raises nothing; a duplicate fails after the old group is unregistered; otherwise the group is replaced in place, registrations swap, and one Replace carrying the new and the old group's items is raised at the offset, describing the change of the flat view |
| `Composite.CompositeCollection.Insert` | WpfComboBox/CompositeObservableCollection.cs:122-128 | a member is refused with nothing changed; an index outside `0..Count` fails with the group registered with; otherwise the group goes in at `index`, the others keep their order, and one Add carrying its items is raised at the offset computed before insertion, describing the change of the flat view; registrations and members still agree |
| `Composite.CompositeCollection.RemoveAt` | WpfComboBox/CompositeObservableCollection.cs:130-144 | out of range changes nothing; otherwise exactly that group is unregistered and removed, and one Remove carrying its items is raised at its offset before removal, describing the change of the flat view |
| `Composite.CompositeCollection.Add` | WpfComboBox/CompositeObservableCollection.cs:146-152 | a member is refused with nothing changed; otherwise the group is appended and registered with, and one Add carrying its items is raised at the flat length before appending, describing the change of the flat view |
| `Composite.CompositeCollection.Clear` | WpfComboBox/CompositeObservableCollection.cs:154-162 | every group in the registry is unregistered, the registry is empty, one Reset is raised |
| `Composite.CompositeCollection.Remove` | WpfComboBox/CompositeObservableCollection.cs:167-176 | false with nothing changed for a non-member; otherwise `RemoveAt(IndexOf(g))` (the group and its registration go, one Remove carrying its items is raised at its offset and describes the change of the flat view) and true |
| `Composite.CompositeCollection.ReceiveWeakEvent` | WpfComboBox/CompositeObservableCollection.cs:98-118 | exactly one notification is raised: the group's, translated by the offset looked up by identity now, with the group as sender; returns true |
| `Enumeration.FlatEnumerator.constructor` | WpfComboBox/CompositeObservableCollection.cs:25-32 | the outer cursor is on the first group, if any; nothing passed yet |
| `Enumeration.FlatEnumerator.MoveNext` | WpfComboBox/CompositeObservableCollection.cs:34-47 | true exactly when the flat view has an item left; that next item of the flat view is appended to what was passed and there is then a current item; skips used-up and empty groups; on false everything has been passed and there is no current item |
| `Enumeration.FlatEnumerator.Current` | WpfComboBox/CompositeObservableCollection.cs:21 | defined only while the last `MoveNext` returned true: the item of the flat view at the position of the last item passed |
| `Enumeration.PassedIsPrefix` | WpfComboBox/CompositeObservableCollection.cs:36-39 | what the cursors have passed is a prefix of the flat view, and the inner cursor's next item is the flat view's next item |
| `Enumeration.Enumerate` | WpfComboBox/CompositeObservableCollection.cs:95 | enumerating yields exactly the groups' items in registry order |

## Left out

- The weak-event machinery (`CollectionChangedEventManager`, the manager-type check in `ReceiveWeakEvent`, garbage collection). Registration is the set `subscribed`. Delivery is a call to `ReceiveWeakEvent`, which takes any sender, as the source does. Repeated registrations collapse: the framework's listener list keeps one entry per `AddListener` (a failed `Insert` of a group followed by `Add` of it registers twice, so its edits are re-raised twice, and one `RemoveListener` then leaves one entry), while `subscribed` holds a group at most once.
- Invoking the `CollectionChanged` delegates: raising a notification appends it to `log`.
- The payload of the composite's own notifications is the live group list, so an edit of the group after the notification shows through it; `log` keeps the group's items as they were when the notification was raised.
- Group contents are the `store` argument of each call. Groups are owned and edited outside the composite, so a call sees them as they are at that moment.
- The enumerator's `Reset` and `Dispose`, and enumeration while the registry or a group changes: the enumerator works on a fixed registry and store.
- `Enumeration.FlatEnumerator.Current`: its precondition requires that the last `MoveNext` returned true. Any other read is not modelled. In the source, with a registry that was empty when enumeration began, the inner enumerator stays null and every read throws `InvalidOperationException`; with a non-empty registry, a read returns the inner list enumerator's `Current`, which is `default(T)` before that enumerator's first `MoveNext` and after it ends.
- The `NotSupportedException` arm of the `switch`: `Change` has exactly the five actions.
- `null` groups: handles always denote a group.
- Item equality in `Contains(T)` is the element type's `Equals`; the model uses Dafny equality on `T`.
- `Registry.Total`: sums are unbounded integers, so a 32-bit overflow of an item total beyond 2^31 - 1 items is not modelled.
- `MainWindowViewModel`, `StoreLastSelectBehavior` and `RelayCommand`: UI wiring, not part of this model.
