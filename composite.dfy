// The composite observable collection: a registry of groups that it presents
// as one flat sequence, the listener registrations it holds on its groups,
// and the notifications it raises.

module Composite {
  import opened Notifications
  import opened Registry
  import opened Translation

  /** How a call ends: normally, or with the exception the source throws. */
  datatype Status =
    | Done
    | DuplicateGroup   // ArgumentException: the group is already in the registry
    | IndexOutOfRange  // ArgumentOutOfRangeException

  /** The getter's answer: the group at a position, or the exception. */
  datatype Lookup = Found(group: GroupId) | NotInRange

  /** One raised notification. */
  datatype Notice<T> =
      /** Raised by the composite, as sender, about its registry; the items
          it carries are those of the group that went in or out. */
    | GroupChange(groupChange: Change<T>)
      /** Re-raised for a group's own notification, with the group as sender. */
    | ItemChange(sender: GroupId, itemChange: Change<T>)

  class CompositeCollection<T(==)> {
    /** The registry of groups, in order. */
    var groups: seq<GroupId>
    /** The groups this composite is registered with as a listener. */
    var subscribed: set<GroupId>
    /** Every notification raised so far, oldest first. */
    var log: seq<Notice<T>>

    /** No group is in the registry twice. */
    ghost predicate Valid()
      reads this
    {
      Distinct(groups)
    }

    /** Listener registrations and registry membership agree. */
    ghost predicate Synced()
      reads this
    {
      subscribed == Members(groups)
    }

    constructor ()
      ensures Valid() && Synced()
      ensures groups == [] && subscribed == {} && log == []
    {
      groups, subscribed, log := [], {}, [];
    }

    /** Copies the registry of `source` in order, and registers with none of
        its groups. */
    constructor Copy(source: CompositeCollection<T>)
      requires source.Valid()
      ensures Valid()
      ensures groups == source.groups && subscribed == {} && log == []
    {
      groups, subscribed, log := source.groups, {}, [];
    }

    /** Number of groups (not of items). */
    function Count(): (n: nat)
      reads this
      ensures Valid() ==> n == |Members(groups)|
    {
      assert Valid() ==> |Members(groups)| == |groups| by {
        if Valid() { DistinctMembers(groups); }
      }
      |groups|
    }

    /** The indexer's getter. */
    function At(index: int): (r: Lookup)
      reads this
      ensures r.Found? <==> 0 <= index < |groups|
      ensures r.Found? ==> r.group == groups[index]
    {
      if 0 <= index < |groups| then Found(groups[index]) else NotInRange
    }

    /** Position of `g` by identity, or -1. */
    function IndexOfGroup(g: GroupId): (r: int)
      reads this
      ensures -1 <= r < |groups|
      ensures r == -1 <==> g !in groups
      ensures 0 <= r ==> groups[r] == g
    {
      IndexOf(groups, g)
    }

    /** Contains, for a group: by identity. */
    function ContainsGroup(g: GroupId): (r: bool)
      reads this
      ensures r <==> g in Members(groups)
    {
      IndexOf(groups, g) >= 0
    }

    /** Contains, for an item: some group holds it. */
    function ContainsItem(x: T, store: Store<T>): (r: bool)
      reads this
      requires Resolves(groups, store)
      ensures r <==> x in Flatten(groups, store)
    {
      AnyContains(groups, store, x)
    }

    /** Registers with `g`, unless `g` is already in the registry. */
    method AddCollection(g: GroupId) returns (status: Status)
      modifies this`subscribed
      ensures status == if g in groups then DuplicateGroup else Done
      ensures subscribed == if g in groups then old(subscribed) else old(subscribed) + {g}
    {
      if ContainsGroup(g) {
        return DuplicateGroup;
      }
      subscribed := subscribed + {g};
      status := Done;
    }

    /** Unregisters from `g`; a group not registered with is ignored. */
    method RemoveCollection(g: GroupId)
      modifies this`subscribed
      ensures subscribed == old(subscribed) - {g}
    {
      subscribed := subscribed - {g};
    }

    /** The indexer's setter. A position out of range fails before anything
        changes, and a group already in place changes nothing. Otherwise the
        old group is unregistered first; when the new group is already a
        member elsewhere the call then fails with the old group still in
        place but no longer registered with. */
    method SetAt(index: int, value: GroupId, store: Store<T>) returns (status: Status)
      requires Valid() && Resolves(groups, store) && value in store
      modifies this
      ensures Valid() && Resolves(groups, store)
      ensures status == (if !(0 <= index < |old(groups)|) then IndexOutOfRange
                         else if old(groups)[index] == value then Done
                         else if value in old(groups) then DuplicateGroup
                         else Done)
      ensures !(0 <= index < |old(groups)|) || old(groups)[index] == value ==>
                groups == old(groups) && subscribed == old(subscribed) && log == old(log)
      ensures status == DuplicateGroup ==>
                groups == old(groups) && log == old(log) &&
                subscribed == old(subscribed) - {old(groups)[index]}
      ensures 0 <= index < |old(groups)| && old(groups)[index] != value && status == Done ==>
                groups == old(groups)[index := value] &&
                subscribed == old(subscribed) - {old(groups)[index]} + {value} &&
                log == old(log) + [GroupChange(Replaced(store[value], store[old(groups)[index]], Offset(old(groups), store, index)))] &&
                Describes(Replaced(store[value], store[old(groups)[index]], Offset(old(groups), store, index)),
                          Flatten(old(groups), store), Flatten(groups, store))
      ensures old(Synced()) && status == Done ==> Synced()
    {
      var current := At(index);
      if current.NotInRange? {
        return IndexOutOfRange;
      }
      var previous := current.group;
      if previous == value {
        return Done;
      }
      var count := Offset(groups, store, index);
      RemoveCollection(previous);
      status := AddCollection(value);
      if status == DuplicateGroup {
        return;
      }
      MembersReplace(groups, index, value);
      ReplaceMatchesFlatView(groups, store, index, value);
      groups := groups[index := value];
      log := log + [GroupChange(Replaced(store[value], store[previous], count))];
    }

    /** Puts `g` in at position `index`. A member is refused before anything
        changes. Registration with `g` comes before the range check, so an
        index outside 0..Count fails with `g` registered with but not in the
        registry. */
    method Insert(index: int, g: GroupId, store: Store<T>) returns (status: Status)
      requires Valid() && Resolves(groups, store) && g in store
      modifies this
      ensures Valid() && Resolves(groups, store)
      ensures status == (if g in old(groups) then DuplicateGroup
                         else if !(0 <= index <= |old(groups)|) then IndexOutOfRange
                         else Done)
      ensures status == DuplicateGroup ==>
                groups == old(groups) && subscribed == old(subscribed) && log == old(log)
      ensures status == IndexOutOfRange ==>
                groups == old(groups) && subscribed == old(subscribed) + {g} && log == old(log)
      ensures status == Done ==>
                groups == old(groups)[..index] + [g] + old(groups)[index..] &&
                subscribed == old(subscribed) + {g} &&
                log == old(log) + [GroupChange(Added(store[g], Offset(old(groups), store, index)))] &&
                Describes(Added(store[g], Offset(old(groups), store, index)), Flatten(old(groups), store), Flatten(groups, store))
      ensures old(Synced()) && status == Done ==> Synced()
    {
      var count := Offset(groups, store, index);
      status := AddCollection(g);
      if status == DuplicateGroup {
        return;
      }
      if !(0 <= index <= |groups|) {
        return IndexOutOfRange;
      }
      MembersInsert(groups, index, g);
      InsertMatchesFlatView(groups, store, index, g);
      groups := groups[..index] + [g] + groups[index..];
      log := log + [GroupChange(Added(store[g], count))];
    }

    /** The state once the group at `index` of registry `gs` has been taken
        out: it is gone from the registry and from the registrations, and one
        Remove carrying its items was raised at its offset, which describes
        the change of the flattened view. */
    ghost predicate RemovedFrom(gs: seq<GroupId>, subs: set<GroupId>, notices: seq<Notice<T>>, index: int, store: Store<T>)
      reads this
      requires Resolves(gs, store) && 0 <= index < |gs|
    {
      groups == gs[..index] + gs[index + 1..] &&
      subscribed == subs - {gs[index]} &&
      log == notices + [GroupChange(Removed(store[gs[index]], Offset(gs, store, index)))] &&
      Resolves(groups, store) &&
      Describes(Removed(store[gs[index]], Offset(gs, store, index)), Flatten(gs, store), Flatten(groups, store))
    }

    /** Takes out the group at `index`, after checking the range. */
    method RemoveAt(index: int, store: Store<T>) returns (status: Status)
      requires Valid() && Resolves(groups, store)
      modifies this
      ensures Valid()
      ensures status == if 0 <= index < |old(groups)| then Done else IndexOutOfRange
      ensures status == IndexOutOfRange ==>
                groups == old(groups) && subscribed == old(subscribed) && log == old(log)
      ensures status == Done ==> RemovedFrom(old(groups), old(subscribed), old(log), index, store)
      ensures old(Synced()) && status == Done ==> Synced()
    {
      if 0 <= index < Count() {
        var count := Offset(groups, store, index);
        var item := groups[index];
        RemoveCollection(item);
        MembersRemove(groups, index);
        RemoveMatchesFlatView(groups, store, index);
        groups := groups[..index] + groups[index + 1..];
        log := log + [GroupChange(Removed(store[item], count))];
        status := Done;
      } else {
        status := IndexOutOfRange;
      }
    }

    /** Appends `g`; a member is refused before anything changes. */
    method Add(g: GroupId, store: Store<T>) returns (status: Status)
      requires Valid() && Resolves(groups, store) && g in store
      modifies this
      ensures Valid() && Resolves(groups, store)
      ensures status == if g in old(groups) then DuplicateGroup else Done
      ensures status == DuplicateGroup ==>
                groups == old(groups) && subscribed == old(subscribed) && log == old(log)
      ensures status == Done ==>
                groups == old(groups) + [g] &&
                subscribed == old(subscribed) + {g} &&
                log == old(log) + [GroupChange(Added(store[g], |Flatten(old(groups), store)|))] &&
                Describes(Added(store[g], |Flatten(old(groups), store)|), Flatten(old(groups), store), Flatten(groups, store))
      ensures old(Synced()) && status == Done ==> Synced()
    {
      var count := Total(groups, store);
      status := AddCollection(g);
      if status == DuplicateGroup {
        return;
      }
      MembersInsert(groups, |groups|, g);
      InsertMatchesFlatView(groups, store, |groups|, g);
      assert groups[..|groups|] + [g] + groups[|groups|..] == groups + [g];
      groups := groups + [g];
      log := log + [GroupChange(Added(store[g], count))];
    }

    /** Unregisters from every group in the registry, empties it, and raises
        one Reset. */
    method Clear()
      requires Valid()
      modifies this
      ensures Valid()
      ensures groups == []
      ensures subscribed == old(subscribed) - Members(old(groups))
      ensures log == old(log) + [GroupChange(Reset)]
      ensures old(Synced()) ==> Synced() && subscribed == {}
    {
      var k := 0;
      while k < |groups|
        invariant 0 <= k <= |groups|
        invariant groups == old(groups) && log == old(log)
        invariant subscribed == old(subscribed) - Members(groups[..k])
      {
        assert groups[..k + 1] == groups[..k] + [groups[k]];
        RemoveCollection(groups[k]);
        k := k + 1;
      }
      assert groups[..k] == groups;
      groups := [];
      log := log + [GroupChange(Reset)];
    }

    /** Remove, for a group: by identity; false when it is not a member. */
    method Remove(g: GroupId, store: Store<T>) returns (removed: bool)
      requires Valid() && Resolves(groups, store)
      modifies this
      ensures Valid()
      ensures removed <==> g in old(groups)
      ensures !removed ==>
                groups == old(groups) && subscribed == old(subscribed) && log == old(log)
      ensures removed ==> RemovedFrom(old(groups), old(subscribed), old(log), IndexOf(old(groups), g), store)
      ensures old(Synced()) && removed ==> Synced()
    {
      var index := IndexOfGroup(g);
      if index >= 0 {
        var status := RemoveAt(index, store);
        removed := true;
      } else {
        removed := false;
      }
    }

    /** ReceiveWeakEvent: re-raises a notification of group `sender` with its
        indices moved by the item total of the groups before `sender`,
        computed now. A sender that is not in the registry is not filtered
        out: it gets the item total of every group. */
    method ReceiveWeakEvent(sender: GroupId, change: Change<T>, store: Store<T>) returns (handled: bool)
      requires Resolves(groups, store)
      modifies this`log
      ensures handled
      ensures log == old(log) + [ItemChange(sender, Translate(change, OffsetOf(groups, store, sender)))]
    {
      var count := OffsetOf(groups, store, sender);
      log := log + [ItemChange(sender, Translate(change, count))];
      handled := true;
    }
  }

  /** Groups A = ["a", "b"] and B = ["c"]; "z" goes in at the front of B, and
      the composite re-raises that Add at index 2. */
  method ItemEditScenario(a: GroupId, b: GroupId, store: Store<string>)
    requires a != b && a in store && b in store
    requires store[a] == ["a", "b"] && store[b] == ["c"]
  {
    var c := new CompositeCollection<string>();
    var status := c.Add(a, store);
    status := c.Add(b, store);
    assert c.groups == [a, b];

    var edited := store[b := ["z", "c"]];
    var handled := c.ReceiveWeakEvent(b, Added(["z"], 0), edited);
    assert c.log[2] == ItemChange(b, Added(["z"], 2));
  }

  /** An Insert past the end fails but leaves its group registered with; that
      group's next Add is then re-raised past the end of the flat view. */
  method FailedInsertScenario(a: GroupId, x: GroupId, store: Store<string>)
    requires a != x && a in store && x in store
    requires store[a] == ["a", "b"]
  {
    var c := new CompositeCollection<string>();
    var status := c.Add(a, store);
    status := c.Insert(5, x, store);
    assert status == IndexOutOfRange && x in c.subscribed && x !in c.groups;
    var handled := c.ReceiveWeakEvent(x, Added(["q"], 0), store);
    assert c.log[1] == ItemChange(x, Added(["q"], 2));
  }
}
