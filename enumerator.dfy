// The composite's enumerator: an outer cursor over the groups and an inner
// cursor over the current group's items.

module Enumeration {
  import opened Registry

  class FlatEnumerator<T> {
    /** The registry and group contents being enumerated; they do not change
        while the enumeration runs. */
    const groups: seq<GroupId>
    const store: Store<T>
    /** How many groups the outer cursor has moved onto; the current group is
        the last of them. */
    var started: nat
    /** How many items of the current group the inner cursor has passed. */
    var pos: nat
    /** The last MoveNext returned true, so the inner cursor is on an item. */
    var onItem: bool

    ghost predicate Valid()
      reads this
    {
      Resolves(groups, store) && started <= |groups| &&
      (started == 0 <==> |groups| == 0) &&
      (started == 0 ==> pos == 0) &&
      (0 < started ==> pos <= |store[groups[started - 1]]|) &&
      (onItem ==> 0 < started && 0 < pos)
    }

    /** The items passed so far, in order. */
    ghost function Yielded(): seq<T>
      reads this
      requires Valid()
    {
      Passed(groups, store, started, pos)
    }

    /** Moves the outer cursor onto the first group, if there is one. */
    constructor (groups: seq<GroupId>, store: Store<T>)
      requires Resolves(groups, store)
      ensures Valid() && this.groups == groups && this.store == store
      ensures Yielded() == [] && !HasCurrent()
    {
      this.groups, this.store := groups, store;
      started, pos, onItem := if |groups| > 0 then 1 else 0, 0, false;
      new;
      if |groups| > 0 {
        assert groups[..0] == [];
      }
    }

    /** The inner cursor has an item to show: the last MoveNext returned
        true. */
    predicate HasCurrent()
      reads this
      requires Valid()
    {
      onItem
    }

    /** The item the inner cursor is on: the last item passed, which is the
        item of the flattened view at that position. */
    function Current(): (x: T)
      reads this
      requires Valid() && HasCurrent()
      ensures 0 < |Yielded()| <= |Flatten(groups, store)|
      ensures x == Flatten(groups, store)[|Yielded()| - 1]
    {
      PassedLast(groups, store, started, pos);
      store[groups[started - 1]][pos - 1]
    }

    /** Advances to the next item, moving on through the groups (empty ones
        included) when the current one is used up. True exactly when an item
        was left: the next item of the flattened view, which is then
        Current(). */
    method MoveNext() returns (more: bool)
      requires Valid()
      modifies this
      decreases |groups| - started
      ensures Valid()
      ensures more <==> |old(Yielded())| < |Flatten(groups, store)|
      ensures HasCurrent() == more
      ensures more ==> Yielded() == old(Yielded()) + [Flatten(groups, store)[|old(Yielded())|]]
      ensures !more ==> Yielded() == old(Yielded()) == Flatten(groups, store)
    {
      PassedIsPrefix(groups, store, started, pos);
      if 0 < started && pos < |store[groups[started - 1]]| {
        PassedStep(groups, store, started, pos);
        pos, onItem := pos + 1, true;
        return true;
      }
      if started < |groups| {
        PassedNextGroup(groups, store, started);
        ghost var passed := Yielded();
        started, pos, onItem := started + 1, 0, false;
        assert Yielded() == passed;
        more := MoveNext();
        return;
      }
      if started > 0 {
        PassedAll(groups, store);
      }
      onItem := false;
      return false;
    }
  }

  /** The items passed once the outer cursor has moved onto `started` groups
      and the inner cursor has passed `pos` items of the last of them. */
  ghost function Passed<T>(gs: seq<GroupId>, store: Store<T>, started: nat, pos: nat): seq<T>
    requires Resolves(gs, store) && started <= |gs|
    requires 0 < started ==> pos <= |store[gs[started - 1]]|
  {
    if started == 0 then []
    else Flatten(gs[..started - 1], store) + store[gs[started - 1]][..pos]
  }

  /** What has been passed is where the flattened view begins; when the
      current group has an item left, it is the next item of the view. */
  lemma PassedIsPrefix<T>(gs: seq<GroupId>, store: Store<T>, started: nat, pos: nat)
    requires Resolves(gs, store) && started <= |gs|
    requires 0 < started ==> pos <= |store[gs[started - 1]]|
    ensures |Passed(gs, store, started, pos)| <= |Flatten(gs, store)|
    ensures Passed(gs, store, started, pos) == Flatten(gs, store)[..|Passed(gs, store, started, pos)|]
    ensures 0 < started && pos < |store[gs[started - 1]]| ==>
              |Passed(gs, store, started, pos)| < |Flatten(gs, store)| &&
              Flatten(gs, store)[|Passed(gs, store, started, pos)|] == store[gs[started - 1]][pos]
  {
    if started > 0 {
      var i := started - 1;
      var g := store[gs[i]];
      FlattenAt(gs, store, i);
      assert g == g[..pos] + g[pos..];
      assert Flatten(gs, store) == Flatten(gs[..i], store) + g[..pos] + (g[pos..] + Flatten(gs[i + 1..], store));
    }
  }

  /** Passing one more item of the current group appends that item. */
  lemma PassedStep<T>(gs: seq<GroupId>, store: Store<T>, started: nat, pos: nat)
    requires Resolves(gs, store) && 0 < started <= |gs|
    requires pos < |store[gs[started - 1]]|
    ensures Passed(gs, store, started, pos + 1) == Passed(gs, store, started, pos) + [store[gs[started - 1]][pos]]
  {
    var g := store[gs[started - 1]];
    assert g[..pos + 1] == g[..pos] + [g[pos]];
  }

  /** The last item passed is the item of the flattened view at that
      position. */
  lemma PassedLast<T>(gs: seq<GroupId>, store: Store<T>, started: nat, pos: nat)
    requires Resolves(gs, store) && 0 < started <= |gs|
    requires 0 < pos <= |store[gs[started - 1]]|
    ensures 0 < |Passed(gs, store, started, pos)| <= |Flatten(gs, store)|
    ensures Flatten(gs, store)[|Passed(gs, store, started, pos)| - 1] == store[gs[started - 1]][pos - 1]
  {
    PassedStep(gs, store, started, pos - 1);
    PassedIsPrefix(gs, store, started, pos - 1);
  }

  /** Moving from a used-up group onto the next one passes nothing new. */
  lemma PassedNextGroup<T>(gs: seq<GroupId>, store: Store<T>, started: nat)
    requires Resolves(gs, store) && 0 < started < |gs|
    ensures Passed(gs, store, started, |store[gs[started - 1]]|) == Passed(gs, store, started + 1, 0)
  {
    var i := started - 1;
    assert gs[..i + 1] == gs[..i] + [gs[i]];
    FlattenAppend(gs[..i], [gs[i]], store);
    assert Flatten([gs[i]], store) == store[gs[i]] + Flatten([], store);
    assert store[gs[i]][..|store[gs[i]]|] == store[gs[i]];
  }

  /** With the last group used up, everything has been passed. */
  lemma PassedAll<T>(gs: seq<GroupId>, store: Store<T>)
    requires Resolves(gs, store) && 0 < |gs|
    ensures Passed(gs, store, |gs|, |store[gs[|gs| - 1]]|) == Flatten(gs, store)
  {
    var i := |gs| - 1;
    assert gs == gs[..i] + [gs[i]];
    FlattenAppend(gs[..i], [gs[i]], store);
    assert Flatten([gs[i]], store) == store[gs[i]] + Flatten([], store);
    assert store[gs[i]][..|store[gs[i]]|] == store[gs[i]];
  }

  /** A foreach over the composite: the items the enumerator yields, in order,
      are exactly the flattened view. */
  method Enumerate<T>(groups: seq<GroupId>, store: Store<T>) returns (items: seq<T>)
    requires Resolves(groups, store)
    ensures items == Flatten(groups, store)
  {
    var e := new FlatEnumerator(groups, store);
    items := [];
    var more := e.MoveNext();
    while more
      invariant e.Valid() && e.groups == groups && e.store == store
      invariant more ==> e.HasCurrent() && e.Yielded() == items + [e.Current()]
      invariant !more ==> e.Yielded() == items == Flatten(groups, store)
      invariant |items| < |Flatten(groups, store)| || !more
      decreases |Flatten(groups, store)| - |items|
    {
      items := items + [e.Current()];
      more := e.MoveNext();
    }
  }
}
