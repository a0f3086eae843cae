// Translating a group's notification into the composite's index space, and
// why the translated notification, and the composite's own group-level
// notifications, describe the change to the flattened view.

module Translation {
  import opened Notifications
  import opened Registry

  /** The notification re-raised for one a group raised: same action, same
      items, every index moved forward by `offset`; a Reset goes through as
      it is. */
  function Translate<T>(c: Change<T>, offset: int): (r: Change<T>)
    ensures Unindexed(r) == Unindexed(c)
    ensures |Indices(r)| == |Indices(c)|
    ensures forall j :: 0 <= j < |Indices(c)| ==> Indices(r)[j] == Indices(c)[j] + offset
  {
    match c
    case Added(items, k) => Added(items, offset + k)
    case Removed(items, k) => Removed(items, offset + k)
    case Replaced(newItems, oldItems, k) => Replaced(newItems, oldItems, offset + k)
    case Moved(items, n, o) => Moved(items, offset + n, offset + o)
    case Reset => c
  }

  lemma InsertInContext<T>(a: seq<T>, s: seq<T>, b: seq<T>, k: nat, items: seq<T>)
    requires k <= |s|
    ensures InsertAt(a + s + b, |a| + k, items) == a + InsertAt(s, k, items) + b
  {
    assert (a + s + b)[..|a| + k] == a + s[..k];
    assert (a + s + b)[|a| + k..] == s[k..] + b;
  }

  lemma CutInContext<T>(a: seq<T>, s: seq<T>, b: seq<T>, k: nat, n: nat)
    requires k + n <= |s|
    ensures (a + s + b)[|a| + k..|a| + k + n] == s[k..k + n]
    ensures CutAt(a + s + b, |a| + k, n) == a + CutAt(s, k, n) + b
  {
    assert (a + s + b)[..|a| + k] == a + s[..k];
    assert (a + s + b)[|a| + k + n..] == s[k + n..] + b;
  }

  lemma AddedInContext<T>(a: seq<T>, s: seq<T>, s': seq<T>, b: seq<T>, items: seq<T>, k: int)
    requires Describes(Added(items, k), s, s')
    ensures Describes(Added(items, |a| + k), a + s + b, a + s' + b)
  {
    InsertInContext(a, s, b, k, items);
  }

  lemma RemovedInContext<T>(a: seq<T>, s: seq<T>, s': seq<T>, b: seq<T>, items: seq<T>, k: int)
    requires Describes(Removed(items, k), s, s')
    ensures Describes(Removed(items, |a| + k), a + s + b, a + s' + b)
  {
    CutInContext(a, s, b, k, |items|);
  }

  lemma ReplacedInContext<T>(a: seq<T>, s: seq<T>, s': seq<T>, b: seq<T>, newItems: seq<T>, oldItems: seq<T>, k: int)
    requires Describes(Replaced(newItems, oldItems, k), s, s')
    ensures Describes(Replaced(newItems, oldItems, |a| + k), a + s + b, a + s' + b)
  {
    CutInContext(a, s, b, k, |oldItems|);
    InsertInContext(a, CutAt(s, k, |oldItems|), b, k, newItems);
  }

  lemma MovedInContext<T>(a: seq<T>, s: seq<T>, s': seq<T>, b: seq<T>, items: seq<T>, n: int, o: int)
    requires Describes(Moved(items, n, o), s, s')
    ensures Describes(Moved(items, |a| + n, |a| + o), a + s + b, a + s' + b)
  {
    var whole, rest := a + s + b, CutAt(s, o, |items|);
    assert s' == InsertAt(rest, n, items);
    CutInContext(a, s, b, o, |items|);
    assert whole[|a| + o..|a| + o + |items|] == items;
    assert CutAt(whole, |a| + o, |items|) == a + rest + b;
    InsertInContext(a, rest, b, n, items);
    assert InsertAt(CutAt(whole, |a| + o, |items|), |a| + n, items) == a + s' + b;
  }

  /** An edit of `s` that `c` describes, seen inside `a + s + b`, is
      described by `c` shifted by `|a|`. */
  lemma DescribesInContext<T>(c: Change<T>, a: seq<T>, s: seq<T>, s': seq<T>, b: seq<T>)
    requires Describes(c, s, s')
    ensures Describes(Translate(c, |a|), a + s + b, a + s' + b)
  {
    match c
    case Added(items, k) =>
      assert Translate(c, |a|) == Added(items, |a| + k);
      AddedInContext(a, s, s', b, items, k);
    case Removed(items, k) =>
      assert Translate(c, |a|) == Removed(items, |a| + k);
      RemovedInContext(a, s, s', b, items, k);
    case Replaced(newItems, oldItems, k) =>
      assert Translate(c, |a|) == Replaced(newItems, oldItems, |a| + k);
      ReplacedInContext(a, s, s', b, newItems, oldItems, k);
    case Moved(items, n, o) =>
      assert Translate(c, |a|) == Moved(items, |a| + n, |a| + o);
      MovedInContext(a, s, s', b, items, n, o);
    case Reset =>
  }

  /** An item-level edit of the member at position `i`, re-raised with the
      offset looked up by identity at delivery time (after the edit, which
      leaves the groups before `i` as they were), describes the change of
      the flattened view. The registry must hold no duplicates: a group that
      appeared twice would change two slices of the view at once. */
  lemma ForwardedEditMatchesFlatView<T>(gs: seq<GroupId>, store: Store<T>, i: int, c: Change<T>, s': seq<T>)
    requires Resolves(gs, store) && Distinct(gs) && 0 <= i < |gs|
    requires Describes(c, store[gs[i]], s')
    ensures Resolves(gs, store[gs[i] := s'])
    ensures OffsetOf(gs, store[gs[i] := s'], gs[i]) == OffsetOf(gs, store, gs[i])
    ensures Describes(Translate(c, OffsetOf(gs, store[gs[i] := s'], gs[i])),
                      Flatten(gs, store), Flatten(gs, store[gs[i] := s']))
  {
    var g := gs[i];
    var store' := store[g := s'];
    IndexOfDistinct(gs, i);
    assert g !in gs[..i] && g !in gs[i + 1..];
    FlattenAt(gs, store, i);
    FlattenAt(gs, store', i);
    FlattenFrame(gs[..i], store, g, s');
    FlattenFrame(gs[i + 1..], store, g, s');
    DescribesInContext(c, Flatten(gs[..i], store), store[g], s', Flatten(gs[i + 1..], store));
  }

  /** The Add the composite raises when group `g` goes in at position `i`,
      read as carrying `g`'s items, describes the change of the flattened
      view; Add(g) is the case `i == |gs|`. */
  lemma InsertMatchesFlatView<T>(gs: seq<GroupId>, store: Store<T>, i: int, g: GroupId)
    requires Resolves(gs, store) && g in store && 0 <= i <= |gs|
    ensures Resolves(gs[..i] + [g] + gs[i..], store)
    ensures Describes(Added(store[g], Offset(gs, store, i)),
                      Flatten(gs, store), Flatten(gs[..i] + [g] + gs[i..], store))
  {
    var t := gs[..i] + [g] + gs[i..];
    var before, after := Flatten(gs[..i], store), Flatten(gs[i..], store);
    assert gs == gs[..i] + gs[i..];
    FlattenAppend(gs[..i], gs[i..], store);
    assert Flatten(gs, store) == before + [] + after;
    assert t[..i] == gs[..i] && t[i] == g && t[i + 1..] == gs[i..];
    FlattenAt(t, store, i);
    assert Flatten(t, store) == before + store[g] + after;
    assert Offset(gs, store, i) == |before| + 0;
    AddedInContext(before, [], store[g], after, store[g], 0);
  }

  /** The Remove the composite raises when the group at position `i` leaves,
      read as carrying that group's items, describes the change of the
      flattened view. */
  lemma RemoveMatchesFlatView<T>(gs: seq<GroupId>, store: Store<T>, i: int)
    requires Resolves(gs, store) && 0 <= i < |gs|
    ensures Resolves(gs[..i] + gs[i + 1..], store)
    ensures Describes(Removed(store[gs[i]], Offset(gs, store, i)),
                      Flatten(gs, store), Flatten(gs[..i] + gs[i + 1..], store))
  {
    var s := store[gs[i]];
    var before, after := Flatten(gs[..i], store), Flatten(gs[i + 1..], store);
    FlattenAt(gs, store, i);
    FlattenAppend(gs[..i], gs[i + 1..], store);
    assert Flatten(gs[..i] + gs[i + 1..], store) == before + [] + after;
    assert Offset(gs, store, i) == |before| + 0;
    assert s[0..|s|] == s && CutAt(s, 0, |s|) == [];
    RemovedInContext(before, s, [], after, s, 0);
  }

  /** The Replace the composite raises when position `i` gets group `g`,
      read as carrying the groups' items, describes the change of the
      flattened view. */
  lemma ReplaceMatchesFlatView<T>(gs: seq<GroupId>, store: Store<T>, i: int, g: GroupId)
    requires Resolves(gs, store) && g in store && 0 <= i < |gs|
    ensures Resolves(gs[i := g], store)
    ensures Describes(Replaced(store[g], store[gs[i]], Offset(gs, store, i)),
                      Flatten(gs, store), Flatten(gs[i := g], store))
  {
    var t := gs[i := g];
    var s := store[gs[i]];
    var before, after := Flatten(gs[..i], store), Flatten(gs[i + 1..], store);
    assert t[..i] == gs[..i] && t[i + 1..] == gs[i + 1..];
    FlattenAt(gs, store, i);
    FlattenAt(t, store, i);
    assert Offset(gs, store, i) == |before| + 0;
    assert s[0..|s|] == s && CutAt(s, 0, |s|) == [] && InsertAt([], 0, store[g]) == store[g];
    ReplacedInContext(before, s, store[g], after, store[g], s, 0);
  }
}
