// The group registry: an ordered list of group handles over a store of group
// contents, the flattened view it presents, and the offset of each group in it.

module Registry {

  /** A group is known by a handle, so that membership is by identity and
      never by the equality of the items a group holds. */
  type GroupId = nat

  /** The current contents of every group, by handle. Groups are owned
      outside the composite and change on their own. */
  type Store<T> = map<GroupId, seq<T>>

  /** Every handle in `gs` denotes a group. */
  predicate Resolves<T>(gs: seq<GroupId>, store: Store<T>)
  {
    forall g :: g in gs ==> g in store
  }

  /** No group appears twice. */
  predicate Distinct(gs: seq<GroupId>)
  {
    forall i, j :: 0 <= i < j < |gs| ==> gs[i] != gs[j]
  }

  function Members(gs: seq<GroupId>): set<GroupId>
  {
    set g | g in gs
  }

  /** The flattened view: the groups' items, group after group. */
  function Flatten<T>(gs: seq<GroupId>, store: Store<T>): seq<T>
    requires Resolves(gs, store)
  {
    if gs == [] then [] else store[gs[0]] + Flatten(gs[1..], store)
  }

  /** Sum of the item counts of the groups in `gs`. */
  function Total<T>(gs: seq<GroupId>, store: Store<T>): (n: nat)
    requires Resolves(gs, store)
    ensures n == |Flatten(gs, store)|
  {
    if gs == [] then 0 else |store[gs[0]]| + Total(gs[1..], store)
  }

  /** The first `n` groups; all of them when `n` is past the end, none when
      `n` is not positive. */
  function Take(gs: seq<GroupId>, n: int): seq<GroupId>
  {
    if n <= 0 then [] else if n < |gs| then gs[..n] else gs
  }

  /** Item total of the groups before position `n`: where group `n` starts in
      the flattened view. */
  function Offset<T>(gs: seq<GroupId>, store: Store<T>, n: int): (r: nat)
    requires Resolves(gs, store)
    ensures 0 <= n <= |gs| ==> r == |Flatten(gs[..n], store)|
    ensures |gs| <= n ==> r == |Flatten(gs, store)|
    ensures n <= 0 ==> r == 0
  {
    assert gs[..|gs|] == gs;
    Total(Take(gs, n), store)
  }

  /** Position of the first occurrence of `g`, or -1. */
  function IndexOf(gs: seq<GroupId>, g: GroupId): (r: int)
    ensures -1 <= r < |gs|
    ensures r == -1 <==> g !in gs
    ensures 0 <= r ==> gs[r] == g && g !in gs[..r]
  {
    if gs == [] then -1
    else if gs[0] == g then 0
    else
      var k := IndexOf(gs[1..], g);
      if k < 0 then -1 else k + 1
  }

  /** The groups before the first occurrence of `src`; every group when
      `src` does not occur. */
  function TakeWhileOther(gs: seq<GroupId>, src: GroupId): (r: seq<GroupId>)
    ensures r == if src in gs then gs[..IndexOf(gs, src)] else gs
  {
    if gs == [] || gs[0] == src then []
    else
      var rest := TakeWhileOther(gs[1..], src);
      assert src in gs ==> gs[..IndexOf(gs, src)] == [gs[0]] + gs[1..][..IndexOf(gs[1..], src)];
      [gs[0]] + rest
  }

  /** Item total of the groups before `src`, found by identity. A group that
      is not in the registry gets the item total of all groups. */
  function OffsetOf<T>(gs: seq<GroupId>, store: Store<T>, src: GroupId): (r: nat)
    requires Resolves(gs, store)
    ensures src in gs ==> r == Offset(gs, store, IndexOf(gs, src))
    ensures src !in gs ==> r == |Flatten(gs, store)|
  {
    Total(TakeWhileOther(gs, src), store)
  }

  /** Some group holds `x`. */
  function AnyContains<T(==)>(gs: seq<GroupId>, store: Store<T>, x: T): (r: bool)
    requires Resolves(gs, store)
    ensures r <==> x in Flatten(gs, store)
  {
    gs != [] && (x in store[gs[0]] || AnyContains(gs[1..], store, x))
  }

  lemma {:induction false} FlattenAppend<T>(a: seq<GroupId>, b: seq<GroupId>, store: Store<T>)
    requires Resolves(a, store) && Resolves(b, store)
    ensures Resolves(a + b, store)
    ensures Flatten(a + b, store) == Flatten(a, store) + Flatten(b, store)
  {
    if a == [] {
      assert a + b == b;
    } else {
      assert (a + b)[0] == a[0] && (a + b)[1..] == a[1..] + b;
      FlattenAppend(a[1..], b, store);
      assert Flatten(a + b, store) == store[a[0]] + Flatten(a[1..] + b, store);
    }
  }

  /** The flattened view around group `i`: the groups before it, its own
      items, the groups after it. */
  lemma FlattenAt<T>(gs: seq<GroupId>, store: Store<T>, i: int)
    requires Resolves(gs, store) && 0 <= i < |gs|
    ensures Flatten(gs, store) == Flatten(gs[..i], store) + store[gs[i]] + Flatten(gs[i + 1..], store)
  {
    assert gs == gs[..i] + ([gs[i]] + gs[i + 1..]);
    FlattenAppend([gs[i]], gs[i + 1..], store);
    FlattenAppend(gs[..i], [gs[i]] + gs[i + 1..], store);
    assert Flatten([gs[i]], store) == store[gs[i]] + Flatten([], store);
  }

  /** Changing a group that is not in `gs` leaves the flattened view of `gs`
      as it was. */
  lemma {:induction false} FlattenFrame<T>(gs: seq<GroupId>, store: Store<T>, g: GroupId, s: seq<T>)
    requires Resolves(gs, store) && g !in gs
    ensures Resolves(gs, store[g := s])
    ensures Flatten(gs, store[g := s]) == Flatten(gs, store)
  {
    if gs != [] {
      FlattenFrame(gs[1..], store, g, s);
    }
  }

  /** Group `i` occupies the slice of the flattened view that starts at its
      offset, and everything before that slice comes from the groups before
      it. */
  lemma GroupOccupiesSlice<T>(gs: seq<GroupId>, store: Store<T>, i: int)
    requires Resolves(gs, store) && 0 <= i < |gs|
    ensures Offset(gs, store, i) + |store[gs[i]]| <= |Flatten(gs, store)|
    ensures Flatten(gs, store)[..Offset(gs, store, i)] == Flatten(gs[..i], store)
    ensures Flatten(gs, store)[Offset(gs, store, i)..Offset(gs, store, i) + |store[gs[i]]|] == store[gs[i]]
  {
    FlattenAt(gs, store, i);
  }

  /** In a registry without duplicates, looking a member up by identity gives
      back its own position. */
  lemma IndexOfDistinct(gs: seq<GroupId>, i: int)
    requires Distinct(gs) && 0 <= i < |gs|
    ensures IndexOf(gs, gs[i]) == i
  {
  }

  /** A registry without duplicates has as many members as positions. */
  lemma {:induction false} DistinctMembers(gs: seq<GroupId>)
    requires Distinct(gs)
    ensures |Members(gs)| == |gs|
  {
    if gs != [] {
      var rest := gs[1..];
      assert Distinct(rest) by {
        forall i, j | 0 <= i < j < |rest| ensures rest[i] != rest[j] {
          assert rest[i] == gs[i + 1] && rest[j] == gs[j + 1];
        }
      }
      DistinctMembers(rest);
      assert gs[0] !in rest by {
        forall j | 0 <= j < |rest| ensures rest[j] != gs[0] {
          assert rest[j] == gs[j + 1];
        }
      }
      assert gs == [gs[0]] + rest;
      assert Members(gs) == Members(rest) + {gs[0]};
    }
  }

  lemma MembersInsert(gs: seq<GroupId>, i: int, g: GroupId)
    requires 0 <= i <= |gs|
    ensures Members(gs[..i] + [g] + gs[i..]) == Members(gs) + {g}
  {
    var t := gs[..i] + [g] + gs[i..];
    forall x | x in Members(gs) ensures x in Members(t) {
      var j :| 0 <= j < |gs| && gs[j] == x;
      if j < i { assert t[j] == x; } else { assert t[j + 1] == x; }
    }
    assert t[i] == g;
  }

  /** Removing position `i` of a registry without duplicates removes exactly
      the group at `i` from the members. */
  lemma MembersRemove(gs: seq<GroupId>, i: int)
    requires Distinct(gs) && 0 <= i < |gs|
    ensures Members(gs[..i] + gs[i + 1..]) == Members(gs) - {gs[i]}
    ensures Distinct(gs[..i] + gs[i + 1..])
  {
    var t := gs[..i] + gs[i + 1..];
    forall x | x in Members(gs) - {gs[i]} ensures x in Members(t) {
      var j :| 0 <= j < |gs| && gs[j] == x;
      if j < i { assert t[j] == x; } else { assert t[j - 1] == x; }
    }
    forall x | x in Members(t) ensures x in Members(gs) - {gs[i]} {
      var j :| 0 <= j < |t| && t[j] == x;
      if j < i { assert gs[j] == x; } else { assert gs[j + 1] == x; }
    }
  }

  /** Overwriting position `i` of a registry without duplicates with a group
      that is not a member swaps one member for the other. */
  lemma MembersReplace(gs: seq<GroupId>, i: int, g: GroupId)
    requires Distinct(gs) && 0 <= i < |gs| && g !in gs
    ensures Members(gs[i := g]) == Members(gs) - {gs[i]} + {g}
    ensures Distinct(gs[i := g])
  {
    var t := gs[i := g];
    forall x | x in Members(gs) - {gs[i]} ensures x in Members(t) {
      var j :| 0 <= j < |gs| && gs[j] == x;
      assert t[j] == x;
    }
    assert t[i] == g;
  }
}
