/** The chain of prerequisites among the units of a sequential course, stored and effective. */
module LmsPrerequisites {
  import opened Wrappers

  type Id = string

  /** The place of a unit's identifier in the order used on ties by the learner's path is part of the unit. */
  datatype Unit = Unit(order: int, created: int, place: int, prerequisite: Option<Id>)

  type Units = map<Id, Unit>

  /** What orders units that share a position: when they were created, or their identifier. */
  datatype Tie = ByCreation | ByIdentifier

  function Second(u: Unit, tie: Tie): int { if tie.ByCreation? then u.created else u.place }

  predicate Before(x: Unit, y: Unit, tie: Tie) {
    x.order < y.order || (x.order == y.order && Second(x, tie) <= Second(y, tie))
  }

  predicate Distinct(ids: seq<Id>) { forall i, j :: 0 <= i < j < |ids| ==> ids[i] != ids[j] }

  /** The sequence names every unit once. */
  predicate Enumerates(units: Units, ids: seq<Id>) {
    (forall u :: u in ids ==> u in units) && (forall u :: u in units ==> u in ids) && Distinct(ids)
  }

  predicate InOrder(units: Units, ids: seq<Id>, tie: Tie)
    requires forall u :: u in ids ==> u in units
  {
    forall i, j :: 0 <= i < j < |ids| ==> Before(units[ids[i]], units[ids[j]], tie)
  }

  /** A result of listing the units in that order; the order of units equal on both keys is open. */
  predicate Listing(units: Units, ids: seq<Id>, tie: Tie) {
    Enumerates(units, ids) && InOrder(units, ids, tie)
  }

  /** A listing goes by position, and among equal positions by creation or by identifier. */
  lemma ListedInOrder(units: Units, ids: seq<Id>, tie: Tie, i: nat, j: nat)
    requires Listing(units, ids, tie) && i < j < |ids|
    ensures var (x, y) := (units[ids[i]], units[ids[j]]);
            x.order <= y.order
            && (x.order == y.order ==> if tie == ByCreation then x.created <= y.created else x.place <= y.place)
  {
    assert Before(units[ids[i]], units[ids[j]], tie);
  }

  /** No two units agree on position and tie-breaker. */
  predicate Strict(units: Units, tie: Tie) {
    forall x, y :: x in units && y in units && x != y && units[x].order == units[y].order ==>
      Second(units[x], tie) != Second(units[y], tie)
  }

  function Expected(ids: seq<Id>, i: nat): Option<Id>
    requires i < |ids|
  {
    if i > 0 then Some(ids[i - 1]) else None
  }

  /** Each listed unit requires the one before it. */
  predicate Chained(units: Units, ids: seq<Id>) {
    forall i :: 0 <= i < |ids| ==> ids[i] in units && units[ids[i]].prerequisite == Expected(ids, i)
  }

  /** The same units, prerequisites aside. */
  predicate SameBut(a: Units, b: Units) {
    a.Keys == b.Keys && forall u :: u in a ==> a[u].(prerequisite := None) == b[u].(prerequisite := None)
  }

  predicate Differs(units: Units, ids: seq<Id>, i: nat)
    requires i < |ids| && forall u :: u in ids ==> u in units
  {
    units[ids[i]].prerequisite != Expected(ids, i)
  }

  /** The units among the first n whose prerequisite is not the one expected. */
  function Differing(units: Units, ids: seq<Id>, n: nat): set<Id>
    requires n <= |ids| && forall u :: u in ids ==> u in units
  {
    if n == 0 then {} else Differing(units, ids, n - 1) + if Differs(units, ids, n - 1) then {ids[n - 1]} else {}
  }

  function Synced(units: Units, ids: seq<Id>, n: nat): (s: Units)
    requires n <= |ids| && forall u :: u in ids ==> u in units
    ensures s.Keys == units.Keys
  {
    if n == 0 then units else
      var (front, u) := (Synced(units, ids, n - 1), ids[n - 1]);
      if Differs(units, ids, n - 1) then front[u := front[u].(prerequisite := Expected(ids, n - 1))] else front
  }

  /** The unit at k after n steps: aligned if its turn has come, untouched otherwise. */
  lemma {:induction false} SyncedAt(units: Units, ids: seq<Id>, n: nat, k: nat)
    requires Enumerates(units, ids) && n <= |ids| && k < |ids|
    ensures Synced(units, ids, n)[ids[k]] ==
            if k < n then units[ids[k]].(prerequisite := Expected(ids, k)) else units[ids[k]]
    ensures ids[k] in Differing(units, ids, n) <==> k < n && Differs(units, ids, k)
  {
    if n == 0 {
    } else {
      SyncedAt(units, ids, n - 1, k);
      assert k < n - 1 ==> ids[k] != ids[n - 1];
      assert n - 1 < k ==> ids[k] != ids[n - 1];
      hide Enumerates;
    }
  }

  lemma SyncedUnit(units: Units, ids: seq<Id>, u: Id)
    requires Enumerates(units, ids) && u in units
    ensures var s := Synced(units, ids, |ids|);
            && s[u].(prerequisite := None) == units[u].(prerequisite := None)
            && (s[u] != units[u] <==> u in Differing(units, ids, |ids|))
  {
    var k :| 0 <= k < |ids| && ids[k] == u;
    SyncedAt(units, ids, |ids|, k);
    hide Synced, Differing, Distinct, Expected;
  }

  /** The synchronised units form the chain and differ from the old ones in nothing but rows that had to be written. */
  lemma SyncedIsChained(units: Units, ids: seq<Id>)
    requires Enumerates(units, ids)
    ensures Chained(Synced(units, ids, |ids|), ids) && SameBut(Synced(units, ids, |ids|), units)
    ensures forall u :: u in units ==>
              (Synced(units, ids, |ids|)[u] != units[u] <==> u in Differing(units, ids, |ids|))
  {
    hide Synced, Differing, Distinct, Expected;
    forall k | 0 <= k < |ids|
      ensures Synced(units, ids, |ids|)[ids[k]].prerequisite == Expected(ids, k)
    {
      SyncedAt(units, ids, |ids|, k);
    }
    forall u | u in units
      ensures Synced(units, ids, |ids|)[u].(prerequisite := None) == units[u].(prerequisite := None)
      ensures Synced(units, ids, |ids|)[u] != units[u] <==> u in Differing(units, ids, |ids|)
    {
      SyncedUnit(units, ids, u);
    }
  }

  class CourseUnits {
    var units: Units

    constructor (initial: Units)
      ensures units == initial
    {
      units := initial;
    }

    /** Walks the listing and writes exactly the rows whose prerequisite differs from the one expected. */
    method SyncPrerequisites(ids: seq<Id>, sequential: bool) returns (writes: nat)
      requires Listing(units, ids, ByCreation)
      modifies this
      ensures !sequential ==> units == old(units) && writes == 0
      ensures sequential ==> units == Synced(old(units), ids, |ids|) && writes == |Differing(old(units), ids, |ids|)|
    {
      hide InOrder, Distinct;
      writes := 0;
      if !sequential {
        return;
      }
      for i := 0 to |ids|
        invariant units == Synced(old(units), ids, i) && writes == |Differing(old(units), ids, i)|
      {
        SyncedAt(old(units), ids, i, i);
        var expected := if i > 0 then Some(ids[i - 1]) else None;
        if units[ids[i]].prerequisite != expected {
          units := units[ids[i] := units[ids[i]].(prerequisite := expected)];
          writes := writes + 1;
        }
      }
    }
  }

  // ---- The stored chain ----

  /** The unit reached by following stored prerequisites n times. */
  function Follow(units: Units, u: Id, n: nat): Option<Id>
    decreases n
  {
    if n == 0 then Some(u)
    else if u in units && units[u].prerequisite.Some? then Follow(units, units[u].prerequisite.value, n - 1)
    else None
  }

  lemma {:induction false} FollowChain(units: Units, ids: seq<Id>, i: nat, n: nat)
    requires Chained(units, ids) && i < |ids|
    ensures Follow(units, ids[i], n) == if n <= i then Some(ids[i - n]) else None
  {
    if n == 0 || i == 0 {
    } else {
      FollowChain(units, ids, i - 1, n - 1);
    }
  }

  /** Following prerequisites from the i-th unit reaches the first unit after exactly i steps, and never a unit twice. */
  lemma ReachesFirst(units: Units, ids: seq<Id>, i: nat)
    requires Distinct(ids) && Chained(units, ids) && i < |ids|
    ensures Follow(units, ids[i], i) == Some(ids[0]) && Follow(units, ids[i], i + 1) == None
    ensures forall n :: 0 <= n <= i && Follow(units, ids[i], n) == Some(ids[0]) ==> n == i
    ensures forall m, n :: 0 <= m < n <= i ==> Follow(units, ids[i], m) != Follow(units, ids[i], n)
  {
    forall n: nat
      ensures Follow(units, ids[i], n) == if n <= i then Some(ids[i - n]) else None
    {
      FollowChain(units, ids, i, n);
    }
  }

  lemma SameListings(a: Units, b: Units, ids: seq<Id>, tie: Tie)
    requires SameBut(a, b)
    ensures Listing(a, ids, tie) <==> Listing(b, ids, tie)
  {
    forall u | u in a
      ensures a[u].order == b[u].order && Second(a[u], tie) == Second(b[u], tie)
    {
      assert a[u].(prerequisite := None) == b[u].(prerequisite := None);
    }
    hide Second;
  }

  /** In a chain the listed unit after a given one is determined. */
  lemma NextInChain(units: Units, a: seq<Id>, b: seq<Id>, n: nat)
    requires Chained(units, a) && Chained(units, b) && (forall u :: u in a <==> u in b) && Distinct(a)
    requires n < |a| && n < |b| && a[..n] == b[..n]
    ensures a[n] == b[n]
  {
    assert b[n] in b;
    var k :| 0 <= k < |a| && a[k] == b[n];
    assert units[a[k]].prerequisite == Expected(a, k) && units[b[n]].prerequisite == Expected(b, n);
    if n > 0 {
      assert a[..n][n - 1] == b[..n][n - 1];
      assert k > 0 && a[k - 1] == b[n - 1] == a[n - 1];
    }
  }

  /** A chain belongs to one listing only. */
  lemma {:induction false} ChainFixesListing(units: Units, a: seq<Id>, b: seq<Id>, n: nat)
    requires Chained(units, a) && Chained(units, b) && (forall u :: u in a <==> u in b) && Distinct(a)
    requires n <= |b| && n <= |a|
    ensures a[..n] == b[..n]
  {
    hide Chained, Distinct;
    if n == 0 {
    } else {
      ChainFixesListing(units, a, b, n - 1);
      NextInChain(units, a, b, n - 1);
      assert a[..n] == a[..n - 1] + [a[n - 1]] && b[..n] == b[..n - 1] + [b[n - 1]];
    }
  }

  lemma SameSize(a: seq<Id>, b: seq<Id>)
    requires (forall u :: u in a <==> u in b) && Distinct(a) && Distinct(b)
    ensures |a| == |b|
  {
    Elements(a);
    Elements(b);
    assert (set u | u in a) == (set u | u in b);
  }

  lemma {:induction false} Elements(a: seq<Id>)
    requires Distinct(a)
    ensures |set u | u in a| == |a|
  {
    if a != [] {
      var front, last := a[..|a| - 1], a[|a| - 1];
      Elements(front);
      assert (set u | u in a) == (set u | u in front) + {last};
    } else {
      assert (set u | u in a) == {};
    }
  }

  lemma {:induction false} DifferingIff(units: Units, ids: seq<Id>, n: nat, u: Id)
    requires n <= |ids| && (forall v :: v in ids ==> v in units)
    ensures u in Differing(units, ids, n) <==> exists k :: 0 <= k < n && ids[k] == u && Differs(units, ids, k)
  {
    hide Differs;
    if n == 0 {
    } else {
      DifferingIff(units, ids, n - 1, u);
    }
  }

  lemma NothingDiffers(units: Units, ids: seq<Id>)
    requires Enumerates(units, ids)
    ensures Differing(units, ids, |ids|) == {} <==> Chained(units, ids)
  {
    hide Expected, Distinct, Differing;
    forall u
      ensures u in Differing(units, ids, |ids|) <==> exists k :: 0 <= k < |ids| && ids[k] == u && Differs(units, ids, k)
    {
      DifferingIff(units, ids, |ids|, u);
    }
    if Differing(units, ids, |ids|) == {} {
      forall i | 0 <= i < |ids|
        ensures ids[i] in units && units[ids[i]].prerequisite == Expected(ids, i)
      {
        assert Differs(units, ids, i) <==> units[ids[i]].prerequisite != Expected(ids, i);
        assert ids[i] !in Differing(units, ids, |ids|);
      }
    }
    if Chained(units, ids) {
      assert forall k :: 0 <= k < |ids| ==> !Differs(units, ids, k);
      assert forall u :: u !in Differing(units, ids, |ids|);
    }
  }

  lemma OneChainOnly(units: Units, a: seq<Id>, b: seq<Id>)
    requires Enumerates(units, a) && Enumerates(units, b) && Chained(units, a) && Chained(units, b)
    ensures a == b
  {
    hide Chained, Distinct;
    SameSize(a, b);
    ChainFixesListing(units, a, b, |a|);
    assert a[..|a|] == a && b[..|a|] == b;
  }

  /** Synchronising again writes nothing exactly when the units are listed in the same order again. */
  lemma SecondSyncIdleIff(units: Units, ids: seq<Id>, again: seq<Id>)
    requires Enumerates(units, ids) && Chained(units, ids) && Enumerates(units, again)
    ensures Differing(units, again, |again|) == {} <==> again == ids
  {
    NothingDiffers(units, again);
    hide Differing, Chained, Enumerates;
    if Chained(units, again) {
      OneChainOnly(units, ids, again);
    }
  }

  // ---- When the order is determined ----

  lemma {:induction false} ListingUnique(units: Units, a: seq<Id>, b: seq<Id>, tie: Tie)
    requires Strict(units, tie) && Listing(units, a, tie) && Listing(units, b, tie)
    ensures a == b
  {
    SameSize(a, b);
    if a == [] {
    } else {
      FirstSame(units, a, b, tie);
      RestListed(units, a, tie);
      RestListed(units, b, tie);
      hide Strict;
      var rest := units - {a[0]};
      StrictRest(units, a[0], tie);
      ListingUnique(rest, a[1..], b[1..], tie);
      assert a == [a[0]] + a[1..] && b == [b[0]] + b[1..];
    }
  }

  lemma StrictRest(units: Units, u: Id, tie: Tie)
    requires Strict(units, tie)
    ensures Strict(units - {u}, tie)
  {
    hide Second;
  }

  lemma FirstSame(units: Units, a: seq<Id>, b: seq<Id>, tie: Tie)
    requires Strict(units, tie) && Listing(units, a, tie) && Listing(units, b, tie) && a != [] && b != []
    ensures a[0] == b[0]
  {
    hide Distinct, Second;
    assert a[0] in b && b[0] in a;
    var i :| 0 <= i < |b| && b[i] == a[0];
    var j :| 0 <= j < |a| && a[j] == b[0];
    assert i > 0 ==> Before(units[b[0]], units[b[i]], tie);
    assert j > 0 ==> Before(units[a[0]], units[a[j]], tie);
    hide Strict, Before;
    BeforeBoth(units, a[0], b[0], tie);
  }

  lemma BeforeBoth(units: Units, x: Id, y: Id, tie: Tie)
    requires Strict(units, tie) && x in units && y in units
    requires x == y || (Before(units[x], units[y], tie) && Before(units[y], units[x], tie))
    ensures x == y
  {
  }

  lemma RestListed(units: Units, a: seq<Id>, tie: Tie)
    requires Listing(units, a, tie) && a != []
    ensures Listing(units - {a[0]}, a[1..], tie)
  {
    hide Before;
    var rest := units - {a[0]};
    forall u
      ensures u in a[1..] <==> u in rest
    {
      assert a == [a[0]] + a[1..];
      assert u in a <==> u in units;
    }
  }

  function Swap(ids: seq<Id>, i: nat): (s: seq<Id>)
    requires i + 1 < |ids|
    ensures |s| == |ids|
  {
    ids[i := ids[i + 1]][i + 1 := ids[i]]
  }

  lemma SwapEnumerates(units: Units, ids: seq<Id>, i: nat)
    requires Enumerates(units, ids) && i + 1 < |ids|
    ensures Enumerates(units, Swap(ids, i))
  {
    var s := Swap(ids, i);
    assert s[i] == ids[i + 1] && s[i + 1] == ids[i];
    assert forall k :: 0 <= k < |s| && k != i && k != i + 1 ==> s[k] == ids[k];
    forall u
      ensures u in s <==> u in ids
    {
      if u in ids {
        var k :| 0 <= k < |ids| && ids[k] == u;
        assert s[if k == i then i + 1 else if k == i + 1 then i else k] == u;
      }
    }
  }

  lemma SwapInOrder(units: Units, ids: seq<Id>, i: nat, tie: Tie)
    requires (forall u :: u in ids ==> u in units) && InOrder(units, ids, tie) && i + 1 < |ids|
    requires (forall u :: u in Swap(ids, i) ==> u in units)
    requires SameKeys(units[ids[i]], units[ids[i + 1]], tie)
    ensures InOrder(units, Swap(ids, i), tie)
  {
    var s := Swap(ids, i);
    forall k, l | 0 <= k < l < |s|
      ensures Before(units[s[k]], units[s[l]], tie)
    {
      var (x, y) := (if k == i then i + 1 else if k == i + 1 then i else k, if l == i then i + 1 else if l == i + 1 then i else l);
      assert s[k] == ids[x] && s[l] == ids[y];
      assert x < y ==> Before(units[ids[x]], units[ids[y]], tie);
    }
  }

  predicate SameKeys(x: Unit, y: Unit, tie: Tie) { x.order == y.order && Second(x, tie) == Second(y, tie) }

  lemma TieIsAdjacent(units: Units, ids: seq<Id>, tie: Tie) returns (i: nat)
    requires Listing(units, ids, tie) && !Strict(units, tie)
    ensures i + 1 < |ids| && SameKeys(units[ids[i]], units[ids[i + 1]], tie)
  {
    var x, y :| x in units && y in units && x != y && units[x].order == units[y].order
                && Second(units[x], tie) == Second(units[y], tie);
    assert SameKeys(units[x], units[y], tie) && SameKeys(units[y], units[x], tie);
    hide Second, Distinct, Strict;
    assert x in ids && y in ids;
    var k :| 0 <= k < |ids| && ids[k] == x;
    var l :| 0 <= l < |ids| && ids[l] == y;
    i := if k < l then k else l;
    var last := if k < l then l else k;
    assert SameKeys(units[ids[i]], units[ids[last]], tie);
    assert Before(units[ids[i]], units[ids[i + 1]], tie);
    assert i + 1 == last || Before(units[ids[i + 1]], units[ids[last]], tie);
    hide InOrder, Enumerates;
  }

  ghost predicate AlwaysIdle(units: Units) {
    forall again :: Listing(units, again, ByCreation) ==> Differing(units, again, |again|) == {}
  }

  /**
   After a synchronisation, a second one is sure to write nothing exactly when no two units share
   both position and creation time.
   */
  lemma IdleForSureIff(units: Units, ids: seq<Id>)
    requires Listing(units, ids, ByCreation) && Chained(units, ids)
    ensures AlwaysIdle(units) <==> Strict(units, ByCreation)
  {
    hide Differing, Before, Strict, Distinct, Chained, InOrder;
    if Strict(units, ByCreation) {
      forall again | Listing(units, again, ByCreation)
        ensures Differing(units, again, |again|) == {}
      {
        ListingUnique(units, ids, again, ByCreation);
        SecondSyncIdleIff(units, ids, again);
      }
    } else {
      var i := TieIsAdjacent(units, ids, ByCreation);
      SwapEnumerates(units, ids, i);
      SwapInOrder(units, ids, i, ByCreation);
      AdjacentDiffer(ids, i);
      SecondSyncIdleIff(units, ids, Swap(ids, i));
      assert Listing(units, Swap(ids, i), ByCreation);
    }
  }

  lemma AdjacentDiffer(ids: seq<Id>, i: nat)
    requires Distinct(ids) && i + 1 < |ids|
    ensures Swap(ids, i) != ids
  {
    assert Swap(ids, i)[i] == ids[i + 1];
  }

  lemma SameStrict(a: Units, b: Units, tie: Tie)
    requires SameBut(a, b)
    ensures Strict(a, tie) <==> Strict(b, tie)
  {
    forall u | u in a
      ensures a[u].order == b[u].order && Second(a[u], tie) == Second(b[u], tie)
    {
      assert a[u].(prerequisite := None) == b[u].(prerequisite := None);
    }
    hide Second;
  }

  /** The same for any two runs in a row of the synchronisation itself. */
  lemma SyncTwice(units: Units, ids: seq<Id>, again: seq<Id>)
    requires Listing(units, ids, ByCreation) && Listing(units, again, ByCreation)
    ensures var s := Synced(units, ids, |ids|);
            && Listing(s, again, ByCreation)
            && (Differing(s, again, |again|) == {} <==> again == ids)
            && (AlwaysIdle(s) <==> Strict(units, ByCreation))
  {
    SyncedIsChained(units, ids);
    var s := Synced(units, ids, |ids|);
    SameListings(s, units, ids, ByCreation);
    SameListings(s, units, again, ByCreation);
    SameStrict(s, units, ByCreation);
    hide Synced, SameBut, Strict, Chained, Differing, Distinct, InOrder, AlwaysIdle;
    SecondSyncIdleIff(s, ids, again);
    IdleForSureIff(s, ids);
  }

  // ---- The effective prerequisite ----

  function IndexOf(ids: seq<Id>, u: Id): (i: int)
    ensures -1 <= i < |ids| && (i >= 0 ==> ids[i] == u) && (u in ids ==> i >= 0)
    ensures forall j :: 0 <= j < i ==> ids[j] != u
  {
    if ids == [] then -1
    else if ids[0] == u then 0
    else
      var i := IndexOf(ids[1..], u);
      if i < 0 then -1 else i + 1
  }

  /** The prerequisite the learner's path uses, from the units in its own order. */
  function Effective(units: Units, byId: seq<Id>, u: Id, sequential: bool): Option<Id>
    requires Listing(units, byId, ByIdentifier)
  {
    var i := IndexOf(byId, u);
    if i <= 0 then None
    else if sequential then Some(byId[i - 1])
    else units[byId[i]].prerequisite
  }

  /** The first unit has none; any other has the one before it, or in a free course the one stored. */
  lemma EffectiveIs(units: Units, byId: seq<Id>, i: nat, sequential: bool)
    requires Listing(units, byId, ByIdentifier) && i < |byId|
    ensures Effective(units, byId, byId[i], sequential) ==
            if i == 0 then None else if sequential then Some(byId[i - 1]) else units[byId[i]].prerequisite
  {
    assert byId[i] in byId;
    var k := IndexOf(byId, byId[i]);
    assert k == i;
    hide IndexOf, InOrder;
  }

  predicate StoredIsEffective(units: Units, byId: seq<Id>)
    requires Listing(units, byId, ByIdentifier)
  {
    forall u :: u in units ==> units[u].prerequisite == Effective(units, byId, u, true)
  }

  lemma StoredIsEffectiveChain(units: Units, byId: seq<Id>)
    requires Listing(units, byId, ByIdentifier)
    ensures StoredIsEffective(units, byId) <==> Chained(units, byId)
  {
    hide InOrder;
    forall i | 0 <= i < |byId|
      ensures byId[i] in units && Effective(units, byId, byId[i], true) == Expected(byId, i)
    {
      assert byId[i] in byId;
      assert IndexOf(byId, byId[i]) == i;
    }
    hide Effective, Expected, Distinct;
  }

  /** Among units at the same position, creation order and identifier order agree. */
  predicate OrdersAgree(units: Units) {
    forall x, y :: x in units && y in units && units[x].order == units[y].order ==>
      (units[x].created < units[y].created <==> units[x].place < units[y].place)
  }

  /**
   Once synchronised, the stored prerequisite of every unit is the one the learner's path uses
   exactly when units at the same position were created in the order of their identifiers.
   */
  lemma StoredMatchesIff(units: Units, ids: seq<Id>, byId: seq<Id>)
    requires Strict(units, ByCreation) && Strict(units, ByIdentifier)
    requires Listing(units, ids, ByCreation) && Chained(units, ids) && Listing(units, byId, ByIdentifier)
    ensures StoredIsEffective(units, byId) <==> OrdersAgree(units)
  {
    StoredIsEffectiveChain(units, byId);
    hide StoredIsEffective, InOrder, Strict, OrdersAgree, Chained, Distinct;
    if OrdersAgree(units) {
      AgreeingListing(units, byId);
      ListingUnique(units, ids, byId, ByCreation);
    }
    if Chained(units, byId) {
      OneChainOnly(units, ids, byId);
      OneListingAgrees(units, ids);
    }
  }

  lemma AgreeingListing(units: Units, byId: seq<Id>)
    requires Strict(units, ByCreation) && Strict(units, ByIdentifier)
    requires OrdersAgree(units) && Listing(units, byId, ByIdentifier)
    ensures Listing(units, byId, ByCreation)
  {
    forall i, j | 0 <= i < j < |byId|
      ensures Before(units[byId[i]], units[byId[j]], ByCreation)
    {
      assert byId[i] in byId && byId[j] in byId;
      assert Before(units[byId[i]], units[byId[j]], ByIdentifier);
    }
  }

  lemma OneListingAgrees(units: Units, ids: seq<Id>)
    requires Strict(units, ByCreation) && Strict(units, ByIdentifier)
    requires Listing(units, ids, ByCreation) && Listing(units, ids, ByIdentifier)
    ensures OrdersAgree(units)
  {
    forall x, y | x in units && y in units && units[x].order == units[y].order
      ensures units[x].created < units[y].created <==> units[x].place < units[y].place
    {
      assert x in ids && y in ids;
      var k :| 0 <= k < |ids| && ids[k] == x;
      var l :| 0 <= l < |ids| && ids[l] == y;
      if k < l {
        assert Before(units[x], units[y], ByCreation) && Before(units[x], units[y], ByIdentifier);
        assert Second(units[x], ByCreation) != Second(units[y], ByCreation);
        assert Second(units[x], ByIdentifier) != Second(units[y], ByIdentifier);
      } else if l < k {
        assert Before(units[y], units[x], ByCreation) && Before(units[y], units[x], ByIdentifier);
      }
    }
  }

  /** Two units at one position created against the order of their identifiers: the stored chain is not the one in effect. */
  lemma StoredDiverges() returns (units: Units, ids: seq<Id>, byId: seq<Id>)
    ensures Listing(units, ids, ByCreation) && Chained(units, ids) && Listing(units, byId, ByIdentifier)
    ensures !StoredIsEffective(units, byId)
  {
    units := map["b" := Unit(0, 1, 2, None), "a" := Unit(0, 2, 1, Some("b"))];
    ids, byId := ["b", "a"], ["a", "b"];
    assert "a" in units && units["a"].prerequisite != Effective(units, byId, "a", true);
  }
}
