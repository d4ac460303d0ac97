/** The order in which layouts are walked: level by level, within a level as the map of its interfaces
    is iterated, every interface with entries once. */
module LayoutWalks {
  import opened InterfaceDelivery
  import opened InterfaceLayouts
  import opened InterfaceCommunicatorClass

  /** An interface of a layout, by level and place in the level. */
  datatype Place = Place(lvl: nat, at: nat)

  ghost predicate In<T>(lay: Layout<T>, p: Place) { p.lvl < |lay| && p.at < |lay[p.lvl]| && |Iface(lay, p)| > 0 }

  function Iface<T>(lay: Layout<T>, p: Place): seq<T>
    requires p.lvl < |lay| && p.at < |lay[p.lvl]|
  { lay[p.lvl][p.at].iface }

  ghost predicate Earlier(a: Place, b: Place) { a.lvl < b.lvl || (a.lvl == b.lvl && a.at < b.at) }

  /** All interfaces with entries on the levels before n, the earlier ones first. */
  ghost predicate Walk<T>(lay: Layout<T>, ps: seq<Place>, n: nat) {
    && (forall k :: 0 <= k < |ps| ==> In(lay, ps[k]) && ps[k].lvl < n)
    && (forall j, k :: 0 <= j < k < |ps| ==> Earlier(ps[j], ps[k]))
    && (forall p: Place :: In(lay, p) && p.lvl < n ==> p in ps)
  }

  /** Within an ordered level, an earlier place is a smaller process. */
  lemma EarlierIsSmaller<T>(lay: Layout<T>, a: Place, b: Place)
    requires IsLayout(lay) && In(lay, a) && In(lay, b) && a.lvl == b.lvl
    ensures Earlier(a, b) <==> lay[a.lvl][a.at].proc < lay[b.lvl][b.at].proc
  {
    var lvl := lay[a.lvl];
    assert IsLevel(lvl);
    if b.at < a.at { assert lvl[b.at].proc < lvl[a.at].proc; }
  }

  /** The places on one level before place n. */
  function OnLevel<T>(lvl: Level<T>, l: nat, n: nat): (r: seq<Place>)
    requires n <= |lvl|
    ensures forall k :: 0 <= k < |r| ==> r[k].lvl == l && r[k].at < n && |lvl[r[k].at].iface| > 0
    ensures forall j, k :: 0 <= j < k < |r| ==> r[j].at < r[k].at
    ensures forall i :: 0 <= i < n && |lvl[i].iface| > 0 ==> Place(l, i) in r
  {
    if n == 0 then [] else OnLevel(lvl, l, n - 1) + (if |lvl[n - 1].iface| > 0 then [Place(l, n - 1)] else [])
  }

  lemma OnLevelStep<T>(lvl: Level<T>, l: nat, n: nat)
    requires n < |lvl|
    ensures OnLevel(lvl, l, n + 1) == OnLevel(lvl, l, n) + (if |lvl[n].iface| > 0 then [Place(l, n)] else [])
  {}

  lemma InPlace<T>(lay: Layout<T>, l: nat, i: nat)
    requires l < |lay| && i < |lay[l]| && |lay[l][i].iface| > 0
    ensures In(lay, Place(l, i)) && Iface(lay, Place(l, i)) == lay[l][i].iface
  {}

  function Places<T>(lay: Layout<T>, n: nat): seq<Place>
    requires n <= |lay|
  { if n == 0 then [] else Places(lay, n - 1) + OnLevel(lay[n - 1], n - 1, |lay[n - 1]|) }

  lemma {:induction false} PlacesWalk<T>(lay: Layout<T>, n: nat)
    requires n <= |lay|
    ensures Walk(lay, Places(lay, n), n)
  {
    hide OnLevel, Walk;
    if n == 0 {
      NoPlaces(lay);
    } else {
      PlacesWalk(lay, n - 1);
      WalkOn(lay, Places(lay, n - 1), OnLevel(lay[n - 1], n - 1, |lay[n - 1]|), n - 1);
    }
  }

  lemma NoPlaces<T>(lay: Layout<T>)
    ensures Walk(lay, [], 0)
  {}

  lemma WalkOn<T>(lay: Layout<T>, a: seq<Place>, b: seq<Place>, l: nat)
    requires l < |lay| && Walk(lay, a, l) && b == OnLevel(lay[l], l, |lay[l]|)
    ensures Walk(lay, a + b, l + 1)
  {
    hide OnLevel, In, Earlier;
    WalkParts(lay, a, b, l);
    forall j, k | 0 <= j < k < |a + b| ensures Earlier((a + b)[j], (a + b)[k]) {
      if j < |a| <= k { assert Earlier(a[j], b[k - |a|]); }
    }
    forall p: Place | In(lay, p) && p.lvl < l + 1 ensures p in a + b {
      if p.lvl == l { assert p in b; }
    }
  }

  lemma WalkParts<T>(lay: Layout<T>, a: seq<Place>, b: seq<Place>, l: nat)
    requires l < |lay| && Walk(lay, a, l) && b == OnLevel(lay[l], l, |lay[l]|)
    ensures forall k :: 0 <= k < |b| ==> In(lay, b[k]) && b[k].lvl == l
    ensures forall j, k :: 0 <= j < k < |b| ==> Earlier(b[j], b[k])
    ensures forall j, k :: 0 <= j < |a| && 0 <= k < |b| ==> Earlier(a[j], b[k])
    ensures forall p: Place :: In(lay, p) && p.lvl == l ==> p in b
  {
    hide OnLevel;
    forall p: Place | In(lay, p) && p.lvl == l ensures p in b { assert Place(l, p.at) in b; }
  }

  // ---- sends ------------------------------------------------------------------------------------------

  ghost predicate SendsAlong<V>(lay: Layout<V>, pol: Policy<V>, ps: seq<Place>, sends: seq<(int, Packet<V>)>) {
    && |sends| == |ps|
    && forall k :: 0 <= k < |ps| ==>
         In(lay, ps[k]) && sends[k] == (lay[ps[k].lvl][ps[k].at].proc, Data(Iface(lay, ps[k]), pol))
  }

  lemma SendAppended<V>(lay: Layout<V>, pol: Policy<V>, ps: seq<Place>, sends: seq<(int, Packet<V>)>, p: Place)
    requires SendsAlong(lay, pol, ps, sends) && In(lay, p)
    ensures SendsAlong(lay, pol, ps + [p], sends + [(lay[p.lvl][p.at].proc, Data(Iface(lay, p), pol))])
  {}

  lemma LevelSendsStep<V>(lvl: Level<V>, pol: Policy<V>, n: nat)
    requires n < |lvl|
    ensures LevelSends<V>(lvl[..0], pol) == []
    ensures var e := lvl[n];
            LevelSends<V>(lvl[..n + 1], pol) ==
              LevelSends(lvl[..n], pol) + (if |e.iface| > 0 then [(e.proc, Data(e.iface, pol))] else [])
  { assert lvl[..n + 1][..n] == lvl[..n]; }

  lemma {:induction false} LevelSendsAlong<V>(lay: Layout<V>, pol: Policy<V>, l: nat, n: nat)
    requires l < |lay| && n <= |lay[l]|
    ensures SendsAlong(lay, pol, OnLevel(lay[l], l, n), LevelSends(lay[l][..n], pol))
  {
    hide SendsAlong, In, OnLevel, LevelSends;
    if n == 0 {
      NothingSends(lay, pol, l);
    } else {
      var i := n - 1;
      LevelSendsAlong(lay, pol, l, i);
      LevelSendsStep(lay[l], pol, i);
      OnLevelStep(lay[l], l, i);
      if |lay[l][i].iface| > 0 {
        InPlace(lay, l, i);
        SendAppended(lay, pol, OnLevel(lay[l], l, i), LevelSends(lay[l][..i], pol), Place(l, i));
      } else {
        assert OnLevel(lay[l], l, i) + [] == OnLevel(lay[l], l, i);
        assert LevelSends<V>(lay[l][..i], pol) + [] == LevelSends(lay[l][..i], pol);
      }
    }
  }

  lemma NothingSends<V>(lay: Layout<V>, pol: Policy<V>, l: nat)
    requires l < |lay|
    ensures SendsAlong(lay, pol, OnLevel(lay[l], l, 0), LevelSends(lay[l][..0], pol))
  {}

  lemma {:induction false} FirstSendsAlong<V>(lay: Layout<V>, pol: Policy<V>, n: nat)
    requires n <= |lay|
    ensures SendsAlong(lay, pol, Places(lay, n), LayoutSends(lay[..n], pol))
  {
    hide OnLevel, LevelSends;
    if n > 0 {
      FirstSendsAlong(lay, pol, n - 1);
      LevelSendsAlong(lay, pol, n - 1, |lay[n - 1]|);
      assert lay[..n][..n - 1] == lay[..n - 1] && lay[n - 1][..|lay[n - 1]|] == lay[n - 1];
    }
  }

  /** What sending a layout schedules: its interfaces with entries, in the order of the walk. */
  lemma SendsWalk<V>(lay: Layout<V>, pol: Policy<V>) returns (ps: seq<Place>)
    ensures Walk(lay, ps, |lay|) && SendsAlong(lay, pol, ps, LayoutSends(lay, pol))
  {
    ps := Places(lay, |lay|);
    PlacesWalk(lay, |lay|);
    FirstSendsAlong(lay, pol, |lay|);
    assert lay[..|lay|] == lay;
  }

  // ---- receives ---------------------------------------------------------------------------------------

  ghost predicate SlotsAlong<V, E>(lay: Layout<E>, pol: Policy<V>, ps: seq<Place>, slots: seq<Slot<V, E>>) {
    && |slots| == |ps|
    && forall k :: 0 <= k < |ps| ==>
         In(lay, ps[k]) && slots[k] == Into(lay[ps[k].lvl][ps[k].at].proc, Iface(lay, ps[k]), pol)
  }

  lemma SlotAppended<V, E>(lay: Layout<E>, pol: Policy<V>, ps: seq<Place>, slots: seq<Slot<V, E>>, p: Place)
    requires SlotsAlong(lay, pol, ps, slots) && In(lay, p)
    ensures SlotsAlong(lay, pol, ps + [p], slots + [Into(lay[p.lvl][p.at].proc, Iface(lay, p), pol)])
  {}

  lemma LevelSlotsStep<V, E>(lvl: Level<E>, pol: Policy<V>, n: nat)
    requires n < |lvl|
    ensures LevelSlots<V, E>(lvl[..0], pol) == []
    ensures var e := lvl[n];
            LevelSlots<V, E>(lvl[..n + 1], pol) ==
              LevelSlots(lvl[..n], pol) + (if |e.iface| > 0 then [Into(e.proc, e.iface, pol)] else [])
  { assert lvl[..n + 1][..n] == lvl[..n]; }

  lemma {:induction false} LevelSlotsAlong<V, E>(lay: Layout<E>, pol: Policy<V>, l: nat, n: nat)
    requires l < |lay| && n <= |lay[l]|
    ensures SlotsAlong(lay, pol, OnLevel(lay[l], l, n), LevelSlots(lay[l][..n], pol))
  {
    hide SlotsAlong, In, OnLevel, LevelSlots;
    if n == 0 {
      NothingSlots(lay, pol, l);
    } else {
      var i := n - 1;
      LevelSlotsAlong(lay, pol, l, i);
      LevelSlotsStep<V, E>(lay[l], pol, i);
      OnLevelStep(lay[l], l, i);
      if |lay[l][i].iface| > 0 {
        InPlace(lay, l, i);
        SlotAppended(lay, pol, OnLevel(lay[l], l, i), LevelSlots(lay[l][..i], pol), Place(l, i));
      } else {
        assert OnLevel(lay[l], l, i) + [] == OnLevel(lay[l], l, i);
        assert LevelSlots<V, E>(lay[l][..i], pol) + [] == LevelSlots(lay[l][..i], pol);
      }
    }
  }

  lemma NothingSlots<V, E>(lay: Layout<E>, pol: Policy<V>, l: nat)
    requires l < |lay|
    ensures SlotsAlong(lay, pol, OnLevel(lay[l], l, 0), LevelSlots(lay[l][..0], pol))
  {}

  lemma {:induction false} FirstSlotsAlong<V, E>(lay: Layout<E>, pol: Policy<V>, n: nat)
    requires n <= |lay|
    ensures SlotsAlong(lay, pol, Places(lay, n), LayoutSlots(lay[..n], pol))
  {
    hide OnLevel, LevelSlots;
    if n > 0 {
      FirstSlotsAlong(lay, pol, n - 1);
      LevelSlotsAlong(lay, pol, n - 1, |lay[n - 1]|);
      assert lay[..n][..n - 1] == lay[..n - 1] && lay[n - 1][..|lay[n - 1]|] == lay[n - 1];
    }
  }

  /** The receives of a layout: its interfaces with entries, in the order of the walk. */
  lemma SlotsWalk<V, E>(lay: Layout<E>, pol: Policy<V>) returns (ps: seq<Place>)
    ensures Walk(lay, ps, |lay|) && SlotsAlong(lay, pol, ps, LayoutSlots(lay, pol))
  {
    ps := Places(lay, |lay|);
    PlacesWalk(lay, |lay|);
    FirstSlotsAlong(lay, pol, |lay|);
    assert lay[..|lay|] == lay;
  }
}
