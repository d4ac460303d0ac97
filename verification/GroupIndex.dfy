/** MultiGroupCommunicator::reinit: from gathered membership lists to the offset/member
    index of the groups a process belongs to. */
module GroupIndex {
  import opened Gathers
  import opened Selection

  type Matrix = seq<seq<bool>>   // parts[process][group]

  ghost predicate Rectangular(parts: Matrix, groups: nat) {
    forall p :: 0 <= p < |parts| ==> |parts[p]| == groups
  }

  /** The processes before k that take part in group g, in ascending rank. */
  function MembersUpTo(parts: Matrix, g: nat, k: nat): seq<nat>
    requires k <= |parts| && forall p :: 0 <= p < |parts| ==> g < |parts[p]|
  {
    if k == 0 then [] else MembersUpTo(parts, g, k - 1) + (if parts[k - 1][g] then [k - 1] else [])
  }

  function Members(parts: Matrix, g: nat): seq<nat>
    requires forall p :: 0 <= p < |parts| ==> g < |parts[p]|
  { MembersUpTo(parts, g, |parts|) }

  /** A member list is strictly ascending and names exactly the participants. */
  lemma {:induction false} MembersExact(parts: Matrix, g: nat, k: nat)
    requires k <= |parts| && forall p :: 0 <= p < |parts| ==> g < |parts[p]|
    ensures Ascending(MembersUpTo(parts, g, k))
    ensures forall p: nat :: p in MembersUpTo(parts, g, k) <==> p < k && parts[p][g]
  {
    if k > 0 {
      MembersExact(parts, g, k - 1);
      var prev := MembersUpTo(parts, g, k - 1);
      forall i | 0 <= i < |prev| ensures prev[i] < k - 1 { assert prev[i] in prev; }
    }
  }

  lemma {:induction false} MembersGrow(parts: Matrix, g: nat, j: nat, k: nat)
    requires j <= k <= |parts| && forall p :: 0 <= p < |parts| ==> g < |parts[p]|
    ensures MembersUpTo(parts, g, j) <= MembersUpTo(parts, g, k)
  { if j < k { MembersGrow(parts, g, j, k - 1); } }

  /** The entries between two consecutive offsets are this member list. */
  ghost predicate Holds(groupOffsets: seq<nat>, groupMembers: seq<nat>, imem: nat, list: seq<nat>) {
    && imem + 1 < |groupOffsets|
    && groupOffsets[imem] <= groupOffsets[imem + 1] <= |groupMembers|
    && groupMembers[groupOffsets[imem]..groupOffsets[imem + 1]] == list
  }

  // ---- the index ----------------------------------------------------------------

  class MultiGroupCommunicator {
    var participates: seq<bool>
    var memberships: seq<nat>
    var groupMembers: seq<nat>
    var groupOffsets: seq<nat>

    constructor ()
      ensures participates == [] && memberships == [] && groupMembers == [] && groupOffsets == []
    { participates, memberships, groupMembers, groupOffsets := [], [], [], []; }

    /** Slices between consecutive offsets hold exactly the member lists of the groups of me. */
    ghost predicate Indexed(parts: Matrix, groups: nat, me: nat)
      reads this
    {
      && me < |parts| && Rectangular(parts, groups)
      && participates == parts[me] && memberships == Selected(parts[me])
      && |groupOffsets| == |memberships| + 1 && groupOffsets[0] == 0
      && |groupMembers| == groupOffsets[|memberships|]
      && forall imem :: 0 <= imem < |memberships| ==>
           memberships[imem] < groups && Holds(groupOffsets, groupMembers, imem, Members(parts, memberships[imem]))
    }

    /** parts is what all processes pass in, me the local rank. */
    method Reinit(parts: Matrix, groups: nat, me: nat, sizeOf: nat)
      requires me < |parts| && Rectangular(parts, groups) && sizeOf > 0
      requires groupOffsets == [] || groupOffsets[0] == 0
      modifies this
      ensures memberships == [] ==> groupMembers == [] && groupOffsets == [0] && participates == parts[me]
      ensures Indexed(parts, groups, me)
    {
      hide Selected, Flatten, MembersUpTo, Start;
      participates := parts[me];
      var memInd: seq<int>;
      memberships, memInd := CollectMemberships(participates);
      var lists := seq(|parts|, p requires 0 <= p < |parts| => Selected(parts[p]));
      var memLists, sizes, offsets := AllGatherV(lists, sizeOf, 0);
      if |memberships| == 0 {
        groupMembers := [];
        groupOffsets := if |groupOffsets| == 0 then [0] else groupOffsets[..1];
        return;
      }
      ListsGathered(parts, lists, me);
      var grpSizes := CountMembers(parts, groups, me, memberships, memInd, memLists, sizes, offsets);
      groupOffsets := PrefixSums(grpSizes);
      OffsetsSorted(groupOffsets, grpSizes);
      groupMembers := FillMembers(parts, groups, me, memberships, memInd, memLists, sizes, offsets, groupOffsets);
    }
  }

  /** memIndFromGrpInd inverts the membership list. */
  ghost predicate Inverts(row: seq<bool>, memberships: seq<nat>, memInd: seq<int>) {
    && memberships == Selected(row) && |memInd| == |row|
    && (forall imem :: 0 <= imem < |memberships| ==> memberships[imem] < |row| && row[memberships[imem]])
    && (forall g :: 0 <= g < |row| && row[g] ==> 0 <= memInd[g] < |memberships| && memberships[memInd[g]] == g)
    && (forall i, j :: 0 <= i < j < |memberships| ==> memberships[i] < memberships[j])
  }

  method CollectMemberships(row: seq<bool>) returns (memberships: seq<nat>, memInd: seq<int>)
    ensures Inverts(row, memberships, memInd)
  {
    memInd := seq(|row|, _ => -1);
    memberships := [];
    for i := 0 to |row|
      invariant |memInd| == |row|
      invariant memberships == Selected(row[..i])
      invariant forall g :: 0 <= g < i && row[g] ==> 0 <= memInd[g] < |memberships| && memberships[memInd[g]] == g
    {
      SelectedStep(row, i);
      if row[i] {
        memInd := memInd[i := |memberships|];
        memberships := memberships + [i];
      }
    }
    assert row[..|row|] == row;
    SelectedExact(row);
    forall imem | 0 <= imem < |memberships| ensures memberships[imem] < |row| && row[memberships[imem]] {
      assert memberships[imem] in memberships;
    }
  }

  /** What allgatherv returned for the membership lists of all processes. */
  ghost predicate Lists(parts: Matrix, memLists: seq<nat>, sizes: seq<nat>, offsets: seq<nat>) {
    && |sizes| == |offsets| == |parts|
    && forall p :: 0 <= p < |parts| ==>
         && offsets[p] + sizes[p] <= |memLists|
         && memLists[offsets[p]..offsets[p] + sizes[p]] == Selected(parts[p])
  }

  lemma ListsGathered(parts: Matrix, lists: seq<seq<nat>>, me: nat)
    requires |lists| == |parts| && (forall p :: 0 <= p < |parts| ==> lists[p] == Selected(parts[p]))
    requires me < |parts| && |lists[me]| > 0
    ensures Flatten(lists) != []
    ensures forall p :: 0 <= p < |parts| ==>
              && Start(lists, p) + |lists[p]| <= |Flatten(lists)|
              && Flatten(lists)[Start(lists, p)..Start(lists, p) + |lists[p]|] == Selected(parts[p])
  {
    forall p | 0 <= p < |parts|
      ensures Start(lists, p) + |lists[p]| <= |Flatten(lists)|
      ensures Flatten(lists)[Start(lists, p)..Start(lists, p) + |lists[p]|] == Selected(parts[p])
    {
      FlattenSlice(lists, p);
    }
    FlattenSlice(lists, me);
  }

  method PrefixSums(sizes: seq<nat>) returns (offsets: seq<nat>)
    ensures |offsets| == |sizes| + 1 && offsets[0] == 0
    ensures forall i :: 0 <= i < |sizes| ==> offsets[i + 1] == offsets[i] + sizes[i]
  {
    offsets := [0];
    for imem := 0 to |sizes|
      invariant |offsets| == imem + 1 && offsets[0] == 0
      invariant forall i :: 0 <= i < imem ==> offsets[i + 1] == offsets[i] + sizes[i]
    {
      offsets := offsets + [offsets[imem] + sizes[imem]];
    }
  }

  /** Does the process with this row belong to the group of membership imem? */
  function Joins(row: seq<bool>, g: nat): nat
    requires g < |row|
  { if row[g] then 1 else 0 }

  lemma OneMoreInPrefix(list: seq<nat>, i: nat)
    requires i < |list|
    ensures forall x :: x in list[..i + 1] <==> x in list[..i] || x == list[i]
  { assert list[..i + 1] == list[..i] + [list[i]]; }

  /** One pass over the membership list of one process. */
  method CountProcess(row: seq<bool>, memberships: seq<nat>, memInd: seq<int>, memLists: seq<nat>, o: nat, s: nat,
                      ghost theirs: seq<bool>, before: seq<nat>) returns (grpSizes: seq<nat>)
    requires Inverts(row, memberships, memInd) && |theirs| == |row| && |before| == |memberships|
    requires o + s <= |memLists| && memLists[o..o + s] == Selected(theirs)
    ensures |grpSizes| == |memberships|
    ensures forall imem :: 0 <= imem < |memberships| ==>
              grpSizes[imem] == before[imem] + Joins(theirs, memberships[imem])
  {
    ghost var list := Selected(theirs);
    SelectedExact(theirs);
    grpSizes := before;
    for i := 0 to s
      invariant |grpSizes| == |memberships|
      invariant forall imem :: 0 <= imem < |memberships| ==>
                  grpSizes[imem] == before[imem] + (if memberships[imem] in list[..i] then 1 else 0)
    {
      var igrp := memLists[o + i];
      assert igrp == list[i] && list[..i + 1] == list[..i] + [igrp];
      assert igrp in list && igrp !in list[..i];
      OneMoreInPrefix(list, i);
      if row[igrp] {
        grpSizes := grpSizes[memInd[igrp] := grpSizes[memInd[igrp]] + 1];
      }
    }
    assert list[..s] == list;
  }

  method CountMembers(parts: Matrix, ghost groups: nat, me: nat, memberships: seq<nat>, memInd: seq<int>,
                      memLists: seq<nat>, sizes: seq<nat>, offsets: seq<nat>) returns (grpSizes: seq<nat>)
    requires me < |parts| && Rectangular(parts, groups) && Inverts(parts[me], memberships, memInd)
    requires Lists(parts, memLists, sizes, offsets)
    ensures |grpSizes| == |memberships|
    ensures forall imem :: 0 <= imem < |memberships| ==> grpSizes[imem] == |Members(parts, memberships[imem])|
  {
    ghost var row := parts[me];
    grpSizes := seq(|memberships|, _ => 0);
    for iproc := 0 to |parts|
      invariant |grpSizes| == |memberships|
      invariant forall imem :: 0 <= imem < |memberships| ==>
                  grpSizes[imem] == |MembersUpTo(parts, memberships[imem], iproc)|
    {
      grpSizes := CountProcess(parts[me], memberships, memInd, memLists, offsets[iproc], sizes[iproc], parts[iproc],
        grpSizes);
    }
  }

  /** imem has room for the members up to process k. */
  ghost predicate Room(groupOffsets: seq<nat>, groupMembers: seq<nat>, fill: seq<nat>) {
    && |groupOffsets| == |fill| + 1 && groupOffsets[|fill|] == |groupMembers|
    && (forall i, j :: 0 <= i <= j <= |fill| ==> groupOffsets[i] <= groupOffsets[j])
    && forall imem {:trigger fill[imem]} :: 0 <= imem < |fill| ==>
         groupOffsets[imem] + fill[imem] <= groupOffsets[imem + 1] <= |groupMembers|
  }

  ghost function Slice(groupOffsets: seq<nat>, groupMembers: seq<nat>, fill: seq<nat>, imem: nat): seq<nat>
    requires Room(groupOffsets, groupMembers, fill) && imem < |fill|
  { groupMembers[groupOffsets[imem]..groupOffsets[imem] + fill[imem]] }

  /** Filling one slot of group k leaves all other slices alone. */
  lemma SlotFilled(groupOffsets: seq<nat>, groupMembers: seq<nat>, fill: seq<nat>, k: nat, v: nat, imem: nat)
    requires Room(groupOffsets, groupMembers, fill) && k < |fill| && imem < |fill|
    requires groupOffsets[k] + fill[k] < groupOffsets[k + 1]
    ensures groupOffsets[k] + fill[k] < |groupMembers|
    ensures var members' := groupMembers[groupOffsets[k] + fill[k] := v]; var fill' := fill[k := fill[k] + 1];
            && Room(groupOffsets, members', fill')
            && Slice(groupOffsets, members', fill', imem) ==
               Slice(groupOffsets, groupMembers, fill, imem) + (if imem == k then [v] else [])
  {
    assert groupOffsets[k + 1] <= groupOffsets[|fill|];
    if imem < k { assert groupOffsets[imem + 1] <= groupOffsets[k]; }
    if k < imem { assert groupOffsets[k + 1] <= groupOffsets[imem]; }
    assert imem < |fill| ==> groupOffsets[imem + 1] <= groupOffsets[|fill|];
  }

  lemma RoomShape(groupOffsets: seq<nat>, groupMembers: seq<nat>, fill: seq<nat>)
    requires Room(groupOffsets, groupMembers, fill)
    ensures |groupOffsets| == |fill| + 1
  {}

  lemma SlotFilledAll(groupOffsets: seq<nat>, groupMembers: seq<nat>, fill: seq<nat>, k: nat, v: nat)
    requires Room(groupOffsets, groupMembers, fill) && k < |fill|
    requires groupOffsets[k] + fill[k] < groupOffsets[k + 1]
    ensures groupOffsets[k] + fill[k] < |groupMembers|
    ensures var members' := groupMembers[groupOffsets[k] + fill[k] := v]; var fill' := fill[k := fill[k] + 1];
            && Room(groupOffsets, members', fill')
            && forall imem :: 0 <= imem < |fill| ==>
                 Slice(groupOffsets, members', fill', imem) ==
                 Slice(groupOffsets, groupMembers, fill, imem) + (if imem == k then [v] else [])
  {
    hide Room, Slice;
    SlotFilled(groupOffsets, groupMembers, fill, k, v, k);
    forall imem | 0 <= imem < |fill| {
      SlotFilled(groupOffsets, groupMembers, fill, k, v, imem);
    }
  }

  method FillProcess(row: seq<bool>, memberships: seq<nat>, memInd: seq<int>, memLists: seq<nat>, o: nat, s: nat,
                     iproc: nat, ghost theirs: seq<bool>, groupOffsets: seq<nat>, members0: seq<nat>, fill0: seq<nat>)
      returns (groupMembers: seq<nat>, fill: seq<nat>)
    requires Inverts(row, memberships, memInd) && |theirs| == |row| && |fill0| == |memberships|
    requires o + s <= |memLists| && memLists[o..o + s] == Selected(theirs)
    requires Room(groupOffsets, members0, fill0)
    requires forall imem :: 0 <= imem < |fill0| ==>
               groupOffsets[imem] + fill0[imem] + Joins(theirs, memberships[imem]) <= groupOffsets[imem + 1]
    ensures |fill| == |fill0| && |groupMembers| == |members0| && Room(groupOffsets, groupMembers, fill)
    ensures forall imem :: 0 <= imem < |fill| ==> fill[imem] == fill0[imem] + Joins(theirs, memberships[imem])
    ensures forall imem :: 0 <= imem < |fill| ==>
              Slice(groupOffsets, groupMembers, fill, imem)
              == Slice(groupOffsets, members0, fill0, imem) + (if theirs[memberships[imem]] then [iproc] else [])
  {
    ghost var list := Selected(theirs);
    SelectedExact(theirs);
    hide Room, Slice, Selected;
    assert |groupOffsets| == |fill0| + 1 by { RoomShape(groupOffsets, members0, fill0); }
    groupMembers, fill := members0, fill0;
    for i := 0 to s
      invariant |fill| == |fill0| && |groupMembers| == |members0| && Room(groupOffsets, groupMembers, fill)
      invariant forall imem :: 0 <= imem < |fill| ==>
                  fill[imem] == fill0[imem] + (if memberships[imem] in list[..i] then 1 else 0)
      invariant forall imem :: 0 <= imem < |fill| ==>
                  Slice(groupOffsets, groupMembers, fill, imem)
                  == Slice(groupOffsets, members0, fill0, imem)
                     + (if memberships[imem] in list[..i] then [iproc] else [])
    {
      var igrp := memLists[o + i];
      assert igrp == list[i] && list[..i + 1] == list[..i] + [igrp];
      assert igrp in list && igrp !in list[..i];
      if row[igrp] {
        var k := memInd[igrp];
        assert theirs[memberships[k]];
        SlotFilledAll(groupOffsets, groupMembers, fill, k, iproc);
        groupMembers := groupMembers[groupOffsets[k] + fill[k] := iproc];
        fill := fill[k := fill[k] + 1];
      }
    }
    assert list[..s] == list;
  }

  lemma {:induction false} OffsetsAscend(offsets: seq<nat>, sizes: seq<nat>, i: nat, j: nat)
    requires |offsets| == |sizes| + 1 && i <= j <= |sizes|
    requires forall k :: 0 <= k < |sizes| ==> offsets[k + 1] == offsets[k] + sizes[k]
    ensures offsets[i] <= offsets[j]
  { if i < j { OffsetsAscend(offsets, sizes, i, j - 1); } }

  lemma OffsetsSorted(offsets: seq<nat>, sizes: seq<nat>)
    requires |offsets| == |sizes| + 1
    requires forall k :: 0 <= k < |sizes| ==> offsets[k + 1] == offsets[k] + sizes[k]
    ensures forall i, j :: 0 <= i <= j <= |sizes| ==> offsets[i] <= offsets[j]
  {
    forall i, j | 0 <= i <= j <= |sizes| ensures offsets[i] <= offsets[j] {
      OffsetsAscend(offsets, sizes, i, j);
    }
  }

  method FillMembers(parts: Matrix, ghost groups: nat, me: nat, memberships: seq<nat>, memInd: seq<int>,
                     memLists: seq<nat>, sizes: seq<nat>, offsets: seq<nat>, groupOffsets: seq<nat>)
      returns (groupMembers: seq<nat>)
    requires me < |parts| && Rectangular(parts, groups) && Inverts(parts[me], memberships, memInd)
    requires Lists(parts, memLists, sizes, offsets)
    requires |groupOffsets| == |memberships| + 1
    requires forall i, j :: 0 <= i <= j <= |memberships| ==> groupOffsets[i] <= groupOffsets[j]
    requires forall imem :: 0 <= imem < |memberships| ==>
               groupOffsets[imem + 1] == groupOffsets[imem] + |Members(parts, memberships[imem])|
    ensures |groupMembers| == groupOffsets[|memberships|]
    ensures forall imem :: 0 <= imem < |memberships| ==>
              Holds(groupOffsets, groupMembers, imem, Members(parts, memberships[imem]))
  {
    hide Selected, Filled, Room, Slice, Holds;
    groupMembers := seq(groupOffsets[|memberships|], _ => 0);
    var fill: seq<nat> := seq(|memberships|, _ => 0);
    FillStarts(parts, groups, memberships, groupOffsets, groupMembers, fill);
    for iproc := 0 to |parts|
      invariant Filled(parts, groups, memberships, groupOffsets, groupMembers, fill, iproc)
      invariant |fill| == |memberships| && Room(groupOffsets, groupMembers, fill)
      invariant |groupMembers| == groupOffsets[|memberships|]
    {
      RoomForNext(parts, groups, memberships, groupOffsets, groupMembers, fill, iproc);
      ghost var members0, fill0 := groupMembers, fill;
      groupMembers, fill := FillProcess(parts[me], memberships, memInd, memLists, offsets[iproc], sizes[iproc], iproc,
                                        parts[iproc], groupOffsets, groupMembers, fill);
      FillAdvances(parts, groups, memberships, groupOffsets, members0, fill0, groupMembers, fill, iproc);
    }
    FillEnds(parts, groups, memberships, groupOffsets, groupMembers, fill);
  }

  lemma FillStarts(parts: Matrix, groups: nat, memberships: seq<nat>, groupOffsets: seq<nat>,
                   groupMembers: seq<nat>, fill: seq<nat>)
    requires Rectangular(parts, groups)
    requires forall imem :: 0 <= imem < |memberships| ==> memberships[imem] < groups
    requires |groupOffsets| == |memberships| + 1 && |groupMembers| == groupOffsets[|memberships|]
    requires forall i, j :: 0 <= i <= j <= |memberships| ==> groupOffsets[i] <= groupOffsets[j]
    requires |fill| == |memberships| && forall imem :: 0 <= imem < |fill| ==> fill[imem] == 0
    ensures Filled(parts, groups, memberships, groupOffsets, groupMembers, fill, 0)
    ensures Room(groupOffsets, groupMembers, fill)
  {}

  lemma FillAdvances(parts: Matrix, groups: nat, memberships: seq<nat>, groupOffsets: seq<nat>,
                     members0: seq<nat>, fill0: seq<nat>, groupMembers: seq<nat>, fill: seq<nat>, k: nat)
    requires k < |parts| && Rectangular(parts, groups)
    requires forall imem :: 0 <= imem < |memberships| ==> memberships[imem] < groups
    requires Filled(parts, groups, memberships, groupOffsets, members0, fill0, k)
    requires |fill| == |fill0| == |memberships|
    requires Room(groupOffsets, groupMembers, fill) && Room(groupOffsets, members0, fill0)
    requires forall imem :: 0 <= imem < |fill| ==> fill[imem] == fill0[imem] + Joins(parts[k], memberships[imem])
    requires forall imem :: 0 <= imem < |fill| ==>
               Slice(groupOffsets, groupMembers, fill, imem)
               == Slice(groupOffsets, members0, fill0, imem) + (if parts[k][memberships[imem]] then [k] else [])
    ensures Filled(parts, groups, memberships, groupOffsets, groupMembers, fill, k + 1)
  { hide Slice, Room; }

  lemma FillEnds(parts: Matrix, groups: nat, memberships: seq<nat>, groupOffsets: seq<nat>,
                 groupMembers: seq<nat>, fill: seq<nat>)
    requires Rectangular(parts, groups)
    requires forall imem :: 0 <= imem < |memberships| ==> memberships[imem] < groups
    requires Filled(parts, groups, memberships, groupOffsets, groupMembers, fill, |parts|)
    requires |groupOffsets| == |memberships| + 1
    requires forall imem :: 0 <= imem < |memberships| ==>
               groupOffsets[imem + 1] == groupOffsets[imem] + |Members(parts, memberships[imem])|
    ensures forall imem :: 0 <= imem < |memberships| ==>
              Holds(groupOffsets, groupMembers, imem, Members(parts, memberships[imem]))
  { hide MembersUpTo; }

  /** The processes before k have been entered into the slices. */
  ghost predicate Filled(parts: Matrix, groups: nat, memberships: seq<nat>, groupOffsets: seq<nat>,
                         groupMembers: seq<nat>, fill: seq<nat>, k: nat)
    requires k <= |parts| && Rectangular(parts, groups)
    requires forall imem :: 0 <= imem < |memberships| ==> memberships[imem] < groups
  {
    && |fill| == |memberships| && Room(groupOffsets, groupMembers, fill)
    && forall imem :: 0 <= imem < |memberships| ==>
         && fill[imem] == |MembersUpTo(parts, memberships[imem], k)|
         && Slice(groupOffsets, groupMembers, fill, imem) == MembersUpTo(parts, memberships[imem], k)
  }

  lemma RoomForNext(parts: Matrix, groups: nat, memberships: seq<nat>, groupOffsets: seq<nat>,
                    groupMembers: seq<nat>, fill: seq<nat>, k: nat)
    requires k < |parts| && Rectangular(parts, groups)
    requires forall imem :: 0 <= imem < |memberships| ==> memberships[imem] < groups
    requires Filled(parts, groups, memberships, groupOffsets, groupMembers, fill, k)
    requires forall imem :: 0 <= imem < |memberships| ==>
               groupOffsets[imem + 1] == groupOffsets[imem] + |Members(parts, memberships[imem])|
    ensures forall imem :: 0 <= imem < |fill| ==>
              groupOffsets[imem] + fill[imem] + Joins(parts[k], memberships[imem]) <= groupOffsets[imem + 1]
  {
    hide Room, Slice;
    forall imem | 0 <= imem < |memberships|
      ensures fill[imem] + Joins(parts[k], memberships[imem]) <= |Members(parts, memberships[imem])|
    {
      MembersGrow(parts, memberships[imem], k + 1, |parts|);
    }
  }

  /** Any two members of a group hold the same list for it, each participant once in ascending
      rank, and therefore take the same process for its root. */
  lemma MembersAgree(a: MultiGroupCommunicator, b: MultiGroupCommunicator, parts: Matrix, groups: nat,
                     p: nat, q: nat, i: nat, j: nat)
    requires a.Indexed(parts, groups, p) && b.Indexed(parts, groups, q)
    requires i < |a.memberships| && j < |b.memberships| && a.memberships[i] == b.memberships[j]
    ensures var slice := a.groupMembers[a.groupOffsets[i]..a.groupOffsets[i + 1]];
            && slice == b.groupMembers[b.groupOffsets[j]..b.groupOffsets[j + 1]]
            && Ascending(slice)
            && (forall r: nat :: r in slice <==> r < |parts| && parts[r][a.memberships[i]])
            && p in slice && q in slice && slice[0] <= p && slice[0] <= q
  {
    hide MembersUpTo, Selected;
    var g := a.memberships[i];
    MembersExact(parts, g, |parts|);
    SelectedExact(parts[p]);
    SelectedExact(parts[q]);
    assert g in Selected(parts[p]) && g in Selected(parts[q]);
    var slice := Members(parts, g);
    assert p in slice && q in slice;
    assert Holds(a.groupOffsets, a.groupMembers, i, slice) && Holds(b.groupOffsets, b.groupMembers, j, slice);
  }
}
