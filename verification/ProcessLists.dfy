/** Who talks to whom: the receive lists computed from all send lists, and the distributed
    checks of send and receive lists and of layouts. */
module ProcessLists {
  import opened Gathers
  import opened Selection
  import opened SubCommunicators

  /** The members of a communicator, by rank, with what each of them contributes. */
  ghost predicate OnMembers<T>(members: seq<nat>, xs: seq<T>) { |xs| == |members| && Ascending(members) }

  // ---- CommunicateInvolvedProcesses -----------------------------------------------------------

  /** The members that have me on their send list, by rank. */
  function Senders(members: seq<nat>, sendTo: seq<seq<int>>, me: int): (r: seq<nat>)
    requires |sendTo| == |members|
  {
    if |members| == 0 then []
    else
      var n := |members| - 1;
      Senders(members[..n], sendTo[..n], me) + (if me in sendTo[n] then [members[n]] else [])
  }

  /** The receive relation is the converse of the send relation, and the list is ascending, so
      that no process is listed twice. */
  lemma {:induction false} SendersAreConverse(members: seq<nat>, sendTo: seq<seq<int>>, me: int)
    requires OnMembers(members, sendTo)
    ensures Ascending(Senders(members, sendTo, me))
    ensures forall x :: x in Senders(members, sendTo, me) <==>
              exists i :: 0 <= i < |members| && members[i] == x && me in sendTo[i]
  {
    if |members| > 0 {
      var n := |members| - 1;
      SendersAreConverse(members[..n], sendTo[..n], me);
      var before := Senders(members[..n], sendTo[..n], me);
      forall k | 0 <= k < |before| ensures before[k] < members[n] {
        assert before[k] in before;
      }
    }
  }

  /** The loop over the concatenated lists; sizes and displacements as in the gathers. */
  method CommunicateInvolvedProcesses(members: seq<nat>, counts: seq<nat>, globalList: seq<int>, me: int,
                                      ghost sendTo: seq<seq<int>>)
    returns (receiveFrom: seq<nat>)
    requires |counts| == |sendTo| == |members|
    requires globalList == Flatten(sendTo)
    requires forall i :: 0 <= i < |counts| ==> counts[i] == |sendTo[i]|
    ensures receiveFrom == Senders(members, sendTo, me)
  {
    receiveFrom := [];
    if |members| == 0 { return; }
    var displacements: seq<nat> := [];
    var listSize := 0;
    var i := 0;
    while i < |counts|
      invariant 0 <= i <= |counts| && |displacements| == i && listSize == Start(sendTo, i)
      invariant forall k :: 0 <= k < i ==> displacements[k] == Start(sendTo, k)
    {
      FlattenSlice(sendTo, i);
      displacements := displacements + [listSize];
      listSize := listSize + counts[i];
      i := i + 1;
    }
    assert sendTo[..i] == sendTo;
    if listSize == 0 { NobodySends(members, sendTo, me); return; }
    i := 0;
    while i < |counts|
      invariant 0 <= i <= |counts| && receiveFrom == Senders(members[..i], sendTo[..i], me)
    {
      FlattenSlice(sendTo, i);
      var found := Search(globalList, displacements[i], counts[i], me);
      SendersStep(members, sendTo, me, i);
      if found { receiveFrom := receiveFrom + [members[i]]; }
      i := i + 1;
    }
    assert members[..i] == members && sendTo[..i] == sendTo;
  }

  method Search(list: seq<int>, from: nat, count: nat, x: int) returns (found: bool)
    requires from + count <= |list|
    ensures found <==> x in list[from..from + count]
  {
    var j := 0;
    while j < count
      invariant 0 <= j <= count && x !in list[from..from + j]
    {
      if list[from + j] == x { assert list[from..from + count][j] == x; return true; }
      j := j + 1;
    }
    return false;
  }

  lemma SendersStep(members: seq<nat>, sendTo: seq<seq<int>>, me: int, i: nat)
    requires i < |members| == |sendTo|
    ensures Senders(members[..i + 1], sendTo[..i + 1], me)
         == Senders(members[..i], sendTo[..i], me) + (if me in sendTo[i] then [members[i]] else [])
  { assert members[..i + 1][..i] == members[..i] && sendTo[..i + 1][..i] == sendTo[..i]; }

  lemma {:induction false} NobodySends(members: seq<nat>, sendTo: seq<seq<int>>, me: int)
    requires |members| == |sendTo| && |Flatten(sendTo)| == 0
    ensures Senders(members, sendTo, me) == []
  {
    if |members| > 0 {
      var n := |members| - 1;
      NobodySends(members[..n], sendTo[..n], me);
    }
  }

  // ---- SendRecvListsMatch -----------------------------------------------------------------------

  /** Overwrites the first entry with that rank by -1. */
  function Strike(list: seq<int>, x: int): seq<int> {
    if |list| == 0 then [] else if list[0] == x then [-1] + list[1..] else [list[0]] + Strike(list[1..], x)
  }

  /** The entries that count: -1 stands for a handled one. */
  function Pending(list: seq<int>): multiset<int> {
    if |list| == 0 then multiset{} else (if list[0] == -1 then multiset{} else multiset{list[0]}) + Pending(list[1..])
  }

  lemma {:induction false} StrikeRemoves(list: seq<int>, x: int)
    requires x != -1 && x in list
    ensures Pending(list) == Pending(Strike(list, x)) + multiset{x}
  {
    if list[0] == x {
      PendingCons(-1, list[1..]);
    } else {
      assert x in list[1..];
      StrikeRemoves(list[1..], x);
      PendingCons(list[0], Strike(list[1..], x));
    }
  }

  lemma PendingCons(x: int, rest: seq<int>)
    ensures Pending([x] + rest) == (if x == -1 then multiset{} else multiset{x}) + Pending(rest)
  { assert ([x] + rest)[1..] == rest; }

  lemma {:induction false} PendingMember(list: seq<int>, x: int)
    requires x != -1
    ensures x in list <==> x in Pending(list)
  {
    if |list| > 0 {
      PendingMember(list[1..], x);
      assert x in list <==> list[0] == x || x in list[1..];
    }
  }

  lemma {:induction false} NothingPending(list: seq<int>)
    ensures Pending(list) == multiset{} <==> forall k :: 0 <= k < |list| ==> list[k] == -1
  {
    if |list| > 0 {
      NothingPending(list[1..]);
      if list[0] != -1 { assert list[0] in Pending(list); }
      if forall k :: 0 <= k < |list| ==> list[k] == -1 {
        assert forall k :: 0 <= k < |list[1..]| ==> list[1..][k] == list[k + 1];
      }
      if list[0] == -1 && Pending(list) == multiset{} {
        forall k | 0 <= k < |list| ensures list[k] == -1 { if k > 0 { assert list[1..][k - 1] == list[k]; } }
      }
    }
  }

  /** The local part of SendRecvListsMatch: the receive list, apart from entries -1, holds the
      sending processes and nothing else, each exactly once. */
  method LocalListsMatch(recvFrom: seq<int>, sending: seq<nat>) returns (match': bool)
    requires Ascending(sending)
    ensures match' <==> Pending(recvFrom) == multiset(Ints(sending))
  {
    hide Ints;
    var list, allFound := StrikeAll(recvFrom, sending);
    var noneLeft := NoneLeft(list);
    match' := allFound && noneLeft;
  }

  method StrikeAll(recvFrom: seq<int>, sending: seq<nat>) returns (list: seq<int>, allFound: bool)
    requires Ascending(sending)
    ensures allFound ==> Pending(recvFrom) == Pending(list) + multiset(Ints(sending))
    ensures !allFound ==> Pending(recvFrom) != multiset(Ints(sending))
  {
    hide Pending, Strike, Ints;
    list, allFound := recvFrom, true;
    var i := 0;
    IntsNone(sending);
    while i < |sending|
      invariant 0 <= i <= |sending|
      invariant allFound ==> Pending(recvFrom) == Pending(list) + multiset(Ints(sending[..i]))
      invariant !allFound ==> Pending(recvFrom) != multiset(Ints(sending))
    {
      var rank := sending[i];
      PendingMember(list, rank);
      IntsStep(sending, i);
      if rank in list {
        StrikeRemoves(list, rank);
        list := Strike(list, rank);
      } else if allFound {
        NotAwaited(recvFrom, list, sending, i);
        allFound := false;
      }
      i := i + 1;
    }
    assert sending[..i] == sending;
  }

  method NoneLeft(list: seq<int>) returns (none: bool)
    ensures none <==> Pending(list) == multiset{}
  {
    none := true;
    NothingPending(list);
    var k := 0;
    while k < |list|
      invariant 0 <= k <= |list|
      invariant none <==> forall j :: 0 <= j < k ==> list[j] == -1
    {
      if list[k] != -1 { none := false; }
      k := k + 1;
    }
  }

  lemma IntsNone(s: seq<nat>)
    ensures multiset(Ints(s[..0])) == multiset{}
  { assert Ints(s[..0]) == []; }

  function Ints(s: seq<nat>): (r: seq<int>)
    ensures |r| == |s| && forall k :: 0 <= k < |s| ==> r[k] == s[k]
  { s }

  lemma IntsStep(s: seq<nat>, i: nat)
    requires i < |s|
    ensures multiset(Ints(s[..i + 1])) == multiset(Ints(s[..i])) + multiset{s[i]}
  { assert Ints(s[..i + 1]) == Ints(s[..i]) + [s[i]]; }

  /** A sending process that is no longer on the list has been missing from the start. */
  lemma NotAwaited(recvFrom: seq<int>, list: seq<int>, sending: seq<nat>, i: nat)
    requires Ascending(sending) && i < |sending| && sending[i] !in Pending(list)
    requires Pending(recvFrom) == Pending(list) + multiset(Ints(sending[..i]))
    ensures Pending(recvFrom) != multiset(Ints(sending))
  {
    var x: int := sending[i];
    assert x !in Ints(sending[..i]);
    assert x !in multiset(Ints(sending[..i]));
    assert Ints(sending)[i] == x;
    assert x in multiset(Ints(sending));
  }

  /** AllProcsTrue: the logical and over the communicator, the same on every process. */
  function AllProcsTrue(flags: seq<bool>): bool {
    if |flags| == 0 then true else AllProcsTrue(flags[..|flags| - 1]) && flags[|flags| - 1]
  }

  lemma {:induction false} AllProcsTrueIff(flags: seq<bool>)
    ensures AllProcsTrue(flags) <==> forall k :: 0 <= k < |flags| ==> flags[k]
  { if |flags| > 0 { AllProcsTrueIff(flags[..|flags| - 1]); } }

  /** Each process that sends to q is listed there exactly once, nobody else is, and all further
      entries are -1. */
  ghost predicate Awaits(members: seq<nat>, sendTo: seq<seq<int>>, list: seq<int>, q: nat)
    requires |sendTo| == |members| && q < |members|
  {
    && (forall p :: 0 <= p < |members| ==>
          multiset(list)[members[p]] == if members[q] in sendTo[p] then 1 else 0)
    && (forall x :: x in list ==> x == -1 || exists p :: 0 <= p < |members| && members[p] == x)
  }

  lemma {:induction false} PendingCount(list: seq<int>, x: int)
    ensures Pending(list)[x] == if x == -1 then 0 else multiset(list)[x]
  {
    if |list| > 0 {
      PendingCount(list[1..], x);
      assert list == [list[0]] + list[1..];
    }
  }

  lemma {:induction false} AscendingCount(s: seq<nat>, x: int)
    requires Ascending(s)
    ensures multiset(Ints(s))[x] == if exists k :: 0 <= k < |s| && s[k] == x then 1 else 0
  {
    if |s| > 0 {
      var n := |s| - 1;
      AscendingCount(s[..n], x);
      IntsStep(s, n);
      assert s[..n + 1] == s;
      if s[n] == x {
        assert !exists k :: 0 <= k < n && s[..n][k] == x;
      } else if exists k :: 0 <= k < |s| && s[k] == x {
        var k :| 0 <= k < |s| && s[k] == x;
        assert s[..n][k] == x;
      }
    }
  }

  /** How often a rank is among the senders to q. */
  lemma SenderCount(members: seq<nat>, sendTo: seq<seq<int>>, q: nat, x: int)
    requires OnMembers(members, sendTo) && q < |members|
    ensures multiset(Ints(Senders(members, sendTo, members[q])))[x]
         == if exists p :: 0 <= p < |members| && members[p] == x && members[q] in sendTo[p] then 1 else 0
  {
    hide Senders, Ints;
    SendersAreConverse(members, sendTo, members[q]);
    var s := Senders(members, sendTo, members[q]);
    AscendingCount(s, x);
    if k :| 0 <= k < |s| && s[k] == x { assert s[k] in s; }
    if p :| 0 <= p < |members| && members[p] == x && members[q] in sendTo[p] { assert members[p] in s; }
  }

  /** The local check on q succeeds exactly if the list awaits the senders to q. */
  lemma LocalCheckIff(members: seq<nat>, sendTo: seq<seq<int>>, list: seq<int>, q: nat)
    requires OnMembers(members, sendTo) && q < |members|
    ensures Pending(list) == multiset(Ints(Senders(members, sendTo, members[q]))) <==> Awaits(members, sendTo, list, q)
  {
    hide Senders, Ints, Pending;
    var expected := multiset(Ints(Senders(members, sendTo, members[q])));
    if Pending(list) == expected { ChecksAwait(members, sendTo, list, q); }
    if Awaits(members, sendTo, list, q) {
      forall x: int ensures Pending(list)[x] == expected[x] {
        PendingCount(list, x);
        SenderCount(members, sendTo, q, x);
        if x != -1 { CountOfMember(members, sendTo, list, q, x); }
      }
    }
  }

  lemma ChecksAwait(members: seq<nat>, sendTo: seq<seq<int>>, list: seq<int>, q: nat)
    requires OnMembers(members, sendTo) && q < |members|
    requires Pending(list) == multiset(Ints(Senders(members, sendTo, members[q])))
    ensures Awaits(members, sendTo, list, q)
  {
    hide Senders, Ints, Pending;
    forall p | 0 <= p < |members| ensures multiset(list)[members[p]] == if members[q] in sendTo[p] then 1 else 0 {
      PendingCount(list, members[p]);
      SenderCount(members, sendTo, q, members[p]);
    }
    forall x | x in list && x != -1 ensures exists p :: 0 <= p < |members| && members[p] == x {
      PendingCount(list, x);
      SenderCount(members, sendTo, q, x);
      assert x in multiset(list);
    }
  }

  lemma CountOfMember(members: seq<nat>, sendTo: seq<seq<int>>, list: seq<int>, q: nat, x: int)
    requires OnMembers(members, sendTo) && q < |members| && Awaits(members, sendTo, list, q) && x != -1
    ensures multiset(list)[x] ==
              if exists p :: 0 <= p < |members| && members[p] == x && members[q] in sendTo[p] then 1 else 0
  {
    if p :| 0 <= p < |members| && members[p] == x {
      assert multiset(list)[members[p]] == if members[q] in sendTo[p] then 1 else 0;
    } else {
      assert x !in list;
      assert x !in multiset(list);
    }
  }

  /** The answer, which is the same on every process, is yes exactly if on every process the list
      of awaited processes is the converse of the send lists: each sender once and nobody else. */
  lemma SendRecvListsMatch(members: seq<nat>, sendTo: seq<seq<int>>, recvFrom: seq<seq<int>>, local: seq<bool>)
    requires OnMembers(members, sendTo) && |recvFrom| == |local| == |members|
    requires forall q :: 0 <= q < |members| ==>
               (local[q] <==> Pending(recvFrom[q]) == multiset(Ints(Senders(members, sendTo, members[q]))))
    ensures AllProcsTrue(local) <==> forall q :: 0 <= q < |members| ==> Awaits(members, sendTo, recvFrom[q], q)
  {
    hide Senders, Ints, Pending, Awaits;
    AllProcsTrueIff(local);
    forall q | 0 <= q < |members| ensures local[q] <==> Awaits(members, sendTo, recvFrom[q], q) {
      LocalCheckIff(members, sendTo, recvFrom[q], q);
    }
  }

  // ---- TestLayoutIsDoubleEnded ------------------------------------------------------------------

  /** Flags by rank: the peers of a layout that belong to the communicator. */
  function PeerFlags(members: seq<nat>, peers: set<int>): (r: seq<bool>)
    ensures |r| == |members| && forall i :: 0 <= i < |r| ==> (r[i] <==> members[i] in peers)
  { seq(|members|, i requires 0 <= i < |members| => members[i] in peers) }

  /** The loop over the peers of a layout, which are processes of the world: those that have a
      rank in the communicator are marked. */
  method MarkPeers(view: Comm, ghost members: seq<nat>, n: nat, me: nat, rank: nat, size: nat, peers: seq<nat>)
    returns (flags: seq<bool>)
    requires MembersOk(members, n) && ViewOk(view, members, n, me) && rank < |members| == size && members[rank] == me
    requires forall j :: 0 <= j < |peers| ==> peers[j] < n
    ensures |flags| == size && forall i :: 0 <= i < size ==> (flags[i] <==> members[i] in peers)
  {
    flags := seq(size, _ => false);
    var j := 0;
    while j < |peers|
      invariant 0 <= j <= |peers| && |flags| == size
      invariant forall i :: 0 <= i < size ==> (flags[i] <==> members[i] in peers[..j])
    {
      hide ViewOk, GetLocalProcId, GetProcId, MembersOk;
      var id := GetLocalProcId(view, me, rank, peers[j]);
      PeerRank(view, members, n, me, rank, peers[j]);
      assert peers[..j + 1] == peers[..j] + [peers[j]];
      if id != -1 { flags := flags[id := true]; }
      j := j + 1;
    }
    assert peers[..j] == peers;
  }

  lemma PeerRank(view: Comm, members: seq<nat>, n: nat, me: nat, rank: nat, g: nat)
    requires MembersOk(members, n) && ViewOk(view, members, n, me) && rank < |members| && members[rank] == me && g < n
    ensures var id := GetLocalProcId(view, me, rank, g);
            && (id == -1 || 0 <= id < |members|)
            && forall i :: 0 <= i < |members| ==> (members[i] == g <==> i == id)
  {
    TranslationsInverse(view, members, n, me, rank, rank, g);
    var id := GetLocalProcId(view, me, rank, g);
    if g in members {
      assert GetProcId(view, me, id) == g;
      TranslationsInverse(view, members, n, me, rank, id, g);
    }
  }

  /** The check on the process with rank k: what it received from rank i are the k-th flags of
      that process. */
  method TestLayoutIsDoubleEnded(mastersToMe: seq<bool>, slavesToMe: seq<bool>, masterFlags: seq<bool>,
                                 slaveFlags: seq<bool>)
    returns (ok: bool)
    requires |mastersToMe| == |slavesToMe| == |masterFlags| == |slaveFlags|
    ensures ok <==> mastersToMe == slaveFlags && slavesToMe == masterFlags
  {
    var i := 0;
    while i < |mastersToMe|
      invariant 0 <= i <= |mastersToMe|
      invariant forall j :: 0 <= j < i ==> mastersToMe[j] == slaveFlags[j] && slavesToMe[j] == masterFlags[j]
    {
      if mastersToMe[i] != slaveFlags[i] { return false; }
      if slavesToMe[i] != masterFlags[i] { return false; }
      i := i + 1;
    }
    return true;
  }

  /** What arrives at rank k: everybody's flag for k. */
  function FlagsFor(members: seq<nat>, peers: seq<set<int>>, k: nat): (r: seq<bool>)
    requires |peers| == |members| && k < |members|
    ensures |r| == |members| && forall i :: 0 <= i < |r| ==> (r[i] <==> members[k] in peers[i])
  { seq(|members|, i requires 0 <= i < |members| => PeerFlags(members, peers[i])[k]) }

  ghost predicate LocalCheck(members: seq<nat>, masters: seq<set<int>>, slaves: seq<set<int>>, k: nat)
    requires |masters| == |slaves| == |members| && k < |members|
  {
    && FlagsFor(members, masters, k) == PeerFlags(members, slaves[k])
    && FlagsFor(members, slaves, k) == PeerFlags(members, masters[k])
  }

  /** The local answers, combined over the communicator, say exactly that on its members the
      master and the slave relation are each other's converse. */
  lemma DoubleEndedIff(members: seq<nat>, masters: seq<set<int>>, slaves: seq<set<int>>, local: seq<bool>)
    requires OnMembers(members, masters) && |slaves| == |local| == |members|
    requires forall k :: 0 <= k < |members| ==> (local[k] <==> LocalCheck(members, masters, slaves, k))
    ensures AllProcsTrue(local) <==>
              forall p, q :: 0 <= p < |members| && 0 <= q < |members| ==>
                (members[q] in masters[p] <==> members[p] in slaves[q])
  {
    hide LocalCheck, AllProcsTrue;
    AllProcsTrueIff(local);
    if AllProcsTrue(local) {
      forall p, q | 0 <= p < |members| && 0 <= q < |members|
        ensures members[q] in masters[p] <==> members[p] in slaves[q]
      {
        assert LocalCheck(members, masters, slaves, q);
        CheckGivesConverse(members, masters, slaves, p, q);
      }
    }
    if forall p, q :: 0 <= p < |members| && 0 <= q < |members| ==>
      (members[q] in masters[p] <==> members[p] in slaves[q]) {
      forall k | 0 <= k < |members| ensures LocalCheck(members, masters, slaves, k) {
        ConverseGivesCheck(members, masters, slaves, k);
      }
    }
  }

  lemma CheckGivesConverse(members: seq<nat>, masters: seq<set<int>>, slaves: seq<set<int>>, p: nat, q: nat)
    requires |masters| == |slaves| == |members| && p < |members| && q < |members|
    requires LocalCheck(members, masters, slaves, q)
    ensures members[q] in masters[p] <==> members[p] in slaves[q]
  { assert FlagsFor(members, masters, q)[p] == PeerFlags(members, slaves[q])[p]; }

  lemma ConverseGivesCheck(members: seq<nat>, masters: seq<set<int>>, slaves: seq<set<int>>, k: nat)
    requires |masters| == |slaves| == |members| && k < |members|
    requires forall p :: 0 <= p < |members| ==> (members[k] in masters[p] <==> members[p] in slaves[k])
    requires forall p :: 0 <= p < |members| ==> (members[p] in masters[k] <==> members[k] in slaves[p])
    ensures LocalCheck(members, masters, slaves, k)
  {
    assert FlagsFor(members, masters, k) == PeerFlags(members, slaves[k]);
    assert FlagsFor(members, slaves, k) == PeerFlags(members, masters[k]);
  }
}
