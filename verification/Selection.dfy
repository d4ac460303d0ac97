/** Ascending index lists of boolean flags: the shape of every membership list,
    member list and process list in the communication layer. */
module Selection {

  /** The positions at which flags hold, in ascending order. */
  function Selected(flags: seq<bool>): (r: seq<nat>)
    ensures forall k :: 0 <= k < |r| ==> r[k] < |flags|
  {
    if |flags| == 0 then []
    else
      var n := |flags| - 1;
      Selected(flags[..n]) + (if flags[n] then [n] else [])
  }

  ghost predicate Ascending(s: seq<nat>) {
    forall i, j :: 0 <= i < j < |s| ==> s[i] < s[j]
  }

  /** The list is strictly ascending and holds exactly the true positions. */
  lemma {:induction false} SelectedExact(flags: seq<bool>)
    ensures Ascending(Selected(flags))
    ensures forall x: nat :: x in Selected(flags) <==> x < |flags| && flags[x]
  {
    if |flags| > 0 {
      var n := |flags| - 1;
      SelectedExact(flags[..n]);
    }
  }

  /** One more flag extends the list by at most that position. */
  lemma SelectedStep(flags: seq<bool>, n: nat)
    requires n < |flags|
    ensures Selected(flags[..n + 1]) == Selected(flags[..n]) + (if flags[n] then [n] else [])
  {
    assert flags[..n + 1][..n] == flags[..n];
  }
}
