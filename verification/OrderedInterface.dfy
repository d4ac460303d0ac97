/** OrderedInterface: entries with local ids that order them, handed out by a counter that
    wraps around at the width of size_t. */
module OrderedInterfaces {
  import opened StableSort

  const WRAP: nat := 0x1_0000_0000_0000_0000

  datatype Item<T> = Item(elem: T, localID: nat)

  /** The fields of an interface; a counter of 0 has just wrapped around. */
  datatype State<T> = State(items: seq<Item<T>>, size: nat, target: int, counter: nat)

  function Elems<T>(items: seq<Item<T>>): (r: seq<T>)
    ensures |r| == |items| && forall k :: 0 <= k < |r| ==> r[k] == items[k].elem
  { seq(|items|, k requires 0 <= k < |items| => items[k].elem) }

  /** Consecutive ids from start, as ++ yields them. */
  function Renumbered<T>(items: seq<Item<T>>, start: nat): (r: seq<Item<T>>)
    ensures |r| == |items|
    ensures forall k :: 0 <= k < |r| ==> r[k] == Item(items[k].elem, (start + k) % WRAP)
  { seq(|items|, k requires 0 <= k < |items| => Item(items[k].elem, (start + k) % WRAP)) }

  function Bound(counter: nat): nat { if counter == 0 then WRAP else counter }

  /** Ids rise in sequence order, are not 0 and lie below the counter; the size is right. */
  ghost predicate Numbered<T>(s: State<T>) {
    && s.size == |s.items| && s.counter < WRAP
    && (forall i, j :: 0 <= i < j < |s.items| ==> s.items[i].localID < s.items[j].localID)
    && (forall i :: 0 <= i < |s.items| ==> 0 < s.items[i].localID < Bound(s.counter))
  }

  /** The interface fits the address space. */
  predicate Fits<T>(s: State<T>) { |s.items| + 2 < WRAP }

  lemma RenumberedFromOne<T>(items: seq<Item<T>>)
    requires |items| + 1 < WRAP
    ensures forall k :: 0 <= k < |items| ==> Renumbered(items, 1)[k] == Item(items[k].elem, 1 + k)
    ensures Elems(Renumbered(items, 1)) == Elems(items)
  {
    forall k | 0 <= k < |items| ensures Renumbered(items, 1)[k] == Item(items[k].elem, 1 + k) {
      assert (1 + k) % WRAP == 1 + k;
    }
  }

  // ---- operations on the fields -----------------------------------------------------------------

  /** get_free_id: renumbers everything first if the counter has wrapped around. */
  function FreeId<T>(s: State<T>): (State<T>, nat) {
    if s.counter == 0 then
      var c := (1 + |s.items|) % WRAP;
      (s.(items := Renumbered(s.items, 1), counter := (c + 1) % WRAP), c)
    else
      (s.(counter := (s.counter + 1) % WRAP), s.counter)
  }

  function Pushed<T>(s: State<T>, e: T): State<T> {
    var (s', id) := FreeId(s);
    s'.(items := s'.items + [Item(e, id)], size := s.size + 1)
  }

  /** insert before position k; behind the last entry it is a push_back. The id to restart
      from is read before get_free_id may renumber. */
  function Inserted<T>(s: State<T>, e: T, k: nat): State<T>
    requires k <= |s.items|
  {
    var start := if k < |s.items| then s.items[k].localID else 0;
    var (s', id) := FreeId(s);
    var items := s'.items[..k] + [Item(e, id)] + s'.items[k..];
    s'.(items := if start == 0 then items else items[..k] + Renumbered(items[k..], start), size := s.size + 1)
  }

  function Removed<T>(s: State<T>, k: nat): State<T>
    requires k < |s.items| && s.size > 0
  { s.(items := s.items[..k] + s.items[k + 1..], size := s.size - 1) }

  function ByElem<T>(less: (T, T) -> bool): (Item<T>, Item<T>) -> bool {
    (a: Item<T>, b: Item<T>) => less(a.elem, b.elem)
  }

  function Resorted<T>(s: State<T>, less: (T, T) -> bool): State<T> {
    s.(items := Renumbered(SortBy(ByElem(less), s.items), 1), counter := (1 + |s.items|) % WRAP)
  }

  // ---- what the operations keep -----------------------------------------------------------------

  lemma FreeIdNumbered<T>(s: State<T>)
    requires Numbered(s) && Fits(s)
    ensures var (s', id) := FreeId(s);
      && s'.size == s.size && Elems(s'.items) == Elems(s.items) && s'.target == s.target && s'.counter < WRAP
      && (forall i, j :: 0 <= i < j < |s'.items| ==> s'.items[i].localID < s'.items[j].localID)
      && (forall i :: 0 <= i < |s'.items| ==> 0 < s'.items[i].localID < id)
      && 0 < id < Bound(s'.counter)
  {
    hide Renumbered;
    if s.counter == 0 { RenumberedFromOne(s.items); }
  }

  lemma PushedNumbered<T>(s: State<T>, e: T)
    requires Numbered(s) && Fits(s)
    ensures Numbered(Pushed(s, e)) && Elems(Pushed(s, e).items) == Elems(s.items) + [e]
  {
    hide FreeId;
    FreeIdNumbered(s);
    var (s', id) := FreeId(s);
    assert |Elems(s'.items)| == |s'.items| && |Elems(s.items)| == |s.items|;
    forall i | 0 <= i < |s.items| ensures s'.items[i].elem == s.items[i].elem {
      assert Elems(s'.items)[i] == Elems(s.items)[i];
    }
  }

  /** Rising ids leave room: from one entry to a later one they grow by at least the distance. */
  lemma {:induction false} IdsSpread<T>(items: seq<Item<T>>, i: nat, j: nat)
    requires i <= j < |items| && forall a, b :: 0 <= a < b < |items| ==> items[a].localID < items[b].localID
    ensures items[i].localID + (j - i) <= items[j].localID
  { if i < j { IdsSpread(items, i, j - 1); } }

  lemma InsertedElems<T>(s: State<T>, e: T, k: nat)
    requires k <= |s.items|
    ensures Elems(Inserted(s, e, k).items) == Elems(s.items)[..k] + [e] + Elems(s.items)[k..]
  {
    hide Inserted;
    var t, es := Inserted(s, e, k), Elems(s.items);
    InsertedLength(s, e, k);
    forall i | 0 <= i < |t.items| ensures t.items[i].elem == (es[..k] + [e] + es[k..])[i] { InsertedAt(s, e, k, i); }
  }

  lemma FreeIdElems<T>(s: State<T>)
    ensures |FreeId(s).0.items| == |s.items|
    ensures forall i :: 0 <= i < |s.items| ==> FreeId(s).0.items[i].elem == s.items[i].elem
  {}

  lemma InsertedLength<T>(s: State<T>, e: T, k: nat)
    requires k <= |s.items|
    ensures |Inserted(s, e, k).items| == |s.items| + 1
  {
    hide FreeId;
    FreeIdElems(s);
  }

  lemma InsertedAt<T>(s: State<T>, e: T, k: nat, i: nat)
    requires k <= |s.items| && i <= |s.items|
    ensures |Inserted(s, e, k).items| == |s.items| + 1
    ensures Inserted(s, e, k).items[i].elem ==
              if i < k then s.items[i].elem else if i == k then e else s.items[i - 1].elem
  {
    hide FreeId;
    FreeIdElems(s);
    var (s', id) := FreeId(s);
    var items := s'.items[..k] + [Item(e, id)] + s'.items[k..];
    assert items[i].elem == if i < k then s.items[i].elem else if i == k then e else s.items[i - 1].elem;
    if k <= i { assert items[k..][i - k] == items[i]; }
  }

  /** The ids after an insertion that is not at the end. */
  lemma InsertedIds<T>(s: State<T>, e: T, k: nat)
    requires Numbered(s) && Fits(s) && k < |s.items|
    ensures var t := Inserted(s, e, k);
      && |t.items| == |s.items| + 1
      && t.counter == (if s.counter == 0 then |s.items| + 2 else (s.counter + 1) % WRAP)
      && (forall i :: 0 <= i < k ==> t.items[i].localID == if s.counter == 0 then i + 1 else s.items[i].localID)
      && (forall i :: k <= i < |t.items| ==> t.items[i].localID == (s.items[k].localID + (i - k)) % WRAP)
  {
    hide Renumbered;
    if s.counter == 0 { RenumberedFromOne(s.items); }
    var (s', id) := FreeId(s);
    var items := s'.items[..k] + [Item(e, id)] + s'.items[k..];
    var t := Inserted(s, e, k);
    assert t.items == items[..k] + Renumbered(items[k..], s.items[k].localID);
    forall i | k <= i < |t.items| ensures t.items[i].localID == (s.items[k].localID + (i - k)) % WRAP {
      assert t.items[i] == Renumbered(items[k..], s.items[k].localID)[i - k];
    }
  }

  /** Insertion keeps the numbering exactly unless the counter has wrapped around and the ids
      before the insertion point have gaps: then the later ids pass the new counter. */
  lemma InsertedNumberedIff<T>(s: State<T>, e: T, k: nat)
    requires Numbered(s) && Fits(s) && k <= |s.items|
    ensures Numbered(Inserted(s, e, k)) <==> k == |s.items| || s.counter != 0 || s.items[k].localID == k + 1
  {
    hide FreeId, Fits;
    if k == |s.items| {
      InsertAtEnd(s, e);
      PushedNumbered(s, e);
    } else if s.counter != 0 || s.items[k].localID == k + 1 {
      InsertInFront(s, e, k);
    } else {
      InsertBreaks(s, e, k);
    }
  }

  lemma InsertAtEnd<T>(s: State<T>, e: T)
    ensures Inserted(s, e, |s.items|) == Pushed(s, e)
  {
    var (s', id) := FreeId(s);
    assert s'.items[..|s.items|] == s'.items && s'.items[|s.items|..] == [];
  }

  lemma InsertInFront<T>(s: State<T>, e: T, k: nat)
    requires Numbered(s) && Fits(s) && k < |s.items|
    requires s.counter != 0 || s.items[k].localID == k + 1
    ensures Numbered(Inserted(s, e, k))
  {
    hide Inserted;
    InsertedIds(s, e, k);
    InsertedSize(s, e, k);
    IdsSpread(s.items, k, |s.items| - 1);
    var t := Inserted(s, e, k);
    var top := s.items[k].localID + (|s.items| - k);
    assert top < WRAP;
    forall i | k <= i < |t.items| ensures t.items[i].localID == s.items[k].localID + (i - k) {}
  }

  lemma InsertedSize<T>(s: State<T>, e: T, k: nat)
    requires k <= |s.items|
    ensures Inserted(s, e, k).size == s.size + 1
  {}

  lemma InsertBreaks<T>(s: State<T>, e: T, k: nat)
    requires Numbered(s) && Fits(s) && k < |s.items|
    requires s.counter == 0 && s.items[k].localID != k + 1
    ensures !Numbered(Inserted(s, e, k))
  {
    hide Inserted;
    InsertedIds(s, e, k);
    IdsSpread(s.items, 0, k);
    var t := Inserted(s, e, k);
    var n, start := |s.items|, s.items[k].localID;
    assert k + 1 < start < WRAP;
    if start + (n - k) < WRAP {
      assert t.items[n].localID == start + (n - k);
    } else {
      var i := k + (WRAP - start);
      assert t.items[i].localID == WRAP % WRAP;
    }
  }

  lemma RemovedNumbered<T>(s: State<T>, k: nat)
    requires Numbered(s) && k < |s.items|
    ensures Numbered(Removed(s, k)) && Elems(Removed(s, k).items) == Elems(s.items)[..k] + Elems(s.items)[k + 1..]
  {
    var t := Removed(s, k);
    forall i | 0 <= i < |t.items| ensures t.items[i] == s.items[if i < k then i else i + 1] {}
  }

  /** Sorting the entries sorts the elements. */
  lemma {:induction false} SortByElem<T>(less: (T, T) -> bool, items: seq<Item<T>>)
    ensures Elems(SortBy(ByElem(less), items)) == SortBy(less, Elems(items))
  {
    if |items| > 0 {
      var n := |items| - 1;
      SortByElem(less, items[..n]);
      InsertByElem(less, SortBy(ByElem(less), items[..n]), items[n]);
      assert Elems(items)[..n] == Elems(items[..n]);
    }
  }

  lemma {:induction false} InsertByElem<T>(less: (T, T) -> bool, items: seq<Item<T>>, x: Item<T>)
    ensures Elems(InsertLast(ByElem(less), items, x)) == InsertLast(less, Elems(items), x.elem)
  {
    var n := |items| - 1;
    if |items| > 0 && less(x.elem, items[n].elem) {
      InsertByElem(less, items[..n], x);
      assert Elems(items)[..n] == Elems(items[..n]);
    }
  }

  lemma ResortedNumbered<T(!new)>(s: State<T>, less: (T, T) -> bool)
    requires Numbered(s) && Fits(s)
    ensures Numbered(Resorted(s, less)) && Elems(Resorted(s, less).items) == SortBy(less, Elems(s.items))
    ensures StrictWeakOrder(less) ==>
              var r := Elems(Resorted(s, less).items); Sorted(less, r) && multiset(r) == multiset(Elems(s.items))
  {
    hide Sorted, SortBy, Renumbered, StrictWeakOrder;
    SortByElem(less, s.items);
    RenumberedFromOne(SortBy(ByElem(less), s.items));
    if StrictWeakOrder(less) { SortByIsSorted(less, Elems(s.items)); }
  }

  /** In a numbered interface comparing local ids is comparing positions. */
  lemma CmpIsPosition<T>(s: State<T>, i: nat, j: nat)
    requires Numbered(s) && i < |s.items| && j < |s.items|
    ensures s.items[i].localID < s.items[j].localID <==> i < j
  {}

  /** Inserting at the lower bound keeps a sorted interface sorted. */
  lemma InsertedSorted<T(!new)>(s: State<T>, less: (T, T) -> bool, e: T)
    requires StrictWeakOrder(less) && Sorted(less, Elems(s.items))
    ensures var k := LowerBound(less, Elems(s.items), e); Sorted(less, Elems(Inserted(s, e, k).items))
  {
    var k := LowerBound(less, Elems(s.items), e);
    InsertAtLowerBound(less, Elems(s.items), e, k);
    InsertedElems(s, e, k);
  }

  // ---- every field ------------------------------------------------------------------------------

  /** A new entry gets the counter as its id; after a wrap-around all entries have been numbered from 1
      before. */
  lemma PushedFields<T>(s: State<T>, e: T)
    requires Fits(s) && s.counter < WRAP
    ensures var t := Pushed(s, e); var n := |s.items|;
            && |t.items| == n + 1 && t.size == s.size + 1 && t.target == s.target
            && (s.counter != 0 ==>
                  t.items == s.items + [Item(e, s.counter)]
                  && t.counter == if s.counter == WRAP - 1 then 0 else s.counter + 1)
            && (s.counter == 0 ==>
                  (forall k :: 0 <= k < n ==> t.items[k] == Item(s.items[k].elem, k + 1))
                  && t.items[n] == Item(e, n + 1) && t.counter == n + 2)
  {
    hide Renumbered;
    RenumberedFromOne(s.items);
  }

  /** Nothing but the entry and the size goes; the ids keep their gaps. */
  lemma RemovedFields<T>(s: State<T>, k: nat)
    requires k < |s.items| && s.size > 0
    ensures var t := Removed(s, k);
            && |t.items| == |s.items| - 1 && t.size == s.size - 1 && t.target == s.target && t.counter == s.counter
            && (forall i :: 0 <= i < k ==> t.items[i] == s.items[i])
            && forall i :: k <= i < |t.items| ==> t.items[i] == s.items[i + 1]
  {}

  /** Sorted entries are numbered from 1, and the counter stands behind the last. */
  lemma ResortedFields<T(!new)>(s: State<T>, less: (T, T) -> bool)
    requires Fits(s)
    ensures var t := Resorted(s, less);
            && |t.items| == |s.items| && t.size == s.size && t.target == s.target && t.counter == |s.items| + 1
            && forall k :: 0 <= k < |t.items| ==> t.items[k] == Item(SortBy(less, Elems(s.items))[k], k + 1)
  {
    hide SortBy, Renumbered;
    SortByElem(less, s.items);
    RenumberedFromOne(SortBy(ByElem(less), s.items));
    assert Elems(SortBy(ByElem(less), s.items)) == SortBy(less, Elems(s.items));
  }

  lemma InsertedFields<T>(s: State<T>, e: T, k: nat)
    requires k <= |s.items|
    ensures Inserted(s, e, k).size == s.size + 1 && Inserted(s, e, k).target == s.target
  {}

  // ---- runs -------------------------------------------------------------------------------------

  datatype Edit<!T> = PushBack(e: T) | Insert(e: T, at: nat) | Erase(at: nat) | Sort(less: (T, T) -> bool)

  /** An edit of one interface, or two of them change places. */
  datatype Move<!T> = On(which: nat, edit: Edit<T>) | Swap(one: nat, other: nat)

  /** The iterators are valid. */
  predicate Allowed<T>(s: State<T>, c: Edit<T>) {
    Fits(s) && match c
    case PushBack(_) => true
    case Insert(_, k) => k <= |s.items|
    case Erase(k) => k < |s.items| && s.size > 0
    case Sort(_) => true
  }

  /** Not an insertion that finds the counter wrapped around and gaps in front of it. */
  predicate Clean<T>(s: State<T>, c: Edit<T>) {
    c.Insert? ==> c.at >= |s.items| || s.counter != 0 || s.items[c.at].localID == c.at + 1
  }

  function Edited<T>(s: State<T>, c: Edit<T>): State<T>
    requires Allowed(s, c)
  {
    match c
    case PushBack(e) => Pushed(s, e)
    case Insert(e, k) => Inserted(s, e, k)
    case Erase(k) => Removed(s, k)
    case Sort(less) => Resorted(s, less)
  }

  predicate Possible<T>(all: seq<State<T>>, m: Move<T>) {
    match m
    case On(i, c) => i < |all| && Allowed(all[i], c)
    case Swap(i, j) => i < |all| && j < |all|
  }

  function Moved<T>(all: seq<State<T>>, m: Move<T>): seq<State<T>>
    requires Possible(all, m)
  {
    match m
    case On(i, c) => all[i := Edited(all[i], c)]
    case Swap(i, j) => all[i := all[j]][j := all[i]]
  }

  ghost predicate IsRun<T>(all: seq<State<T>>, moves: seq<Move<T>>)
    decreases |moves|
  { |moves| == 0 || (Possible(all, moves[0]) && IsRun(Moved(all, moves[0]), moves[1..])) }

  ghost predicate AllNumbered<T>(all: seq<State<T>>) { forall i :: 0 <= i < |all| ==> Numbered(all[i]) }

  /** Every interface is numbered in every state of the run. */
  ghost predicate StaysNumbered<T>(all: seq<State<T>>, moves: seq<Move<T>>)
    requires IsRun(all, moves)
    decreases |moves|
  { AllNumbered(all) && (|moves| > 0 ==> StaysNumbered(Moved(all, moves[0]), moves[1..])) }

  /** Every insertion of the run is clean where it happens. */
  ghost predicate RunsClean<T>(all: seq<State<T>>, moves: seq<Move<T>>)
    requires IsRun(all, moves)
    decreases |moves|
  {
    |moves| > 0 ==>
      (moves[0].On? ==> Clean(all[moves[0].which], moves[0].edit)) && RunsClean(Moved(all, moves[0]), moves[1..])
  }

  lemma EditNumberedIff<T(!new)>(s: State<T>, c: Edit<T>)
    requires Numbered(s) && Allowed(s, c)
    ensures Numbered(Edited(s, c)) <==> Clean(s, c)
  {
    hide Numbered, Inserted, Pushed, Removed, Resorted, Fits;
    match c {
      case PushBack(e) => PushedNumbered(s, e);
      case Insert(e, k) => InsertedNumberedIff(s, e, k);
      case Erase(k) => RemovedNumbered(s, k);
      case Sort(less) => ResortedNumbered(s, less);
    }
  }

  lemma MoveNumberedIff<T(!new)>(all: seq<State<T>>, m: Move<T>)
    requires AllNumbered(all) && Possible(all, m)
    ensures AllNumbered(Moved(all, m)) <==> (m.On? ==> Clean(all[m.which], m.edit))
  {
    hide Numbered, Edited, Allowed, Clean;
    var next := Moved(all, m);
    if m.On? {
      EditNumberedIff(all[m.which], m.edit);
      assert next[m.which] == Edited(all[m.which], m.edit);
    }
  }

  /** Whatever is edited and swapped among any number of interfaces: they keep their numbering
      throughout exactly if no insertion finds a wrapped counter behind gaps. */
  lemma {:induction false} RunsKeepNumberingIff<T(!new)>(all: seq<State<T>>, moves: seq<Move<T>>)
    requires AllNumbered(all) && IsRun(all, moves)
    ensures StaysNumbered(all, moves) <==> RunsClean(all, moves)
    decreases |moves|
  {
    hide Numbered, Edited, Allowed, Clean, AllNumbered;
    if |moves| > 0 {
      MoveNumberedIff(all, moves[0]);
      var next := Moved(all, moves[0]);
      if AllNumbered(next) {
        RunsKeepNumberingIff(next, moves[1..]);
      } else {
        assert !StaysNumbered(next, moves[1..]);
      }
    }
  }

  /** One entry with id 7 and a counter that has wrapped around: an insertion before it starts the
      ids at 7 again, while the counter restarts behind the single entry. */
  lemma WrappedInsertion()
    ensures var s := State([Item('a', 7)], 1, 0, 0);
            && Numbered(s) && Fits(s)
            && Inserted(s, 'b', 0).items == [Item('b', 7), Item('a', 8)] && Inserted(s, 'b', 0).counter == 3
            && !Numbered(Inserted(s, 'b', 0))
  {
    var s := State([Item('a', 7)], 1, 0, 0);
    var t := Inserted(s, 'b', 0);
    assert t.items[0].localID == 7;
  }
}
