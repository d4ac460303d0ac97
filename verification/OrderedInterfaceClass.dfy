/** OrderedInterface as an object: its methods and loops against the functions on its fields. */
module OrderedInterfaceClass {
  import opened StableSort
  import opened OrderedInterfaces

  class OrderedInterface<!T> {
    var elements: seq<Item<T>>
    var size: nat
    var targetProc: int
    var idCounter: nat

    function Fields(): State<T> reads this { State(elements, size, targetProc, idCounter) }

    constructor (target: int)
      ensures Fields() == State([], 0, target, 1) && Numbered(Fields())
    { elements, size, targetProc, idCounter := [], 0, target, 1; }

    method GetFreeId() returns (id: nat)
      modifies this
      ensures (Fields(), id) == FreeId(old(Fields()))
    {
      if idCounter == 0 {
        idCounter := 1;
        var i := 0;
        ghost var was := elements;
        while i < |elements|
          invariant 0 <= i <= |elements| == |was|
          invariant idCounter == (1 + i) % WRAP
          invariant forall k :: 0 <= k < i ==> elements[k] == Item(was[k].elem, (1 + k) % WRAP)
          invariant forall k :: i <= k < |was| ==> elements[k] == was[k]
          invariant size == old(size) && targetProc == old(targetProc)
        {
          elements := elements[i := elements[i].(localID := idCounter)];
          Increment(1 + i);
          idCounter := (idCounter + 1) % WRAP;
          i := i + 1;
        }
        assert elements == Renumbered(was, 1);
      }
      id := idCounter;
      idCounter := (idCounter + 1) % WRAP;
    }

    method PushBack(e: T)
      modifies this
      ensures Fields() == Pushed(old(Fields()), e)
    {
      size := size + 1;
      ghost var was := State(elements, old(size), targetProc, idCounter);
      var id := GetFreeId();
      FreeIdKeepsSize(was, size);
      elements := elements + [Item(e, id)];
    }

    /** k is the insertion iterator. */
    method Insert(e: T, k: nat)
      requires k <= |elements|
      modifies this
      ensures Fields() == Inserted(old(Fields()), e, k)
    {
      size := size + 1;
      var startNumber := 0;
      if k != |elements| { startNumber := elements[k].localID; }
      ghost var start := startNumber;
      ghost var was := State(elements, old(size), targetProc, idCounter);
      var id := GetFreeId();
      FreeIdKeepsSize(was, size);
      elements := elements[..k] + [Item(e, id)] + elements[k..];
      if startNumber != 0 {
        startNumber := startNumber - 1;
        ghost var items := elements;
        var i := k;
        while i < |elements|
          invariant k <= i <= |elements| == |items|
          invariant elements[..k] == items[..k]
          invariant (startNumber + 1) % WRAP == (start + (i - k)) % WRAP
          invariant forall j :: k <= j < i ==> elements[j] == Item(items[j].elem, (start + (j - k)) % WRAP)
          invariant forall j :: i <= j < |items| ==> elements[j] == items[j]
          invariant targetProc == was.target && size == was.size + 1 && idCounter == FreeId(was).0.counter
        {
          startNumber := (startNumber + 1) % WRAP;
          elements := elements[i := elements[i].(localID := startNumber)];
          Increment(start + (i - k));
          i := i + 1;
        }
        assert elements == items[..k] + Renumbered(items[k..], start);
      }
    }

    method Erase(k: nat)
      requires k < |elements| && size > 0
      modifies this
      ensures Fields() == Removed(old(Fields()), k)
    {
      size := size - 1;
      elements := elements[..k] + elements[k + 1..];
    }

    /** The container's own sort, then all ids anew. */
    method Sort(less: (T, T) -> bool)
      modifies this
      ensures Fields() == Resorted(old(Fields()), less)
    {
      hide SortBy;
      elements := SortBy(ByElem(less), elements);
      idCounter := 1;
      ghost var was := elements;
      var i := 0;
      while i < |elements|
        invariant 0 <= i <= |elements| == |was|
        invariant idCounter == (1 + i) % WRAP
        invariant forall k :: 0 <= k < i ==> elements[k] == Item(was[k].elem, (1 + k) % WRAP)
        invariant forall k :: i <= k < |was| ==> elements[k] == was[k]
        invariant size == old(size) && targetProc == old(targetProc)
      {
        elements := elements[i := elements[i].(localID := idCounter)];
        Increment(1 + i);
        idCounter := (idCounter + 1) % WRAP;
        i := i + 1;
      }
      assert elements == Renumbered(was, 1);
    }

    method Swap(other: OrderedInterface<T>)
      modifies this, other
      ensures Fields() == old(other.Fields()) && other.Fields() == old(Fields())
    {
      elements, other.elements := other.elements, elements;
      size, other.size := other.size, size;
      targetProc, other.targetProc := other.targetProc, targetProc;
      idCounter, other.idCounter := other.idCounter, idCounter;
    }

    /** lower_bound by halving. It needs the entries that are less than e in front, as they are in
        an interface sorted by the same comparison (SortedIsPartitioned). */
    method FindInsertPosSorted(e: T, less: (T, T) -> bool) returns (k: nat)
      requires Partitioned(less, Elems(elements), e)
      ensures k <= |elements| && k == LowerBound(less, Elems(elements), e)
    {
      ghost var s := Elems(elements);
      var count := |elements|;
      k := 0;
      while count > 0
        invariant 0 <= count && 0 <= k && k + count <= |elements| == |s|
        invariant forall i :: 0 <= i < k ==> less(s[i], e)
        invariant forall i :: k + count <= i < |s| ==> !less(s[i], e)
      {
        var step := count / 2;
        if less(elements[k + step].elem, e) {
          k, count := k + step + 1, count - (step + 1);
        } else {
          count := step;
        }
      }
      LowerBoundIs(less, s, e, k);
    }
  }

  lemma Increment(n: nat)
    ensures (n % WRAP + 1) % WRAP == (n + 1) % WRAP
  {}

  lemma FreeIdKeepsSize<T>(s: State<T>, size: nat)
    ensures FreeId(s.(size := size)) == (FreeId(s).0.(size := size), FreeId(s).1)
  {}
}
