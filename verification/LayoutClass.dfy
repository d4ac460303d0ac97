/** The loops that filter, append and sort a layout in place. */
module LayoutClass {
  import opened StableSort
  import opened InterfaceLayouts
  import opened LayoutEdits

  /** One interface filled with the selected entries of another. */
  method FilterInterface<T>(iface: seq<T>, sel: T -> bool) returns (kept: seq<T>, changed: bool)
    ensures kept == Kept(iface, sel)
    ensures changed <==> kept != iface
    ensures changed <==> exists i :: 0 <= i < |iface| && !sel(iface[i])
  {
    kept, changed := [], false;
    var i := 0;
    while i < |iface|
      invariant i <= |iface| && kept == Kept(iface[..i], sel)
      invariant changed <==> exists j :: 0 <= j < i && !sel(iface[j])
    {
      assert iface[..i + 1][..i] == iface[..i];
      if sel(iface[i]) { kept := kept + [iface[i]]; } else { changed := true; }
      i := i + 1;
    }
    assert iface[..i] == iface;
    KeptAll(iface, sel);
  }

  /** The interfaces of one level; an interface is erased while the map is walked. */
  method FilterLevel<T>(level: Level<T>, sel: T -> bool) returns (lvl: Level<T>, changed: bool)
    ensures lvl == FilteredLevel(level, sel)
    ensures changed <==> lvl != level
  {
    hide Progress, Kept;
    lvl, changed := level, false;
    ghost var done := 0;
    var i := 0;
    ProgressStarts(level, sel);
    while i < |lvl|
      invariant Progress(level, sel, done, lvl, i, changed)
      decreases |level| - done
    {
      Here(level, sel, done, lvl, i, changed);
      var kept, interfaceChanged := FilterInterface(lvl[i].iface, sel);
      if interfaceChanged {
        if |kept| == 0 {
          Erases(level, sel, done, lvl, i, changed);
          lvl := lvl[..i] + lvl[i + 1..];
        } else {
          Replaces(level, sel, done, lvl, i, changed);
          lvl := lvl[i := Entry(lvl[i].proc, kept)];
          i := i + 1;
        }
        changed := true;
      } else {
        Leaves(level, sel, done, lvl, i, changed);
        i := i + 1;
      }
      done := done + 1;
    }
    Finishes(level, sel, done, lvl, i, changed);
  }

  /** The first done interfaces have been filtered into the first i; the rest is untouched. */
  ghost predicate Progress<T>(level: Level<T>, sel: T -> bool, done: nat, lvl: Level<T>, i: nat, changed: bool) {
    && done <= |level| && i == |FilteredLevel(level[..done], sel)|
    && lvl == FilteredLevel(level[..done], sel) + level[done..]
    && (changed <==> FilteredLevel(level[..done], sel) != level[..done])
  }

  lemma ProgressStarts<T>(level: Level<T>, sel: T -> bool)
    ensures Progress(level, sel, 0, level, 0, false)
  { assert level[..0] == []; }

  lemma Here<T>(level: Level<T>, sel: T -> bool, done: nat, lvl: Level<T>, i: nat, changed: bool)
    requires Progress(level, sel, done, lvl, i, changed) && i < |lvl|
    ensures done < |level| && lvl[i] == level[done]
  {}

  lemma Erases<T>(level: Level<T>, sel: T -> bool, done: nat, lvl: Level<T>, i: nat, changed: bool)
    requires Progress(level, sel, done, lvl, i, changed) && i < |lvl| && done < |level| && lvl[i] == level[done]
    requires Kept(level[done].iface, sel) == [] && level[done].iface != []
    ensures Progress(level, sel, done + 1, lvl[..i] + lvl[i + 1..], i, true)
  {
    FilterStep(level, done, sel);
    assert lvl[..i] == FilteredLevel(level[..done], sel);
    assert lvl[i + 1..] == level[done + 1..];
  }

  lemma Replaces<T>(level: Level<T>, sel: T -> bool, done: nat, lvl: Level<T>, i: nat, changed: bool)
    requires Progress(level, sel, done, lvl, i, changed) && i < |lvl| && done < |level| && lvl[i] == level[done]
    requires var kept := Kept(level[done].iface, sel); kept != [] && kept != level[done].iface
    ensures Progress(level, sel, done + 1, lvl[i := Entry(lvl[i].proc, Kept(level[done].iface, sel))], i + 1, true)
  {
    hide FilteredLevel, Kept;
    FilterStep(level, done, sel);
    SplitAt(level, done);
    PutAt(FilteredLevel(level[..done], sel), level[done..], Entry(level[done].proc, Kept(level[done].iface, sel)));
  }

  lemma Leaves<T>(level: Level<T>, sel: T -> bool, done: nat, lvl: Level<T>, i: nat, changed: bool)
    requires Progress(level, sel, done, lvl, i, changed) && i < |lvl| && done < |level| && lvl[i] == level[done]
    requires Kept(level[done].iface, sel) == level[done].iface
    ensures Progress(level, sel, done + 1, lvl, i + 1, changed)
  {
    hide FilteredLevel, Kept;
    FilterStep(level, done, sel);
    SplitAt(level, done);
    PutAt(FilteredLevel(level[..done], sel), level[done..], level[done]);
    assert lvl[i := level[done]] == lvl;
  }

  lemma SplitAt<T>(s: seq<T>, n: nat)
    requires n < |s|
    ensures s[n..][1..] == s[n + 1..]
  {}

  lemma PutAt<T>(front: seq<T>, back: seq<T>, e: T)
    requires |back| > 0
    ensures (front + back)[|front| := e] == (front + [e]) + back[1..]
  {}

  lemma Finishes<T>(level: Level<T>, sel: T -> bool, done: nat, lvl: Level<T>, i: nat, changed: bool)
    requires Progress(level, sel, done, lvl, i, changed) && i >= |lvl|
    ensures lvl == FilteredLevel(level, sel) && (changed <==> lvl != level)
  { assert level[..done] == level && level[done..] == []; }

  class MultiLevelLayout<T> {
    var levels: Layout<T>

    method RemoveUnselectedInterfaceEntries(sel: T -> bool) returns (changed: bool)
      modifies this
      ensures levels == Filtered(old(levels), sel)
      ensures changed <==> levels != old(levels)
    {
      changed := false;
      ghost var was := levels;
      var l := 0;
      while l < |levels|
        invariant l <= |levels| == |was|
        invariant forall k :: 0 <= k < l ==> levels[k] == FilteredLevel(was[k], sel)
        invariant forall k :: l <= k < |was| ==> levels[k] == was[k]
        invariant changed <==> levels != was
      {
        ghost var before := levels;
        var lvl, here := FilterLevel(levels[l], sel);
        levels := levels[l := lvl];
        if here {
          assert levels[l] != was[l];
          changed := true;
        } else {
          assert levels == before;
        }
        l := l + 1;
      }
      assert levels == Filtered(was, sel);
    }

    /** sort_interface_entries */
    method SortInterfaceEntries(less: (T, T) -> bool)
      modifies this
      ensures levels == SortedLayout(old(levels), less)
    {
      ghost var was := levels;
      var l := 0;
      while l < |levels|
        invariant l <= |levels| == |was|
        invariant forall k :: 0 <= k < l ==> levels[k] == SortedLevel(was[k], less)
        invariant forall k :: l <= k < |was| ==> levels[k] == was[k]
      {
        var lvl := levels[l];
        var i := 0;
        while i < |lvl|
          invariant i <= |lvl| == |was[l]|
          invariant forall k :: 0 <= k < i ==> lvl[k] == Entry(was[l][k].proc, SortBy(less, was[l][k].iface))
          invariant forall k :: i <= k < |lvl| ==> lvl[k] == was[l][k]
        {
          lvl := lvl[i := Entry(lvl[i].proc, SortBy(less, lvl[i].iface))];
          i := i + 1;
        }
        assert lvl == SortedLevel(was[l], less);
        levels := levels[l := lvl];
        l := l + 1;
      }
      assert levels == SortedLayout(was, less);
    }

    /** AddLayout, for a layout with one level: creates missing interfaces, even for empty ones
        of the source, and pushes the source's entries one by one. */
    method AddLayout(source: Level<T>)
      requires |levels| == 1
      modifies this
      ensures levels == [Added(old(levels)[0], source)]
    {
      var dest := levels[0];
      var i := 0;
      while i < |source|
        invariant i <= |source| && levels == old(levels) && dest == Added(levels[0], source[..i])
      {
        ghost var start := dest;
        var e := source[i];
        dest := Extended(dest, e.proc, []);
        var j := 0;
        while j < |e.iface|
          invariant j <= |e.iface| && levels == old(levels) && dest == Extended(start, e.proc, e.iface[..j])
        {
          ExtendedTwice(start, e.proc, e.iface[..j], [e.iface[j]]);
          assert e.iface[..j + 1] == e.iface[..j] + [e.iface[j]];
          dest := Extended(dest, e.proc, [e.iface[j]]);
          j := j + 1;
        }
        assert e.iface[..j] == e.iface;
        assert source[..i + 1][..i] == source[..i];
        i := i + 1;
      }
      assert source[..i] == source;
      levels := [dest];
    }
  }

  /** One more interface, and whether it changes the level. */
  lemma FilterStep<T>(lvl: Level<T>, n: nat, sel: T -> bool)
    requires n < |lvl|
    ensures FilteredLevel(lvl[..n + 1], sel) == FilteredLevel(lvl[..n], sel) + FilteredEntry(lvl[n], sel)
    ensures FilteredLevel(lvl[..n + 1], sel) == lvl[..n + 1] <==>
              FilteredLevel(lvl[..n], sel) == lvl[..n] && Kept(lvl[n].iface, sel) == lvl[n].iface
  {
    assert lvl[..n + 1][..n] == lvl[..n];
    assert lvl[..n + 1] == lvl[..n] + [lvl[n]];
    FilteredShrinks(lvl[..n], sel);
    var r := FilteredLevel(lvl[..n + 1], sel);
    if r == lvl[..n + 1] {
      assert |FilteredEntry(lvl[n], sel)| == 1;
      assert FilteredLevel(lvl[..n], sel) == r[..n];
      assert r[n] == FilteredEntry(lvl[n], sel)[0];
    }
  }

  lemma {:induction false} FilteredShrinks<T>(lvl: Level<T>, sel: T -> bool)
    ensures |FilteredLevel(lvl, sel)| <= |lvl|
  { if |lvl| > 0 { FilteredShrinks(lvl[..|lvl| - 1], sel); } }
}
