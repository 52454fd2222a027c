// Key lists with a sentinel: a group of vertices is passed to `split` as an
// array of global vertex ids in which the reserved value `dummy` marks a slot
// that does not belong to the group.

module KeyLists {

  /** The slots of s that hold a key (not `dummy`), in increasing order. */
  function Positions(s: seq<int>, dummy: int): (p: seq<nat>)
    ensures |p| <= |s|
    ensures forall a :: 0 <= a < |p| ==> p[a] < |s| && s[p[a]] != dummy
  {
    if s == [] then []
    else Positions(s[..|s| - 1], dummy) + (if s[|s| - 1] != dummy then [|s| - 1] else [])
  }

  /** Number of keys in s: the group size `Ng` that `split` counts. */
  function Count(s: seq<int>, dummy: int): nat
  {
    |Positions(s, dummy)|
  }

  /** The keys of s with the sentinels squeezed out, in order (`keysi_p` or
      `keysi_n` after the filter loop). */
  function Filter(s: seq<int>, dummy: int): (f: seq<int>)
    ensures |f| == Count(s, dummy)
  {
    if s == [] then []
    else Filter(s[..|s| - 1], dummy) + (if s[|s| - 1] != dummy then [s[|s| - 1]] else [])
  }

  lemma {:induction false} FilterAt(s: seq<int>, dummy: int)
    ensures forall a :: 0 <= a < |Filter(s, dummy)| ==> Filter(s, dummy)[a] == s[Positions(s, dummy)[a]]
  {
    if s != [] {
      var t := s[..|s| - 1];
      FilterAt(t, dummy);
      forall a | 0 <= a < |Filter(t, dummy)|
        ensures Filter(s, dummy)[a] == s[Positions(s, dummy)[a]]
      {
        assert Filter(s, dummy)[a] == Filter(t, dummy)[a];
        assert Positions(s, dummy)[a] == Positions(t, dummy)[a];
      }
    }
  }

  /** The filtered list holds keys only, each one the key of the matching slot. */
  lemma FilterKeys(s: seq<int>, dummy: int)
    ensures forall a :: 0 <= a < |Filter(s, dummy)| ==>
      Filter(s, dummy)[a] != dummy && Filter(s, dummy)[a] == s[Positions(s, dummy)[a]]
  {
    FilterAt(s, dummy);
  }

  lemma {:induction false} PositionsPrefix(s: seq<int>, dummy: int, i: nat)
    requires i <= |s|
    ensures Positions(s[..i], dummy) <= Positions(s, dummy)
  {
    if i < |s| {
      var t := s[..|s| - 1];
      assert s[..i] == t[..i];
      PositionsPrefix(t, dummy, i);
    } else {
      assert s[..i] == s;
    }
  }

  /** When slot i holds a key, it is key number Count(s[..i]) of the group. */
  lemma PositionOfSlot(s: seq<int>, dummy: int, i: nat)
    requires i < |s| && s[i] != dummy
    ensures Count(s[..i], dummy) < Count(s, dummy)
    ensures Positions(s, dummy)[Count(s[..i], dummy)] == i
  {
    PositionsPrefix(s, dummy, i + 1);
    assert s[..i + 1][..i] == s[..i];
  }

  /** Counting slot by slot, as the loops of `split` do. */
  lemma CountNext(s: seq<int>, dummy: int, i: nat)
    requires i < |s|
    ensures Count(s[..i + 1], dummy) == Count(s[..i], dummy) + (if s[i] != dummy then 1 else 0)
    ensures Filter(s[..i + 1], dummy) == Filter(s[..i], dummy) + (if s[i] != dummy then [s[i]] else [])
  {
    assert s[..i + 1][..i] == s[..i];
  }

  /** v is one of the keys of s. */
  ghost predicate InGroup(s: seq<int>, dummy: int, v: int)
  {
    v != dummy && exists k :: 0 <= k < |s| && s[k] == v
  }

  /** Every key of the group survives the filter. */
  lemma {:induction false} FilterKeepsGroup(s: seq<int>, dummy: int, v: int)
    requires InGroup(s, dummy, v)
    ensures InGroup(Filter(s, dummy), dummy, v)
  {
    var t := s[..|s| - 1];
    var k :| 0 <= k < |s| && s[k] == v;
    if k < |t| {
      assert t[k] == v;
      FilterKeepsGroup(t, dummy, v);
      var a :| 0 <= a < |Filter(t, dummy)| && Filter(t, dummy)[a] == v;
      assert Filter(s, dummy)[a] == v;
    } else {
      assert Filter(s, dummy)[|Filter(s, dummy)| - 1] == v;
    }
  }

  /** The filter keeps keys of the group only. */
  lemma {:induction false} FilterOnlyGroup(s: seq<int>, dummy: int, v: int)
    requires InGroup(Filter(s, dummy), dummy, v)
    ensures InGroup(s, dummy, v)
  {
    var t := s[..|s| - 1];
    var a :| 0 <= a < |Filter(s, dummy)| && Filter(s, dummy)[a] == v;
    if a < |Filter(t, dummy)| {
      assert Filter(t, dummy)[a] == v;
      FilterOnlyGroup(t, dummy, v);
      var k :| 0 <= k < |t| && t[k] == v;
      assert s[k] == v;
    } else {
      assert s[|s| - 1] == v;
    }
  }

  /** Filtering keeps exactly the keys of the group. */
  lemma FilterSameGroup(s: seq<int>, dummy: int, v: int)
    ensures InGroup(Filter(s, dummy), dummy, v) <==> InGroup(s, dummy, v)
  {
    if InGroup(s, dummy, v) {
      FilterKeepsGroup(s, dummy, v);
    }
    if InGroup(Filter(s, dummy), dummy, v) {
      FilterOnlyGroup(s, dummy, v);
    }
  }

  /** A list that holds, slot by slot, either the key of kf or `dummy` (a
      child list of `split`) has no key outside kf. */
  lemma SubListInGroup(child: seq<int>, kf: seq<int>, dummy: int, v: int)
    requires |child| == |kf| && forall k :: 0 <= k < |kf| ==> child[k] == kf[k] || child[k] == dummy
    requires InGroup(child, dummy, v)
    ensures InGroup(kf, dummy, v)
  {
    var k :| 0 <= k < |child| && child[k] == v;
    assert kf[k] == v;
  }

  /** Number of entries of s that are positive (`cp` in `split`). */
  function CountPositive(s: seq<int>): (c: nat)
    ensures c <= |s|
  {
    if s == [] then 0 else CountPositive(s[..|s| - 1]) + (if s[|s| - 1] > 0 then 1 else 0)
  }

  /** A key list whose slot k holds a key exactly when s[k] > 0 (or exactly
      when s[k] <= 0) has CountPositive(s) keys (or the rest). */
  lemma {:induction false} CountBySide(a: seq<int>, s: seq<int>, dummy: int, positive: bool)
    requires |a| == |s|
    requires forall k :: 0 <= k < |s| ==> (a[k] != dummy <==> (s[k] > 0) == positive)
    ensures Count(a, dummy) == if positive then CountPositive(s) else |s| - CountPositive(s)
  {
    if s != [] {
      var m := |s| - 1;
      CountBySide(a[..m], s[..m], dummy, positive);
    }
  }
}
