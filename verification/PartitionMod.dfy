/** Partitions of {0, ..., n-1} held as a sequence of classes, refined by
    splitting one class at a time with a predicate (the data structure of
    partition-refinement minimisation). */
module PartitionMod {

  /** The members of `s` that satisfy `f`, and the others. */
  function SplitSet(s: set<nat>, f: nat -> bool): (r: (set<nat>, set<nat>))
    ensures r.0 + r.1 == s && r.0 !! r.1
    ensures forall x :: x in r.0 <==> x in s && f(x)
  {
    (set x | x in s && f(x), set x | x in s && !f(x))
  }

  datatype Partition = Partition(n: nat, elem: seq<set<nat>>)
  {
    /** The classes are non-empty, pairwise disjoint, and cover exactly
        {0, ..., n-1}. */
    predicate IsValid()
    {
      && (forall i :: 0 <= i < |elem| ==> elem[i] != {})
      && (forall i, j :: 0 <= i < j < |elem| ==> elem[i] !! elem[j])
      && (forall x: nat :: x < n ==> InSomeClass(x))
      && (forall i, x :: 0 <= i < |elem| && x in elem[i] ==> x < n)
    }

    predicate InSomeClass(x: nat)
    {
      exists i :: 0 <= i < |elem| && x in elem[i]
    }

    /** Splits class `index` with `f`: the class is removed, the other classes
        keep their order, and its non-empty halves are appended. */
    function SplitAt(f: nat -> bool, index: nat): (r: Partition)
      requires index < |elem|
      ensures r.n == n
      ensures var (a, b) := SplitSet(elem[index], f);
              |r.elem| == if a != {} && b != {} then |elem| + 1 else |elem|
      ensures r.elem[..|elem| - 1] == elem[..index] + elem[index + 1..]
      ensures var (a, b) := SplitSet(elem[index], f);
              if a != {} && b != {} then r.elem[|elem| - 1..] == [a, b]
              else if a != {} then r.elem[|elem| - 1..] == [a]
              else r.elem[|elem| - 1..] == [b]
    {
      var r := SplitSet(elem[index], f);
      var rest := elem[..index] + elem[index + 1..];
      if r.0 != {} && r.1 != {} then Partition(n, rest + [r.0, r.1])
      else if r.0 != {} then Partition(n, rest + [r.0])
      else Partition(n, rest + [r.1])
    }

    /** The first class at or after `index` that holds `x`. */
    function GetClass(x: nat, index: nat): (r: nat)
      requires index < |elem|
      requires exists j :: index <= j < |elem| && x in elem[j]
      ensures index <= r < |elem| && x in elem[r]
      ensures forall j :: index <= j < r ==> x !in elem[j]
      decreases |elem| - index
    {
      if x in elem[index] then index else GetClass(x, index + 1)
    }

    /** `x` and `y` lie in the same class (both must lie in some class). */
    predicate Equiv(x: nat, y: nat)
      requires |elem| > 0 && InSomeClass(x) && InSomeClass(y)
    {
      GetClass(x, 0) == GetClass(y, 0)
    }

    /** Every class of this partition is included in a class of `p`. */
    predicate Refines2(p: Partition)
    {
      forall k :: k in elem ==> exists c :: c in p.elem && k <= c
    }

    /** The coarse test the analyser uses: at least as many classes. */
    predicate Refines(p: Partition)
    {
      |elem| >= |p.elem|
    }
  }

  /** Index of the class of `p.elem` that sits at position `j` of the
      classes kept by a split of class `index`. */
  function KeptIndex(j: nat, index: nat): nat
  {
    if j < index then j else j + 1
  }

  /** Where the classes of a split come from: the first |elem| - 1 are the
      kept classes in order, the rest are non-empty parts of the split class
      that together hold all of it. */
  lemma SplitAtShape(p: Partition, f: nat -> bool, index: nat)
    requires index < |p.elem|
    ensures var r := p.SplitAt(f, index);
            forall j :: 0 <= j < |p.elem| - 1 ==> r.elem[j] == p.elem[KeptIndex(j, index)]
    ensures var r := p.SplitAt(f, index);
            forall j :: |p.elem| - 1 <= j < |r.elem| ==>
              r.elem[j] <= p.elem[index] && (p.elem[index] != {} ==> r.elem[j] != {})
    ensures var r := p.SplitAt(f, index);
            forall x :: x in p.elem[index] ==> exists j :: |p.elem| - 1 <= j < |r.elem| && x in r.elem[j]
  {
    SplitAtKept(p, f, index);
    SplitAtTail(p, f, index);
    SplitAtTailCover(p, f, index);
  }

  lemma SplitAtKept(p: Partition, f: nat -> bool, index: nat)
    requires index < |p.elem|
    ensures var r := p.SplitAt(f, index);
            forall j :: 0 <= j < |p.elem| - 1 ==> r.elem[j] == p.elem[KeptIndex(j, index)]
  {
    var r := p.SplitAt(f, index);
    var m := |p.elem| - 1;
    forall j | 0 <= j < m
      ensures r.elem[j] == p.elem[KeptIndex(j, index)]
    {
      assert r.elem[j] == r.elem[..m][j];
    }
  }

  lemma SplitAtTail(p: Partition, f: nat -> bool, index: nat)
    requires index < |p.elem|
    ensures var r := p.SplitAt(f, index);
            forall j :: |p.elem| - 1 <= j < |r.elem| ==>
              r.elem[j] <= p.elem[index] && (p.elem[index] != {} ==> r.elem[j] != {})
  {
    var r := p.SplitAt(f, index);
    var (a, b) := SplitSet(p.elem[index], f);
    var m := |p.elem| - 1;
    assert a <= p.elem[index] && b <= p.elem[index];
    forall j | m <= j < |r.elem|
      ensures r.elem[j] <= p.elem[index] && (p.elem[index] != {} ==> r.elem[j] != {})
    {
      assert r.elem[j] == r.elem[m..][j - m];
      if a != {} && b != {} {
        assert r.elem[j] == a || r.elem[j] == b;
      } else if a != {} {
        assert r.elem[j] == a;
      } else {
        assert r.elem[j] == b;
      }
    }
  }

  lemma SplitAtTailCover(p: Partition, f: nat -> bool, index: nat)
    requires index < |p.elem|
    ensures var r := p.SplitAt(f, index);
            forall x :: x in p.elem[index] ==> exists j :: |p.elem| - 1 <= j < |r.elem| && x in r.elem[j]
  {
    var r := p.SplitAt(f, index);
    var (a, b) := SplitSet(p.elem[index], f);
    var m := |p.elem| - 1;
    forall x | x in p.elem[index]
      ensures exists j :: m <= j < |r.elem| && x in r.elem[j]
    {
      if a != {} && b != {} {
        assert r.elem[m] == r.elem[m..][0] && r.elem[m + 1] == r.elem[m..][1];
      } else {
        assert r.elem[m] == r.elem[m..][0];
      }
    }
  }

  lemma SplitAtDisjoint(p: Partition, f: nat -> bool, index: nat)
    requires p.IsValid() && index < |p.elem|
    ensures var r := p.SplitAt(f, index);
            forall i, j :: 0 <= i < j < |r.elem| ==> r.elem[i] !! r.elem[j]
  {
    var r := p.SplitAt(f, index);
    SplitAtShape(p, f, index);
    forall i, j | 0 <= i < j < |r.elem|
      ensures r.elem[i] !! r.elem[j]
    {
      SplitAtPairDisjoint(p, f, index, i, j);
    }
  }

  lemma SplitAtPairDisjoint(p: Partition, f: nat -> bool, index: nat, i: nat, j: nat)
    requires p.IsValid() && index < |p.elem|
    requires i < j < |p.SplitAt(f, index).elem|
    ensures p.SplitAt(f, index).elem[i] !! p.SplitAt(f, index).elem[j]
  {
    SplitAtShape(p, f, index);
    SplitAtHalvesDisjoint(p, f, index);
    ShapeDisjoint(p.elem, p.SplitAt(f, index).elem, index, i, j);
  }

  /** Classes laid out as by a split (kept classes first, then parts of the
      split class) of pairwise disjoint classes are pairwise disjoint. */
  lemma ShapeDisjoint(pe: seq<set<nat>>, re: seq<set<nat>>, index: nat, i: nat, j: nat)
    requires index < |pe| && |pe| - 1 <= |re| <= |pe| + 1 && i < j < |re|
    requires forall a, b :: 0 <= a < b < |pe| ==> pe[a] !! pe[b]
    requires forall k :: 0 <= k < |pe| - 1 ==> re[k] == pe[KeptIndex(k, index)]
    requires forall k :: |pe| - 1 <= k < |re| ==> re[k] <= pe[index]
    requires |re| == |pe| + 1 ==> re[|pe| - 1] !! re[|pe|]
    ensures re[i] !! re[j]
  {
    var m := |pe| - 1;
    if j < m {
      var ki, kj := KeptIndex(i, index), KeptIndex(j, index);
      assert pe[ki] !! pe[kj];
    } else if i < m {
      var ki := KeptIndex(i, index);
      if ki < index {
        assert pe[ki] !! pe[index];
      } else {
        assert pe[index] !! pe[ki];
      }
      DisjointSubset(re[i], re[j], pe[index]);
    }
  }

  lemma DisjointSubset(a: set<nat>, b: set<nat>, c: set<nat>)
    requires a !! c && b <= c
    ensures a !! b
  {
  }

  /** When both halves are kept they are the last two classes, and disjoint. */
  lemma SplitAtHalvesDisjoint(p: Partition, f: nat -> bool, index: nat)
    requires index < |p.elem|
    ensures var r, m := p.SplitAt(f, index), |p.elem| - 1;
            |r.elem| == m + 2 ==> r.elem[m] !! r.elem[m + 1]
  {
    var r, m := p.SplitAt(f, index), |p.elem| - 1;
    var (a, b) := SplitSet(p.elem[index], f);
    if |r.elem| == m + 2 {
      assert r.elem[m..] == [a, b];
      assert r.elem[m] == r.elem[m..][0] && r.elem[m + 1] == r.elem[m..][1];
    }
  }

  lemma SplitAtCover(p: Partition, f: nat -> bool, index: nat)
    requires index < |p.elem|
    ensures forall x: nat :: p.SplitAt(f, index).InSomeClass(x) <==> p.InSomeClass(x)
  {
    var r := p.SplitAt(f, index);
    SplitAtShape(p, f, index);
    forall x: nat
      ensures r.InSomeClass(x) <==> p.InSomeClass(x)
    {
      ShapeCover(p, r, index, x);
    }
  }

  /** Classes laid out as by a split hold the same elements as the
      original classes. */
  lemma ShapeCover(p: Partition, r: Partition, index: nat, x: nat)
    requires index < |p.elem| && |p.elem| - 1 <= |r.elem|
    requires forall k :: 0 <= k < |p.elem| - 1 ==> r.elem[k] == p.elem[KeptIndex(k, index)]
    requires forall k :: |p.elem| - 1 <= k < |r.elem| ==> r.elem[k] <= p.elem[index]
    requires forall y :: y in p.elem[index] ==> exists k :: |p.elem| - 1 <= k < |r.elem| && y in r.elem[k]
    ensures r.InSomeClass(x) <==> p.InSomeClass(x)
  {
    var m := |p.elem| - 1;
    if p.InSomeClass(x) {
      var i :| 0 <= i < |p.elem| && x in p.elem[i];
      if i != index {
        var j := if i < index then i else i - 1;
        assert r.elem[j] == p.elem[KeptIndex(j, index)];
      }
    }
    if r.InSomeClass(x) {
      var j :| 0 <= j < |r.elem| && x in r.elem[j];
      if j < m {
        assert x in p.elem[KeptIndex(j, index)];
      } else {
        assert x in p.elem[index];
      }
    }
  }

  lemma SplitAtRefines(p: Partition, f: nat -> bool, index: nat)
    requires index < |p.elem|
    ensures p.SplitAt(f, index).Refines2(p)
  {
    var r := p.SplitAt(f, index);
    var m := |p.elem| - 1;
    SplitAtShape(p, f, index);
    forall k | k in r.elem
      ensures exists c :: c in p.elem && k <= c
    {
      var j :| 0 <= j < |r.elem| && r.elem[j] == k;
      if j < m {
        assert p.elem[KeptIndex(j, index)] in p.elem;
      } else {
        assert p.elem[index] in p.elem;
      }
    }
  }

  /** Splitting a class of a valid partition gives a valid partition of the
      same elements that refines the original. */
  lemma SplitAtValid(p: Partition, f: nat -> bool, index: nat)
    requires p.IsValid() && index < |p.elem|
    ensures p.SplitAt(f, index).IsValid()
    ensures p.SplitAt(f, index).Refines2(p)
    ensures forall x: nat :: p.SplitAt(f, index).InSomeClass(x) <==> p.InSomeClass(x)
  {
    var r := p.SplitAt(f, index);
    var m := |p.elem| - 1;
    SplitAtShape(p, f, index);
    SplitAtDisjoint(p, f, index);
    SplitAtCover(p, f, index);
    SplitAtRefines(p, f, index);
    forall i, x | 0 <= i < |r.elem| && x in r.elem[i]
      ensures x < r.n
    {
      if i < m {
        assert x in p.elem[KeptIndex(i, index)];
      } else {
        assert x in p.elem[index];
      }
    }
  }

  /** On a valid partition, two elements are equivalent exactly when some
      class holds both. */
  lemma EquivIff(p: Partition, x: nat, y: nat)
    requires p.IsValid() && x < p.n && y < p.n
    ensures |p.elem| > 0 && p.InSomeClass(x) && p.InSomeClass(y)
    ensures p.Equiv(x, y) <==> exists i :: 0 <= i < |p.elem| && x in p.elem[i] && y in p.elem[i]
  {
    assert p.InSomeClass(x) && p.InSomeClass(y);
    var cx, cy := p.GetClass(x, 0), p.GetClass(y, 0);
    if i :| 0 <= i < |p.elem| && x in p.elem[i] && y in p.elem[i] {
      ClassUnique(p, x, cx, i);
      ClassUnique(p, y, cy, i);
    }
  }

  /** In a valid partition each element lies in one class only. */
  lemma ClassUnique(p: Partition, x: nat, i: nat, j: nat)
    requires p.IsValid() && i < |p.elem| && j < |p.elem|
    requires x in p.elem[i] && x in p.elem[j]
    ensures i == j
  {
  }

  /** `Equiv` is an equivalence relation on the elements of the classes. */
  lemma EquivIsEquivalence(p: Partition, x: nat, y: nat, z: nat)
    requires |p.elem| > 0 && p.InSomeClass(x) && p.InSomeClass(y) && p.InSomeClass(z)
    ensures p.Equiv(x, x)
    ensures p.Equiv(x, y) ==> p.Equiv(y, x)
    ensures p.Equiv(x, y) && p.Equiv(y, z) ==> p.Equiv(x, z)
  {
  }

  lemma Refines2Refl(p: Partition)
    ensures p.Refines2(p)
  {
    forall k | k in p.elem
      ensures exists c :: c in p.elem && k <= c
    {
      assert k <= k;
    }
  }

  lemma Refines2Trans(a: Partition, b: Partition, c: Partition)
    ensures a.Refines2(b) && b.Refines2(c) ==> a.Refines2(c)
  {
    if a.Refines2(b) && b.Refines2(c) {
      forall k | k in a.elem
        ensures exists e :: e in c.elem && k <= e
      {
        var d :| d in b.elem && k <= d;
        var e :| e in c.elem && d <= e;
        assert k <= e;
      }
    }
  }

  lemma SplitAtValidWhenValid(p: Partition, f: nat -> bool)
    requires |p.elem| >= 1
    ensures p.IsValid() ==> p.SplitAt(f, 0).IsValid() && p.SplitAt(f, 0).Refines2(p)
  {
    if p.IsValid() {
      SplitAtValid(p, f, 0);
    }
  }

  /** Splits class 0 with f(0), then class 0 of the result with f(1), and so on,
      `max - index` times. */
  function SplitAll(p: Partition, f: nat -> (nat -> bool), index: nat, max: nat): (r: Partition)
    requires index <= max && (index < max ==> |p.elem| >= 1)
    ensures r.n == p.n
    ensures |r.elem| >= |p.elem|
    ensures p.IsValid() ==> r.IsValid() && r.Refines2(p)
    decreases max - index
  {
    if max == index then
      Refines2Refl(p);
      p
    else
      var p1 := p.SplitAt(f(0), 0);
      SplitAtValidWhenValid(p, f(0));
      var r := SplitAll(p1, x => f(x + 1), index + 1, max);
      Refines2Trans(r, p1, p);
      r
  }
}
