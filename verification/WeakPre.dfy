/** Conditions on the abstract stack used by the weakest-precondition
    calculus: `StCond(ps, vs)` is the conjunction "slot ps[i] holds the literal
    vs[i]" over all i; `StTrue` and `StFalse` are the trivial conditions. */
module WeakPre {

  import opened MiscTypes
  import opened StackElement

  predicate Distinct(ps: seq<nat>)
  {
    forall i, j :: 0 <= i < j < |ps| ==> ps[i] != ps[j]
  }

  /** Every tracked slot exists on `stk` and holds its literal. */
  predicate Holds(ps: seq<nat>, vs: seq<nat>, stk: seq<StackElem>)
  {
    forall i :: 0 <= i < |ps| ==> i < |vs| && ps[i] < |stk| && stk[ps[i]] == Value(vs[i])
  }

  /** `ps` with every position moved by `d`. */
  function ShiftBy(ps: seq<nat>, d: int): (r: seq<nat>)
    requires forall i :: 0 <= i < |ps| ==> ps[i] + d >= 0
    ensures |r| == |ps|
    ensures forall i :: 0 <= i < |ps| ==> r[i] == ps[i] + d
  {
    seq(|ps|, i requires 0 <= i < |ps| => (ps[i] + d) as nat)
  }

  /** `xs` without its element at index `i`. */
  function RemoveAt<T>(xs: seq<T>, i: nat): (r: seq<T>)
    requires i < |xs|
    ensures |r| == |xs| - 1
    ensures forall j :: 0 <= j < i ==> r[j] == xs[j]
    ensures forall j :: i <= j < |r| ==> r[j] == xs[j + 1]
  {
    xs[..i] + xs[i + 1..]
  }

  datatype Cond = StTrue | StFalse | StCond(trackedPos: seq<nat>, trackedVals: seq<nat>)
  {
    function TrackedPos(): seq<nat>
      requires StCond?
    {
      trackedPos
    }

    function TrackedVals(): seq<nat>
      requires StCond?
    {
      trackedVals
    }

    function TrackedValAt(i: nat): nat
      requires StCond? && i < |trackedVals|
    {
      trackedVals[i]
    }

    /** A tracked condition lists at least one position, each at most once,
        each with its literal. */
    predicate IsValid()
    {
      StCond? ==> |trackedPos| == |trackedVals| && |trackedPos| >= 1 && Distinct(trackedPos)
    }

    /** The stack `stk` satisfies the condition. */
    predicate Sat(stk: seq<StackElem>)
    {
      match this
      case StTrue => true
      case StFalse => false
      case StCond(ps, vs) => Holds(ps, vs, stk)
    }

    /** Every tracked position moved by `d`; the literals are kept. */
    function Shift(d: int): (r: Cond)
      requires StCond? && forall i :: 0 <= i < |trackedPos| ==> trackedPos[i] + d >= 0
      ensures IsValid() ==> r.IsValid()
    {
      StCond(ShiftBy(trackedPos, d), trackedVals)
    }

    /** Conjunction: false as soon as one side is, and a merge of the tracked
        positions otherwise. */
    function And(c: Cond): (r: Cond)
      requires IsValid() && c.IsValid()
      ensures r.IsValid()
    {
      match (this, c)
      case (StFalse, _) => StFalse
      case (_, StFalse) => StFalse
      case (StTrue, _) => c
      case (_, StTrue) => this
      case (StCond(p1, v1), StCond(p2, v2)) => Merge(p1, v1, p2, v2)
    }
  }

  /** A single-slot condition holds exactly when that slot holds the
      literal. */
  lemma SatOne(p: nat, v: nat, stk: seq<StackElem>)
    ensures StCond([p], [v]).Sat(stk) <==> p < |stk| && stk[p] == Value(v)
  {
    assert [p][0] == p && [v][0] == v;
  }

  /** Adds the constraints (p2, v2) one by one to (p1, v1): a position already
      tracked with the same literal is dropped, with another literal the result
      is `StFalse`, and a new position is appended. */
  function Merge(p1: seq<nat>, v1: seq<nat>, p2: seq<nat>, v2: seq<nat>): (r: Cond)
    requires |p1| == |v1| >= 1 && Distinct(p1) && |p2| == |v2|
    ensures r.IsValid()
    decreases |p2|
  {
    if |p2| == 0 then StCond(p1, v1)
    else match Find(p1, p2[0])
      case Some(i) =>
        if v1[i] == v2[0] then Merge(p1, v1, p2[1..], v2[1..]) else StFalse
      case None =>
        Merge(p1 + [p2[0]], v1 + [v2[0]], p2[1..], v2[1..])
  }

  lemma HoldsCons(ps: seq<nat>, vs: seq<nat>, stk: seq<StackElem>)
    requires |ps| == |vs| >= 1
    ensures Holds(ps, vs, stk) <==>
            ps[0] < |stk| && stk[ps[0]] == Value(vs[0]) && Holds(ps[1..], vs[1..], stk)
  {
    if ps[0] < |stk| && stk[ps[0]] == Value(vs[0]) && Holds(ps[1..], vs[1..], stk) {
      forall i | 0 <= i < |ps|
        ensures i < |vs| && ps[i] < |stk| && stk[ps[i]] == Value(vs[i])
      {
        if i > 0 {
          assert ps[i] == ps[1..][i - 1] && vs[i] == vs[1..][i - 1];
        }
      }
    }
  }

  lemma HoldsSnoc(ps: seq<nat>, vs: seq<nat>, x: nat, y: nat, stk: seq<StackElem>)
    requires |ps| == |vs|
    ensures Holds(ps + [x], vs + [y], stk) <==>
            Holds(ps, vs, stk) && x < |stk| && stk[x] == Value(y)
  {
    if Holds(ps + [x], vs + [y], stk) {
      forall i | 0 <= i < |ps|
        ensures i < |vs| && ps[i] < |stk| && stk[ps[i]] == Value(vs[i])
      {
        assert (ps + [x])[i] == ps[i] && (vs + [y])[i] == vs[i];
      }
      assert (ps + [x])[|ps|] == x && (vs + [y])[|ps|] == y;
    }
  }

  /** Removing one tracked entry splits the condition into that entry and the rest. */
  lemma HoldsRemoveAt(ps: seq<nat>, vs: seq<nat>, i: nat, stk: seq<StackElem>)
    requires |ps| == |vs| && i < |ps|
    ensures Holds(ps, vs, stk) <==>
            ps[i] < |stk| && stk[ps[i]] == Value(vs[i]) && Holds(RemoveAt(ps, i), RemoveAt(vs, i), stk)
  {
    var rp, rv := RemoveAt(ps, i), RemoveAt(vs, i);
    if ps[i] < |stk| && stk[ps[i]] == Value(vs[i]) && Holds(rp, rv, stk) {
      forall j | 0 <= j < |ps|
        ensures j < |vs| && ps[j] < |stk| && stk[ps[j]] == Value(vs[j])
      {
        if j < i {
          assert rp[j] == ps[j] && rv[j] == vs[j];
        } else if j > i {
          assert rp[j - 1] == ps[j] && rv[j - 1] == vs[j];
        }
      }
    }
    if Holds(ps, vs, stk) {
      forall j | 0 <= j < |rp|
        ensures j < |rv| && rp[j] < |stk| && stk[rp[j]] == Value(rv[j])
      {
        if j >= i {
          assert rp[j] == ps[j + 1] && rv[j] == vs[j + 1];
        }
      }
    }
  }

  lemma DistinctRemoveAt(ps: seq<nat>, i: nat)
    requires Distinct(ps) && i < |ps|
    ensures Distinct(RemoveAt(ps, i))
    ensures forall j :: 0 <= j < |ps| - 1 ==> RemoveAt(ps, i)[j] != ps[i]
  {
    var r := RemoveAt(ps, i);
    forall a, b | 0 <= a < b < |r|
      ensures r[a] != r[b]
    {
      var a' := if a < i then a else a + 1;
      var b' := if b < i then b else b + 1;
      assert r[a] == ps[a'] && r[b] == ps[b'] && a' < b';
    }
    forall j | 0 <= j < |r|
      ensures r[j] != ps[i]
    {
      var j' := if j < i then j else j + 1;
      assert r[j] == ps[j'] && j' != i;
    }
  }

  /** The merge holds exactly when both merged conditions hold. */
  lemma {:induction false} MergeSat(p1: seq<nat>, v1: seq<nat>, p2: seq<nat>, v2: seq<nat>, stk: seq<StackElem>)
    requires |p1| == |v1| >= 1 && Distinct(p1) && |p2| == |v2|
    ensures Merge(p1, v1, p2, v2).Sat(stk) <==> Holds(p1, v1, stk) && Holds(p2, v2, stk)
    decreases |p2|
  {
    if |p2| > 0 {
      HoldsCons(p2, v2, stk);
      match Find(p1, p2[0])
      case Some(i) =>
        if v1[i] == v2[0] {
          MergeSat(p1, v1, p2[1..], v2[1..], stk);
        }
      case None =>
        HoldsSnoc(p1, v1, p2[0], v2[0], stk);
        MergeSat(p1 + [p2[0]], v1 + [v2[0]], p2[1..], v2[1..], stk);
    }
  }

  /** A stack satisfies `a.And(b)` exactly when it satisfies both. */
  lemma AndSat(a: Cond, b: Cond, stk: seq<StackElem>)
    requires a.IsValid() && b.IsValid()
    ensures a.And(b).Sat(stk) <==> a.Sat(stk) && b.Sat(stk)
  {
    if a.StCond? && b.StCond? {
      MergeSat(a.trackedPos, a.trackedVals, b.trackedPos, b.trackedVals, stk);
    }
  }

  /** Shifting by zero leaves a condition unchanged. */
  lemma ShiftZero(c: Cond)
    requires c.StCond?
    ensures c.Shift(0) == c
  {
    assert ShiftBy(c.trackedPos, 0) == c.trackedPos;
  }

  /** Shifting a condition by k - m is exact for a stack obtained from `pre` by
      removing its top k slots and pushing m new ones, provided no tracked
      position lies among the m new slots. */
  lemma ShiftExact(c: Cond, pre: seq<StackElem>, post: seq<StackElem>, m: nat, k: nat)
    requires c.StCond? && |c.trackedPos| == |c.trackedVals|
    requires forall i :: 0 <= i < |c.trackedPos| ==> c.trackedPos[i] >= m
    requires k <= |pre| && |post| == m + |pre| - k
    requires m <= |post| && post[m..] == pre[k..]
    ensures c.Shift(k - m).Sat(pre) <==> c.Sat(post)
  {
    var ps, vs := c.trackedPos, c.trackedVals;
    var sp := ShiftBy(ps, k - m);
    forall i | 0 <= i < |ps|
      ensures (sp[i] < |pre| && pre[sp[i]] == Value(vs[i])) <==> (ps[i] < |post| && post[ps[i]] == Value(vs[i]))
    {
      if ps[i] < |post| {
        assert post[ps[i]] == post[m..][ps[i] - m] == pre[k..][ps[i] - m] == pre[sp[i]];
      }
      if sp[i] < |pre| {
        assert pre[sp[i]] == pre[k..][ps[i] - m] == post[m..][ps[i] - m] == post[ps[i]];
      }
    }
  }
}
