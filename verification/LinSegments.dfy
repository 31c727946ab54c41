/** Linear segments: straight-line runs of instructions that end with a jump,
    a terminal instruction, or a fall-through into the next segment. A segment
    is run forward with `Run` and transformed backward with `WPre`; `LeadsTo`
    is the condition under which a segment hands control to a given address. */
module LinSegments {

  import opened Int
  import opened MiscTypes
  import opened EVMConstants
  import opened EVMOpcodes
  import opened StackElement
  import opened WeakPre
  import opened State
  import opened Instructions

  /** Every instruction is valid and its opcode descriptor well formed. */
  predicate ValidIns(xs: seq<Instruction>)
  {
    forall k :: 0 <= k < |xs| ==> xs[k].IsValid() && xs[k].op.WellFormed()
  }

  /** Each instruction starts right after its predecessor and the
      predecessor's argument bytes. */
  predicate Contiguous(xs: seq<Instruction>)
  {
    forall k :: 0 <= k < |xs| - 1 ==> xs[k + 1].address == xs[k].address + 1 + |xs[k].arg| / 2
  }

  predicate NoInvalid(xs: seq<Instruction>)
  {
    forall k :: 0 <= k < |xs| ==> xs[k].op.opcode != INVALID
  }

  /** No instruction has an opcode whose transformer the analyser gets
      wrong. */
  predicate NoCorrected(xs: seq<Instruction>)
  {
    forall k :: 0 <= k < |xs| ==> !xs[k].WPreCorrected()
  }

  /** Sum of the stack effects of the instructions. */
  function StackEffectHelper(xs: seq<Instruction>): int
  {
    if |xs| == 0 then 0 else xs[0].StackEffect() + StackEffectHelper(xs[1..])
  }

  /** The stack effect of a concatenation is the sum of the stack effects. */
  lemma {:induction false} StackEffectConcat(xs: seq<Instruction>, ys: seq<Instruction>)
    ensures StackEffectHelper(xs + ys) == StackEffectHelper(xs) + StackEffectHelper(ys)
  {
    if |xs| == 0 {
      assert xs + ys == ys;
    } else {
      assert (xs + ys)[1..] == xs[1..] + ys;
      StackEffectConcat(xs[1..], ys);
    }
  }

  /** Runs the instructions one after the other on their fall-through
      branch, stopping at the first error. */
  function RunIns(xs: seq<Instruction>, s: AState): (r: AState)
    requires ValidIns(xs) && s.EState?
    ensures r.EState? ==> |r.stack| == |s.stack| + StackEffectHelper(xs)
  {
    if |xs| == 0 then s
    else
      var next := xs[0].NextState(s, false);
      if next.EState? then
        NextStateStackEffect(xs[0], s, false);
        RunIns(xs[1..], next)
      else next
  }

  /** Running a concatenation runs the first part and then, unless it
      failed, the second. */
  lemma {:induction false} RunInsConcat(xs: seq<Instruction>, ys: seq<Instruction>, s: AState)
    requires ValidIns(xs) && ValidIns(ys) && s.EState?
    ensures ValidIns(xs + ys)
    ensures RunIns(xs + ys, s) == (var m := RunIns(xs, s); if m.Error? then m else RunIns(ys, m))
  {
    if |xs| == 0 {
      assert xs + ys == ys;
    } else {
      assert (xs + ys)[0] == xs[0] && (xs + ys)[1..] == xs[1..] + ys;
      var next := xs[0].NextState(s, false);
      if next.EState? {
        RunInsConcat(xs[1..], ys, next);
      }
    }
  }

  /** Weakest precondition of a run of instructions, computed from the last
      instruction back to the first; a trivial condition is returned as is. */
  function WPreIns(xs: seq<Instruction>, c: Cond): (r: Cond)
    requires ValidIns(xs) && c.IsValid()
    ensures r.IsValid()
    ensures !c.StCond? ==> r == c
    decreases |xs|
  {
    if |xs| == 0 then c
    else if !c.StCond? then c
    else WPreIns(xs[..|xs| - 1], xs[|xs| - 1].WPre(c))
  }

  /** The backward fold as the analyser writes it, over the as-written
      transformer of each instruction. */
  function WPreInsAsWritten(xs: seq<Instruction>, c: Cond): (r: Cond)
    requires ValidIns(xs) && c.IsValid()
    ensures r.IsValid()
    ensures !c.StCond? ==> r == c
    decreases |xs|
  {
    if |xs| == 0 then c
    else if !c.StCond? then c
    else WPreInsAsWritten(xs[..|xs| - 1], xs[|xs| - 1].WPreAsWritten(c))
  }

  /** Without the corrected opcodes the two folds are the same function. */
  lemma {:induction false} WPreInsAgreement(xs: seq<Instruction>, c: Cond)
    requires ValidIns(xs) && c.IsValid() && NoCorrected(xs)
    ensures WPreInsAsWritten(xs, c) == WPreIns(xs, c)
    decreases |xs|
  {
    if |xs| > 0 && c.StCond? {
      var init, last := xs[..|xs| - 1], xs[|xs| - 1];
      WPreAgreement(last, c);
      WPreInsAgreement(init, last.WPre(c));
    }
  }

  /** The backward fold over a concatenation transforms by the second part
      first. */
  lemma {:induction false} WPreInsConcat(xs: seq<Instruction>, ys: seq<Instruction>, c: Cond)
    requires ValidIns(xs) && ValidIns(ys) && c.IsValid()
    ensures ValidIns(xs + ys)
    ensures WPreIns(xs + ys, c) == WPreIns(xs, WPreIns(ys, c))
    decreases |ys|
  {
    if |ys| == 0 {
      assert xs + ys == xs;
    } else if c.StCond? {
      var zs := xs + ys;
      var init, last := ys[..|ys| - 1], ys[|ys| - 1];
      assert zs[..|zs| - 1] == xs + init && zs[|zs| - 1] == last;
      var c' := last.WPre(c);
      assert WPreIns(ys, c) == WPreIns(init, c');
      assert WPreIns(zs, c) == WPreIns(xs + init, c');
      WPreInsConcat(xs, init, c');
    }
  }

  /** A one-instruction run is one step. */
  lemma RunInsOne(x: Instruction, s: AState)
    requires x.IsValid() && x.op.WellFormed() && s.EState?
    ensures ValidIns([x])
    ensures RunIns([x], s) == x.NextState(s, false)
  {
    assert [x][1..] == [];
  }

  /** Duality for a run of instructions: whenever the run succeeds from `s`,
      `s` satisfies the weakest precondition exactly when the final state
      satisfies the condition. */
  lemma {:induction false} WPreInsExact(xs: seq<Instruction>, c: Cond, s: AState)
    requires ValidIns(xs) && c.IsValid() && s.EState?
    requires RunIns(xs, s).EState?
    ensures WPreIns(xs, c).Sat(s.stack) <==> c.Sat(RunIns(xs, s).stack)
    decreases |xs|
  {
    if |xs| > 0 && c.StCond? {
      var init, last := xs[..|xs| - 1], xs[|xs| - 1];
      assert xs == init + [last];
      RunInsConcat(init, [last], s);
      var m := RunIns(init, s);
      RunInsOne(last, m);
      WPreInsExact(init, last.WPre(c), s);
      WPreExact(last, c, m, false);
    }
  }

  /** On the fall-through branch, a contiguous run without INVALID ends right
      after its last instruction. */
  lemma {:induction false} RunInsPc(xs: seq<Instruction>, s: AState)
    requires ValidIns(xs) && Contiguous(xs) && NoInvalid(xs) && |xs| >= 1
    requires s.EState? && s.pc == xs[0].address
    requires RunIns(xs, s).EState?
    ensures RunIns(xs, s).pc == xs[|xs| - 1].address + 1 + |xs[|xs| - 1].arg| / 2
    decreases |xs|
  {
    var next := xs[0].NextState(s, false);
    FallThroughPc(xs[0], s);
    if |xs| > 1 {
      RunInsPc(xs[1..], next);
    }
  }

  datatype LinSeg =
    | JUMPSeg(ins: seq<Instruction>, lastIns: Instruction, netOpEffect: int)
    | JUMPISeg(ins: seq<Instruction>, lastIns: Instruction, netOpEffect: int)
    | RETURNSeg(ins: seq<Instruction>, lastIns: Instruction, netOpEffect: int)
    | STOPSeg(ins: seq<Instruction>, lastIns: Instruction, netOpEffect: int)
    | CONTSeg(ins: seq<Instruction>, lastIns: Instruction, netOpEffect: int)
    | INVALIDSeg(ins: seq<Instruction>, lastIns: Instruction, netOpEffect: int)
  {
    /** The kind of a segment agrees with its last instruction. */
    predicate IsValid()
    {
      match this
      case JUMPSeg(_, _, _) => lastIns.op.opcode == JUMP
      case JUMPISeg(_, _, _) => lastIns.op.opcode == JUMPI
      case RETURNSeg(_, _, _) => lastIns.op.opcode == RETURN
      case STOPSeg(_, _, _) => lastIns.op.opcode == STOP || lastIns.op.opcode == REVERT
      case CONTSeg(_, _, _) => lastIns.op.opcode != INVALID
      case INVALIDSeg(_, _, _) => lastIns.op.opcode == INVALID
    }

    /** Every instruction of the segment is valid. */
    predicate InsValid()
    {
      ValidIns(ins) && lastIns.IsValid() && lastIns.op.WellFormed()
    }

    /** All instructions, the last one included. */
    function Ins(): (r: seq<Instruction>)
      ensures |r| >= 1 && r[|r| - 1] == lastIns && r[..|r| - 1] == ins
      ensures InsValid() ==> ValidIns(r)
    {
      ins + [lastIns]
    }

    function StartAddress(): nat
    {
      Ins()[0].address
    }

    function NetOpEffect(): int
    {
      netOpEffect
    }

    function NetCapEffect(): int
    {
      0 - netOpEffect
    }

    function StackEffect(): int
    {
      netOpEffect
    }

    /** The address right after the last instruction and its argument. */
    function StartAddressNextSeg(): nat
    {
      lastIns.address + 1 + |lastIns.arg| / 2
    }

    /** The addresses of the JUMPDEST instructions of `rest`, in order. */
    function CollectJumpDest(rest: seq<Instruction>): (r: seq<nat>)
      ensures |r| <= |rest|
      ensures forall a :: a in r <==>
                exists k :: 0 <= k < |rest| && rest[k].op.opcode == JUMPDEST && rest[k].address == a
    {
      if |rest| == 0 then []
      else if rest[0].op.opcode == JUMPDEST then
        var r := [rest[0].address] + CollectJumpDest(rest[1..]);
        assert forall k :: 1 <= k < |rest| ==> rest[k] == rest[1..][k - 1];
        r
      else
        var r := CollectJumpDest(rest[1..]);
        assert forall k :: 1 <= k < |rest| ==> rest[k] == rest[1..][k - 1];
        r
    }

    /** Runs the body on its fall-through branch and the last instruction on
        the branch `exit`. */
    function Run(s: AState, exit: bool): AState
      requires s.EState? && InsValid()
    {
      var s' := RunIns(ins, s);
      if s'.Error? then s' else lastIns.NextState(s', exit)
    }

    function WPre(c: Cond): (r: Cond)
      requires InsValid() && c.IsValid()
      ensures r.IsValid()
    {
      WPreIns(Ins(), c)
    }

    /** The segment's weakest precondition as the analyser computes it. */
    function WPreAsWritten(c: Cond): (r: Cond)
      requires InsValid() && c.IsValid()
      ensures r.IsValid()
    {
      WPreInsAsWritten(Ins(), c)
    }

    /** Whether the segment has a successor on branch `b`: a JUMP only on the
        taken branch, a JUMPI on both, a fall-through only on the other,
        terminal segments on neither. */
    predicate HasExit(b: bool)
    {
      match this
      case JUMPSeg(_, _, _) => b
      case JUMPISeg(_, _, _) => true
      case RETURNSeg(_, _, _) => false
      case STOPSeg(_, _, _) => false
      case CONTSeg(_, _, _) => !b
      case INVALIDSeg(_, _, _) => false
    }

    /** The condition, on the stack at the start of the segment, under which
        the segment ends at address `k` on branch `exit`. Terminal segments
        impose nothing; targets beyond 2^256 are unreachable. */
    function LeadsTo(k: nat, exit: bool): (r: Cond)
      requires InsValid()
      ensures r.IsValid()
    {
      if k >= TWO_256 then StFalse
      else
        match this
        case JUMPSeg(_, _, _) =>
          if exit then WPreIns(ins, StCond([0], [k])) else StFalse
        case JUMPISeg(_, _, _) =>
          if exit then WPreIns(ins, StCond([0], [k]))
          else if k == StartAddressNextSeg() then StTrue
          else StFalse
        case RETURNSeg(_, _, _) => StTrue
        case STOPSeg(_, _, _) => StTrue
        case CONTSeg(_, _, _) =>
          if !exit && k == StartAddressNextSeg() then StTrue else StFalse
        case INVALIDSeg(_, _, _) => StFalse
    }

    /** `LeadsTo` as the analyser computes it: the taken branch of a jump
        folds the as-written transformer over the body; every other case is
        the same. */
    function LeadsToAsWritten(k: nat, exit: bool): (r: Cond)
      requires InsValid()
      ensures r.IsValid()
    {
      if k < TWO_256 && exit && (JUMPSeg? || JUMPISeg?) then WPreInsAsWritten(ins, StCond([0], [k]))
      else LeadsTo(k, exit)
    }
  }

  /** The first segment at or after `rank` that starts at `pc`. */
  function PCToSeg(xs: seq<LinSeg>, pc: nat, rank: nat): (r: Option<nat>)
    requires rank <= |xs|
    ensures r.Some? ==> rank <= r.v < |xs| && xs[r.v].StartAddress() == pc
    ensures r.Some? ==> forall j :: rank <= j < r.v ==> xs[j].StartAddress() != pc
    ensures r.None? <==> forall j :: rank <= j < |xs| ==> xs[j].StartAddress() != pc
    decreases |xs| - rank
  {
    if rank == |xs| then None
    else if xs[rank].StartAddress() == pc then Some(rank)
    else PCToSeg(xs, pc, rank + 1)
  }

  predicate ValidSegs(xs: seq<LinSeg>)
  {
    forall j :: 0 <= j < |xs| ==> xs[j].InsValid()
  }

  /** A path is a sequence of segment indices with one branch per step. */
  predicate ValidPath(path: seq<nat>, exits: seq<bool>, xs: seq<LinSeg>)
  {
    |path| == |exits| && forall j :: 0 <= j < |path| ==> path[j] < |xs|
  }

  /** Weakest precondition along a path of segments ending at `tgtPC`:
      each segment, from the last back to the first, must transform the
      condition and lead to the start of the segment after it. */
  function WPreSeqSegs(path: seq<nat>, exits: seq<bool>, c: Cond, xs: seq<LinSeg>, tgtPC: nat): (r: Cond)
    requires ValidPath(path, exits, xs) && ValidSegs(xs) && c.IsValid()
    ensures r.IsValid()
    decreases |path|
  {
    if |path| == 0 then c
    else
      var seg := xs[path[|path| - 1]];
      var w1 := seg.WPre(c);
      var wp2 := seg.LeadsTo(tgtPC, exits[|exits| - 1]);
      WPreSeqSegs(path[..|path| - 1], exits[..|exits| - 1], w1.And(wp2), xs, seg.StartAddress())
  }

  /** The path condition as the analyser computes it, over the as-written
      segment transformer and `LeadsTo`. */
  function WPreSeqSegsAsWritten(path: seq<nat>, exits: seq<bool>, c: Cond, xs: seq<LinSeg>, tgtPC: nat): (r: Cond)
    requires ValidPath(path, exits, xs) && ValidSegs(xs) && c.IsValid()
    ensures r.IsValid()
    decreases |path|
  {
    if |path| == 0 then c
    else
      var seg := xs[path[|path| - 1]];
      var w1 := seg.WPreAsWritten(c);
      var wp2 := seg.LeadsToAsWritten(tgtPC, exits[|exits| - 1]);
      WPreSeqSegsAsWritten(path[..|path| - 1], exits[..|exits| - 1], w1.And(wp2), xs, seg.StartAddress())
  }

  /** No segment on the path holds a corrected opcode. */
  predicate PathNoCorrected(path: seq<nat>, xs: seq<LinSeg>)
  {
    forall j :: 0 <= j < |path| && path[j] < |xs| ==> NoCorrected(xs[path[j]].Ins())
  }

  /** Runs the segments of the path one after the other, each on its branch. */
  function RunPath(path: seq<nat>, exits: seq<bool>, xs: seq<LinSeg>, s: AState): AState
    requires ValidPath(path, exits, xs) && ValidSegs(xs) && s.EState?
    decreases |path|
  {
    if |path| == 0 then s
    else
      var m := RunPath(path[..|path| - 1], exits[..|exits| - 1], xs, s);
      if m.Error? then m else xs[path[|path| - 1]].Run(m, exits[|exits| - 1])
  }

  /** Following the path, every segment ends where the next one starts and
      the last one ends at `tgtPC`. */
  predicate Lands(path: seq<nat>, exits: seq<bool>, xs: seq<LinSeg>, s: AState, tgtPC: nat)
    requires ValidPath(path, exits, xs) && ValidSegs(xs) && s.EState?
    decreases |path|
  {
    if |path| == 0 then true
    else
      var init, exitsInit := path[..|path| - 1], exits[..|exits| - 1];
      var seg := xs[path[|path| - 1]];
      var t := RunPath(path, exits, xs, s);
      && t.EState?
      && t.pc == tgtPC
      && Lands(init, exitsInit, xs, s, seg.StartAddress())
  }

  /** A segment that can steer control: its last instruction either jumps or
      falls through. */
  predicate Steers(seg: LinSeg)
  {
    && seg.IsValid() && seg.InsValid()
    && (seg.JUMPSeg? || seg.JUMPISeg? || seg.CONTSeg?)
    && Contiguous(seg.Ins()) && NoInvalid(seg.ins)
    && seg.StartAddress() < TWO_256
  }

  /** Running a segment is running all its instructions, the last one on
      the branch `exit`. */
  lemma RunIsRunIns(seg: LinSeg, s: AState)
    requires seg.InsValid() && s.EState?
    ensures seg.Run(s, false) == RunIns(seg.Ins(), s)
  {
    RunInsConcat(seg.ins, [seg.lastIns], s);
    var m := RunIns(seg.ins, s);
    if m.EState? {
      RunInsOne(seg.lastIns, m);
    }
  }

  /** Duality for a segment: whenever it runs from `s` on branch `exit`, `s`
      satisfies its weakest precondition exactly when the final state
      satisfies the condition. */
  lemma SegWPreExact(seg: LinSeg, c: Cond, s: AState, exit: bool)
    requires seg.InsValid() && c.IsValid() && s.EState?
    requires seg.Run(s, exit).EState?
    ensures seg.WPre(c).Sat(s.stack) <==> c.Sat(seg.Run(s, exit).stack)
  {
    if c.StCond? {
      var m := RunIns(seg.ins, s);
      assert seg.WPre(c) == WPreIns(seg.ins, seg.lastIns.WPre(c));
      WPreInsExact(seg.ins, seg.lastIns.WPre(c), s);
      WPreExact(seg.lastIns, c, m, exit);
    }
  }

  /** A segment whose recorded net effect is the sum of its instructions'
      changes the stack size by that much when it runs. */
  lemma SegRunStackEffect(seg: LinSeg, s: AState, exit: bool)
    requires seg.InsValid() && s.EState? && seg.netOpEffect == StackEffectHelper(seg.Ins())
    requires seg.Run(s, exit).EState?
    ensures |seg.Run(s, exit).stack| == |s.stack| + seg.StackEffect()
  {
    var m := RunIns(seg.ins, s);
    NextStateStackEffect(seg.lastIns, m, exit);
    StackEffectConcat(seg.ins, [seg.lastIns]);
    assert StackEffectHelper([seg.lastIns]) == seg.lastIns.StackEffect();
  }

  /** On its fall-through branch a contiguous segment that does not end in
      INVALID ends at the start of the next segment. */
  lemma SegFallThroughPc(seg: LinSeg, s: AState)
    requires seg.InsValid() && Contiguous(seg.Ins()) && NoInvalid(seg.Ins())
    requires s.EState? && s.pc == seg.StartAddress()
    requires seg.Run(s, false).EState?
    ensures seg.Run(s, false).pc == seg.StartAddressNextSeg()
  {
    RunIsRunIns(seg, s);
    RunInsPc(seg.Ins(), s);
  }

  /** The kind of a valid segment: INVALID segments are exactly those ending
      in INVALID, and every other kind except the fall-through is fixed by
      its last opcode. */
  lemma ValidSegKind(seg: LinSeg)
    requires seg.IsValid()
    ensures seg.INVALIDSeg? <==> seg.lastIns.op.opcode == INVALID
    ensures seg.lastIns.op.opcode == RETURN ==> seg.RETURNSeg? || seg.CONTSeg?
    ensures seg.lastIns.op.opcode == STOP || seg.lastIns.op.opcode == REVERT ==> seg.STOPSeg? || seg.CONTSeg?
    ensures seg.lastIns.op.opcode == JUMP ==> seg.JUMPSeg? || seg.CONTSeg?
    ensures seg.lastIns.op.opcode == JUMPI ==> seg.JUMPISeg? || seg.CONTSeg?
  {
  }

  /** Collecting over a concatenation collects each part in order. */
  lemma {:induction false} CollectJumpDestConcat(seg: LinSeg, xs: seq<Instruction>, ys: seq<Instruction>)
    ensures seg.CollectJumpDest(xs + ys) == seg.CollectJumpDest(xs) + seg.CollectJumpDest(ys)
  {
    if |xs| == 0 {
      assert xs + ys == ys;
    } else {
      assert (xs + ys)[0] == xs[0] && (xs + ys)[1..] == xs[1..] + ys;
      CollectJumpDestConcat(seg, xs[1..], ys);
    }
  }

  /** One instruction contributes its address exactly when it is a JUMPDEST. */
  lemma CollectJumpDestOne(seg: LinSeg, x: Instruction)
    ensures seg.CollectJumpDest([x]) == if x.op.opcode == JUMPDEST then [x.address] else []
  {
    assert [x][1..] == [];
  }

  /** Beyond 2^256 nothing is reachable; terminal segments impose nothing on
      the target, and an INVALID segment leads nowhere. */
  lemma LeadsToFixed(seg: LinSeg, k: nat, exit: bool)
    requires seg.InsValid()
    ensures k >= TWO_256 ==> seg.LeadsTo(k, exit) == StFalse
    ensures k < TWO_256 && (seg.RETURNSeg? || seg.STOPSeg?) ==> seg.LeadsTo(k, exit) == StTrue
    ensures seg.INVALIDSeg? ==> seg.LeadsTo(k, exit) == StFalse
  {
  }

  /** A jump or fall-through segment that runs on branch `b` has a successor
      on that branch. */
  lemma HasExitSound(seg: LinSeg, s: AState, b: bool)
    requires seg.IsValid() && seg.InsValid() && s.EState?
    requires seg.JUMPSeg? || seg.JUMPISeg? || seg.CONTSeg?
    requires seg.CONTSeg? ==> seg.lastIns.op.opcode != JUMP && seg.lastIns.op.opcode != JUMPI
    requires seg.Run(s, b).EState?
    ensures seg.HasExit(b)
  {
    var m := RunIns(seg.ins, s);
    if seg.JUMPSeg? {
      JumpStep(seg.lastIns, m, b);
    } else if seg.CONTSeg? && b {
      ExitOnlyOnJumps(seg.lastIns, m);
    }
  }

  /** The exclusion above is needed: the kind rule admits a fall-through
      segment ending in JUMPI, and once its body leaves a known value on top
      of at least two slots it runs on the taken branch, where it has no
      successor. */
  lemma HasExitGap(seg: LinSeg, s: AState)
    requires seg.CONTSeg? && seg.InsValid() && seg.lastIns.op.JumpOp? && seg.lastIns.op.opcode == JUMPI
    requires s.EState? && RunIns(seg.ins, s).EState?
    requires |RunIns(seg.ins, s).stack| >= 2 && RunIns(seg.ins, s).stack[0].Value?
    ensures seg.IsValid()
    ensures seg.Run(s, true).EState? && !seg.HasExit(true)
  {
    JumpiStep(seg.lastIns, RunIns(seg.ins, s), true);
  }

  /** For a segment that steers control and runs from its start on a branch
      it has, `LeadsTo(k, exit)` holds exactly when the run ends at `k`. */
  lemma LeadsToExact(seg: LinSeg, k: nat, exit: bool, s: AState)
    requires Steers(seg) && seg.HasExit(exit) && k < TWO_256
    requires s.EState? && s.pc == seg.StartAddress()
    requires seg.Run(s, exit).EState?
    ensures seg.LeadsTo(k, exit).Sat(s.stack) <==> seg.Run(s, exit).pc == k
  {
    if exit {
      LeadsToExactTaken(seg, k, s);
    } else {
      LeadsToExactFallThrough(seg, k, s);
    }
  }

  /** The taken branch of a jump goes where the top of the stack says. */
  lemma LeadsToExactTaken(seg: LinSeg, k: nat, s: AState)
    requires Steers(seg) && seg.HasExit(true) && k < TWO_256
    requires s.EState? && s.pc == seg.StartAddress()
    requires seg.Run(s, true).EState?
    ensures seg.LeadsTo(k, true).Sat(s.stack) <==> seg.Run(s, true).pc == k
  {
    var m := RunIns(seg.ins, s);
    var c := StCond([0], [k]);
    WPreInsExact(seg.ins, c, s);
    SatOne(0, k, m.stack);
    if seg.JUMPSeg? {
      JumpStep(seg.lastIns, m, true);
    } else {
      JumpiStep(seg.lastIns, m, true);
    }
  }

  /** The fall-through branch goes to the next segment's start. */
  lemma LeadsToExactFallThrough(seg: LinSeg, k: nat, s: AState)
    requires Steers(seg) && seg.HasExit(false) && k < TWO_256
    requires s.EState? && s.pc == seg.StartAddress()
    requires seg.Run(s, false).EState?
    ensures seg.LeadsTo(k, false).Sat(s.stack) <==> seg.Run(s, false).pc == k
  {
    assert NoInvalid(seg.Ins()) by {
      var xs := seg.Ins();
      forall j | 0 <= j < |xs|
        ensures xs[j].op.opcode != INVALID
      {
        if j < |seg.ins| {
          assert xs[j] == seg.ins[j];
        }
      }
    }
    SegFallThroughPc(seg, s);
  }

  predicate SteersAll(path: seq<nat>, exits: seq<bool>, xs: seq<LinSeg>)
    requires ValidPath(path, exits, xs)
  {
    forall j :: 0 <= j < |path| ==> Steers(xs[path[j]]) && xs[path[j]].HasExit(exits[j])
  }

  /** Dropping the last segment of a steering path leaves a steering path
      with the same first segment. */
  lemma SteersAllInit(path: seq<nat>, exits: seq<bool>, xs: seq<LinSeg>)
    requires ValidPath(path, exits, xs) && |path| > 0 && SteersAll(path, exits, xs)
    ensures ValidPath(path[..|path| - 1], exits[..|exits| - 1], xs)
    ensures SteersAll(path[..|path| - 1], exits[..|exits| - 1], xs)
    ensures |path| > 1 ==> path[..|path| - 1][0] == path[0]
    ensures Steers(xs[path[|path| - 1]]) && xs[path[|path| - 1]].HasExit(exits[|exits| - 1])
  {
    var init, exitsInit := path[..|path| - 1], exits[..|exits| - 1];
    forall j | 0 <= j < |init|
      ensures Steers(xs[init[j]]) && xs[init[j]].HasExit(exitsInit[j])
    {
      assert init[j] == path[j] && exitsInit[j] == exits[j];
    }
  }

  /** Along a path of steering segments, started at the first segment, the
      path condition holds exactly when the final state satisfies `c` and
      every segment hands control to the next one, the last one to
      `tgtPC`. */
  lemma {:induction false} WPreSeqSegsExact(path: seq<nat>, exits: seq<bool>, c: Cond, xs: seq<LinSeg>, tgtPC: nat, s: AState)
    requires ValidPath(path, exits, xs) && ValidSegs(xs) && c.IsValid()
    requires SteersAll(path, exits, xs) && tgtPC < TWO_256
    requires s.EState? && (|path| > 0 ==> s.pc == xs[path[0]].StartAddress())
    requires RunPath(path, exits, xs, s).EState?
    ensures WPreSeqSegs(path, exits, c, xs, tgtPC).Sat(s.stack) <==>
            c.Sat(RunPath(path, exits, xs, s).stack) && Lands(path, exits, xs, s, tgtPC)
    decreases |path|
  {
    if |path| > 0 {
      var n := |path|;
      var init, exitsInit := path[..n - 1], exits[..n - 1];
      var seg := xs[path[n - 1]];
      var e := exits[n - 1];
      var m := RunPath(init, exitsInit, xs, s);
      var c' := seg.WPre(c).And(seg.LeadsTo(tgtPC, e));
      SteersAllInit(path, exits, xs);
      WPreSeqSegsExact(init, exitsInit, c', xs, seg.StartAddress(), s);
      AndSat(seg.WPre(c), seg.LeadsTo(tgtPC, e), m.stack);
      SegWPreExact(seg, c, m, e);
      if Lands(init, exitsInit, xs, s, seg.StartAddress()) {
        assert m.pc == seg.StartAddress();
        LeadsToExact(seg, tgtPC, e, m);
      }
    }
  }

  /** On a run without the corrected opcodes the analyser's own fold is
      exact. */
  lemma WPreInsAsWrittenExact(xs: seq<Instruction>, c: Cond, s: AState)
    requires ValidIns(xs) && c.IsValid() && s.EState? && NoCorrected(xs)
    requires RunIns(xs, s).EState?
    ensures WPreInsAsWritten(xs, c).Sat(s.stack) <==> c.Sat(RunIns(xs, s).stack)
  {
    WPreInsAgreement(xs, c);
    WPreInsExact(xs, c, s);
  }

  /** The body of a segment without corrected opcodes has none either. */
  lemma NoCorrectedBody(seg: LinSeg)
    requires NoCorrected(seg.Ins())
    ensures NoCorrected(seg.ins)
  {
    assert forall k :: 0 <= k < |seg.ins| ==> seg.ins[k] == seg.Ins()[k];
  }

  /** Without the corrected opcodes a segment's transformer and `LeadsTo`
      are the analyser's own. */
  lemma SegAgreement(seg: LinSeg, c: Cond, k: nat, exit: bool)
    requires seg.InsValid() && c.IsValid() && NoCorrected(seg.Ins())
    ensures seg.WPreAsWritten(c) == seg.WPre(c)
    ensures seg.LeadsToAsWritten(k, exit) == seg.LeadsTo(k, exit)
  {
    WPreInsAgreement(seg.Ins(), c);
    NoCorrectedBody(seg);
    WPreInsAgreement(seg.ins, StCond([0], [k]));
  }

  /** Segment duality for the analyser's own transformer, on segments
      without the corrected opcodes. */
  lemma SegWPreAsWrittenExact(seg: LinSeg, c: Cond, s: AState, exit: bool)
    requires seg.InsValid() && c.IsValid() && s.EState? && NoCorrected(seg.Ins())
    requires seg.Run(s, exit).EState?
    ensures seg.WPreAsWritten(c).Sat(s.stack) <==> c.Sat(seg.Run(s, exit).stack)
  {
    SegAgreement(seg, c, 0, exit);
    SegWPreExact(seg, c, s, exit);
  }

  /** `LeadsTo` exactness for the analyser's own computation, on segments
      without the corrected opcodes. */
  lemma LeadsToAsWrittenExact(seg: LinSeg, k: nat, exit: bool, s: AState)
    requires Steers(seg) && seg.HasExit(exit) && k < TWO_256 && NoCorrected(seg.Ins())
    requires s.EState? && s.pc == seg.StartAddress()
    requires seg.Run(s, exit).EState?
    ensures seg.LeadsToAsWritten(k, exit).Sat(s.stack) <==> seg.Run(s, exit).pc == k
  {
    SegAgreement(seg, StTrue, k, exit);
    LeadsToExact(seg, k, exit, s);
  }

  /** Without the corrected opcodes on the path, the analyser's path
      condition is the path condition of this model. */
  lemma {:induction false} WPreSeqSegsAgreement(path: seq<nat>, exits: seq<bool>, c: Cond, xs: seq<LinSeg>, tgtPC: nat)
    requires ValidPath(path, exits, xs) && ValidSegs(xs) && c.IsValid()
    requires PathNoCorrected(path, xs)
    ensures WPreSeqSegsAsWritten(path, exits, c, xs, tgtPC) == WPreSeqSegs(path, exits, c, xs, tgtPC)
    decreases |path|
  {
    if |path| > 0 {
      var n := |path|;
      var init, exitsInit := path[..n - 1], exits[..n - 1];
      var seg := xs[path[n - 1]];
      var e := exits[n - 1];
      PathNoCorrectedInit(path, exits, xs);
      SegAgreement(seg, c, tgtPC, e);
      var c' := seg.WPre(c).And(seg.LeadsTo(tgtPC, e));
      assert WPreSeqSegsAsWritten(path, exits, c, xs, tgtPC)
          == WPreSeqSegsAsWritten(init, exitsInit, c', xs, seg.StartAddress());
      WPreSeqSegsAgreement(init, exitsInit, c', xs, seg.StartAddress());
    }
  }

  /** Dropping the last segment of a path without corrected opcodes leaves
      one. */
  lemma PathNoCorrectedInit(path: seq<nat>, exits: seq<bool>, xs: seq<LinSeg>)
    requires ValidPath(path, exits, xs) && |path| > 0 && PathNoCorrected(path, xs)
    ensures ValidPath(path[..|path| - 1], exits[..|exits| - 1], xs)
    ensures PathNoCorrected(path[..|path| - 1], xs)
    ensures NoCorrected(xs[path[|path| - 1]].Ins())
  {
    var init := path[..|path| - 1];
    assert forall j :: 0 <= j < |init| ==> init[j] == path[j];
  }

  /** Path duality for the analyser's own path condition, on paths without
      the corrected opcodes. */
  lemma WPreSeqSegsAsWrittenExact(path: seq<nat>, exits: seq<bool>, c: Cond, xs: seq<LinSeg>, tgtPC: nat, s: AState)
    requires ValidPath(path, exits, xs) && ValidSegs(xs) && c.IsValid()
    requires SteersAll(path, exits, xs) && tgtPC < TWO_256 && PathNoCorrected(path, xs)
    requires s.EState? && (|path| > 0 ==> s.pc == xs[path[0]].StartAddress())
    requires RunPath(path, exits, xs, s).EState?
    ensures WPreSeqSegsAsWritten(path, exits, c, xs, tgtPC).Sat(s.stack) <==>
            c.Sat(RunPath(path, exits, xs, s).stack) && Lands(path, exits, xs, s, tgtPC)
  {
    WPreSeqSegsAgreement(path, exits, c, xs, tgtPC);
    WPreSeqSegsExact(path, exits, c, xs, tgtPC, s);
  }
}
