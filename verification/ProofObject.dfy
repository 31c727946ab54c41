/** Proof objects: a linear segment together with what the analyser
    established about it (weakest-precondition operand and capacity bounds,
    the jump target, the resolved stacks). The variant of a proof object says
    how control leaves the segment. */
module ProofObject {

  import opened MiscTypes
  import opened EVMConstants
  import opened StackElement
  import opened State
  import opened LinSegments
  import opened Instructions

  /** Stacks recovered for a segment, keyed by position. The builder that
      fills it is not part of this model, so entries are kept abstract. */
  datatype StackResolver = StackResolver(sp: map<nat, nat>)

  datatype ProofObj =
    | JUMP(s: LinSeg, wpOp: int, wpCap: int, tgt: Either<StackElem, nat>, stacks: map<nat, nat>)
    | CONT(s: LinSeg, wpOp: int, wpCap: int, stacks: map<nat, nat>)
    | TERMINAL(s: LinSeg, wpOp: int, wpCap: int, stacks: map<nat, nat>)
  {
    /** A jump object wraps a JUMP or JUMPI segment, a continuation a
        fall-through segment, a terminal object a RETURN or STOP segment. */
    predicate IsValid()
    {
      match this
      case JUMP(_, _, _, _, _) => s.JUMPSeg? || s.JUMPISeg?
      case CONT(_, _, _, _) => s.CONTSeg?
      case TERMINAL(_, _, _, _) => s.RETURNSeg? || s.STOPSeg?
    }

    /** Addresses of the JUMPDEST instructions of the whole segment. */
    function CollectJumpDest(): (r: seq<nat>)
      ensures |r| <= |s.ins| + 1
      ensures forall a :: a in r <==>
                exists k :: 0 <= k < |s.Ins()| && s.Ins()[k].op.opcode == JUMPDEST && s.Ins()[k].address == a
    {
      s.CollectJumpDest(s.Ins())
    }

    /** The net stack-size change recorded for the segment. */
    function StackEffect(): (r: int)
      ensures r == s.netOpEffect
    {
      s.StackEffect()
    }
  }

  /** Every segment kind except INVALID is wrapped validly by exactly one
      kind of proof object, and an INVALID segment by none. */
  lemma ValidKinds(s: LinSeg, wpOp: int, wpCap: int, tgt: Either<StackElem, nat>, st: map<nat, nat>)
    ensures JUMP(s, wpOp, wpCap, tgt, st).IsValid() <==> s.JUMPSeg? || s.JUMPISeg?
    ensures CONT(s, wpOp, wpCap, st).IsValid() <==> s.CONTSeg?
    ensures TERMINAL(s, wpOp, wpCap, st).IsValid() <==> s.RETURNSeg? || s.STOPSeg?
    ensures s.INVALIDSeg? ==>
              !JUMP(s, wpOp, wpCap, tgt, st).IsValid() && !CONT(s, wpOp, wpCap, st).IsValid()
              && !TERMINAL(s, wpOp, wpCap, st).IsValid()
    ensures !s.INVALIDSeg? ==>
              (if JUMP(s, wpOp, wpCap, tgt, st).IsValid() then 1 else 0)
              + (if CONT(s, wpOp, wpCap, st).IsValid() then 1 else 0)
              + (if TERMINAL(s, wpOp, wpCap, st).IsValid() then 1 else 0) == 1
  {
  }

  /** The variant of a valid proof object over a valid segment matches how
      control leaves the segment: a jump object has a taken branch, a
      continuation only the fall-through, a terminal object no successor; and
      the last opcode is the one the variant names. */
  lemma ValidExits(p: ProofObj)
    requires p.IsValid() && p.s.IsValid()
    ensures !p.s.INVALIDSeg? && p.s.lastIns.op.opcode != INVALID
    ensures p.JUMP? ==> p.s.HasExit(true) && (p.s.lastIns.op.opcode == EVMConstants.JUMP || p.s.lastIns.op.opcode == JUMPI)
    ensures p.CONT? ==> p.s.HasExit(false) && !p.s.HasExit(true)
    ensures p.TERMINAL? ==>
              !p.s.HasExit(false) && !p.s.HasExit(true)
              && p.s.lastIns.op.opcode in {RETURN, STOP, REVERT}
  {
    ValidSegKind(p.s);
  }

  /** `ValidExits` is about recorded successors, not runs: a terminal object
      whose last instruction takes the ordinary pop/push step runs on the
      fall-through branch whenever enough slots are left, and lands right
      after that instruction. */
  lemma TerminalFallsThrough(p: ProofObj, st: AState)
    requires p.TERMINAL? && p.IsValid() && p.s.InsValid() && PopsAndPushes(p.s.lastIns.op)
    requires st.EState? && RunIns(p.s.ins, st).EState?
    requires p.s.lastIns.op.pops <= |RunIns(p.s.ins, st).stack|
    ensures !p.s.HasExit(false)
    ensures p.s.Run(st, false).EState?
    ensures p.s.Run(st, false).pc == RunIns(p.s.ins, st).pc + 1
  {
    PopPushStep(p.s.lastIns, RunIns(p.s.ins, st));
  }

  /** The JUMPDESTs of a segment are those of its body followed by the last
      instruction's address when it is one; a valid jump or terminal object
      ends in a jump or halt, so only its body contributes. */
  lemma CollectJumpDestSplit(p: ProofObj)
    ensures p.CollectJumpDest() ==
              p.s.CollectJumpDest(p.s.ins)
              + (if p.s.lastIns.op.opcode == JUMPDEST then [p.s.lastIns.address] else [])
    ensures p.IsValid() && p.s.IsValid() && !p.CONT? ==>
              p.CollectJumpDest() == p.s.CollectJumpDest(p.s.ins)
  {
    CollectJumpDestConcat(p.s, p.s.ins, [p.s.lastIns]);
    CollectJumpDestOne(p.s, p.s.lastIns);
    if p.IsValid() && p.s.IsValid() && !p.CONT? {
      ValidExits(p);
      assert p.s.lastIns.op.opcode != JUMPDEST;
    }
  }

  /** When the recorded effect is the instructions' own net effect, running
      the segment of a proof object changes the stack size by exactly
      `StackEffect()`. */
  lemma StackEffectSound(p: ProofObj, st: AState, exit: bool)
    requires p.s.InsValid() && st.EState? && p.s.netOpEffect == StackEffectHelper(p.s.Ins())
    requires p.s.Run(st, exit).EState?
    ensures |p.s.Run(st, exit).stack| == |st.stack| + p.StackEffect()
  {
    SegRunStackEffect(p.s, st, exit);
  }
}
