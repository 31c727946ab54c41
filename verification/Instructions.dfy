/** A decoded instruction and its abstract semantics: a forward step on the
    abstract state (`NextState`), a backward weakest-precondition transformer
    on stack conditions (`WPre`), and a backward tracker of one stack position
    used to resolve jump targets (`StackPosBackWardTracker`). */
module Instructions {

  import opened Int
  import opened MiscTypes
  import opened EVMConstants
  import opened EVMOpcodes
  import opened Hex
  import opened StackElement
  import opened WeakPre
  import opened State

  /** The literal pushed by a PUSH instruction: its argument read as a hex
      number after left-padding it with zeros to 64 digits. */
  function GetArgValuePush(xc: string): (r: nat)
    requires |xc| <= 64 && AllHex(xc)
    ensures r == HexToNat(xc)
    ensures r < TWO_256
  {
    var pad := seq(64 - |xc|, _ => '0');
    LeadingZerosIgnored(pad, xc);
    HexToU256(pad + xc).v
  }

  /** The slot that DUPn copies to the top is slot n-1; every other slot after
      the DUP was one slot higher before it. */
  function DupSource(n: nat, pos: nat): nat
    requires n >= 1
  {
    if pos == 0 then n - 1 else pos - 1
  }

  /** SWAPn exchanges slots 0 and n and leaves the others in place. */
  function SwapSource(n: nat, pos: nat): nat
  {
    if pos == 0 then n else if pos == n then 0 else pos
  }

  /** The positions of a condition before DUPn. */
  function DupPositions(n: nat, ps: seq<nat>): (r: seq<nat>)
    requires n >= 1
    ensures |r| == |ps|
    ensures forall k :: 0 <= k < |ps| ==> r[k] == DupSource(n, ps[k])
    ensures Distinct(ps) && n !in ps ==> Distinct(r)
  {
    var r := Map(ps, (p: nat) => DupSource(n, p));
    assert Distinct(ps) && n !in ps ==> Distinct(r) by {
      if Distinct(ps) && n !in ps {
        forall a, b | 0 <= a < b < |r|
          ensures r[a] != r[b]
        {
          assert ps[a] != n && ps[b] != n;
        }
      }
    }
    r
  }

  /** The positions of a condition before SWAPn. */
  function SwapPositions(n: nat, ps: seq<nat>): (r: seq<nat>)
    ensures |r| == |ps|
    ensures forall k :: 0 <= k < |ps| ==> r[k] == SwapSource(n, ps[k])
    ensures Distinct(ps) ==> Distinct(r)
  {
    var r := Map(ps, (p: nat) => SwapSource(n, p));
    assert Distinct(ps) ==> Distinct(r) by {
      if Distinct(ps) {
        forall a, b | 0 <= a < b < |r|
          ensures r[a] != r[b]
        {
          assert ps[a] != ps[b];
        }
      }
    }
    r
  }

  datatype Instruction = Instruction(op: Opcode, arg: string, address: nat)
  {
    /** An INVALID instruction carries any argument; PUSHn carries exactly n
        bytes written as 2n hex digits; every other opcode carries none. */
    predicate IsValid()
    {
      || op.opcode == INVALID
      || (&& (IsPushCode(op.opcode) ==> |arg| == 2 * (op.opcode - PUSH0) && AllHex(arg))
          && (!IsPushCode(op.opcode) ==> |arg| == 0))
    }

    function StackEffect(): int
    {
      op.StackEffect()
    }

    predicate IsJumpDest()
    {
      op.IsJumpDest()
    }

    /** Follows the stack slot at `pos` after this instruction back to the
        slot it occupied before it (`Right`), or reports that the instruction
        produced it (`Left`: the literal of a PUSH, otherwise an unknown). */
    function StackPosBackWardTracker(pos: nat): Either<StackElem, nat>
      requires IsValid() && op.WellFormed()
    {
      match op
      case ArithOp(_, _, _, _, _, _) =>
        if pos >= 1 then Right(pos + 1)
        else Either<StackElem, nat>.Left(Random("More than one predecessor. Arithmetic operator with target 0"))
      case CompOp(_, _, _, _, _, _) =>
        if pos >= 1 then
          var k: nat := pos + op.pops - op.pushes;
          Right(k)
        else Either<StackElem, nat>.Left(Random("More than one predecessor. Comparison operator with target 0"))
      case JumpOp(_, _, _, _, _, _) =>
        if op.opcode == JUMPDEST then Right(pos)
        else if JUMP <= op.opcode <= JUMPI then Right(pos + (op.opcode - JUMP + 1))
        else Either<StackElem, nat>.Left(Random("Not implemented"))
      case StackOp(_, _, _, _, _, _) =>
        if IsPushCode(op.opcode) then
          if pos == 0 then Either<StackElem, nat>.Left(Value(GetArgValuePush(arg))) else Right(pos - 1)
        else if IsDupCode(op.opcode) then Right(DupSource(op.opcode - DUP1 + 1, pos))
        else if IsSwapCode(op.opcode) then Right(SwapSource(op.opcode - SWAP1 + 1, pos))
        else Right(pos + 1)
      case _ => Either<StackElem, nat>.Left(Random("Not implemented"))
    }

    /** The backward tracker with arithmetic operators moved by their net
        stack effect (pops - pushes), like the other operators; the
        as-written tracker moves them by one whatever their arity. */
    function StackPosTracker(pos: nat): Either<StackElem, nat>
      requires IsValid() && op.WellFormed()
    {
      if op.ArithOp? && pos >= 1 then
        var k: nat := pos + op.pops - op.pushes;
        Right(k)
      else StackPosBackWardTracker(pos)
    }

    /** The opcodes whose weakest precondition the analyser gets wrong:
        arithmetic operators that do not take two operands, and system
        operators that return a word. */
    predicate WPreCorrected()
    {
      (op.ArithOp? && op.pops != 2) || (op.SysOp? && op.pushes == 1)
    }

    /** One abstract step. `exit` selects the taken branch of a jump; every
        other instruction only runs with `exit` false. */
    function NextState(s: AState, exit: bool): AState
      requires IsValid() && s.EState?
    {
      match op
      // arithmetic, comparison, bitwise, environment, memory, storage and
      // system operators pop their operands and push unknown results
      case ArithOp(_, _, _, _, _, _) | CompOp(_, _, _, _, _, _) | BitwiseOp(_, _, _, _, _, _)
        | EnvOp(_, _, _, _, _, _) | MemOp(_, _, _, _, _, _) | StorageOp(_, _, _, _, _, _)
        | SysOp(_, _, _, _, _, _) =>
        if s.Size() >= op.pops && !exit then s.PopN(op.pops).PushNRandom(op.pushes).Skip(1)
        else Error("Stack underflow")
      case KeccakOp(_, _, _, _, _, _) =>
        if s.Size() >= 2 && !exit then s.PopN(2).Push(Random("")).Skip(1)
        else Error("Stack underflow")
      case JumpOp(_, _, _, _, _, _) =>
        if op.opcode == JUMPDEST then
          if !exit then s.Skip(1) else Error("Cannot execute JUMPDEST/exit true")
        else if op.opcode == JUMP then
          if s.Size() >= 1 && exit then
            match s.Peek(0)
            case Value(v) => s.Pop().Goto(v)
            case Random(_) => Error("Jump to Random() error")
          else Error("Cannot execute JUMP/exit false or stack underflow")
        else if op.opcode == JUMPI then
          if s.Size() >= 2 then
            match s.Peek(0)
            case Value(v) => if exit then s.PopN(2).Goto(v) else s.PopN(2).Skip(1)
            case Random(_) => Error("JumpI to Random() error")
          else Error("Cannot execute JUMPI/stack underflow")
        else Error("RJUMPs not implemented")
      case RunOp(_, _, _, _, _, _) =>
        if !exit then s.Push(Random("")).Skip(1) else Error("RunOp error")
      case StackOp(_, _, _, _, _, _) =>
        if op.opcode == POP && s.Size() >= 1 && !exit then s.Pop().Skip(1)
        else if IsPushCode(op.opcode) && !exit then
          s.Push(Value(GetArgValuePush(arg))).Skip(1 + (op.opcode - PUSH0))
        else if IsDupCode(op.opcode) && s.Size() >= op.opcode - DUP1 + 1 && !exit then
          s.Dup(op.opcode - DUP1 + 1).Skip(1)
        else if IsSwapCode(op.opcode) && s.Size() > op.opcode - SWAP1 + 1 && !exit then
          s.Swap(op.opcode - SWAP1 + 1).Skip(1)
        else Error("Stack Op error")
      case LogOp(_, _, _, _, _, _) =>
        if s.Size() >= op.pops && !exit then s.PopN(op.pops).Skip(1) else Error("LogOp error")
    }

    /** Weakest precondition of a PUSH: a constraint on the pushed slot is
        discharged when it asks for the pushed literal and is unsatisfiable
        otherwise; all other positions move up by one. */
    function WPrePush(c: Cond): (r: Cond)
      requires IsValid() && IsPushCode(op.opcode) && c.StCond? && c.IsValid()
      ensures r.IsValid()
    {
      var ps, vs := c.trackedPos, c.trackedVals;
      match Find(ps, 0)
      case None => c.Shift(-1)
      case Some(i) =>
        // the literal is HexToU256 of the zero-padded argument, as for NextState
        if vs[i] == GetArgValuePush(arg) then
          var filtered := RemoveAt(ps, i);
          if |filtered| == 0 then StTrue
          else
            DistinctRemoveAt(ps, i);
            StCond(ShiftBy(filtered, -1), RemoveAt(vs, i))
        else StFalse
    }

    /** Weakest precondition of DUPn: the top slot and slot n after the DUP are
        both copies of slot n-1 before it. */
    function WPreDup(c: Cond): (r: Cond)
      requires IsDupCode(op.opcode) && c.StCond? && c.IsValid()
      ensures r.IsValid()
    {
      var ps, vs := c.trackedPos, c.trackedVals;
      var n: nat := op.opcode - DUP1 + 1;
      match Find(ps, 0)
      case None => c.Shift(-1)
      case Some(i0) =>
        match Find(ps, n)
        case None =>
          StCond(DupPositions(n, ps), vs)
        case Some(j) =>
          if vs[i0] == vs[j] then
            DistinctRemoveAt(ps, i0);
            StCond(ShiftBy(RemoveAt(ps, i0), -1), RemoveAt(vs, i0))
          else StFalse
    }

    /** Weakest precondition of SWAPn: positions 0 and n are exchanged. */
    function WPreSwap(c: Cond): (r: Cond)
      requires IsSwapCode(op.opcode) && c.StCond? && c.IsValid()
      ensures r.IsValid()
    {
      StCond(SwapPositions(op.opcode - SWAP1 + 1, c.trackedPos), c.trackedVals)
    }

    /** The weakest-precondition transformer exactly as the analyser writes
        it. Arithmetic operators shift every position by one whatever their
        arity, and system operators that return a word shift by their operand
        count (see the Findings of the README). */
    function WPreAsWritten(c: Cond): (r: Cond)
      requires IsValid() && op.WellFormed() && c.StCond? && c.IsValid()
      ensures r.IsValid()
    {
      var ps := c.trackedPos;
      match op
      case ArithOp(_, _, _, _, _, _) =>
        if 0 in ps then StFalse else c.Shift(1)
      case CompOp(_, _, _, _, _, _) | BitwiseOp(_, _, _, _, _, _) =>
        if 0 in ps then StFalse else c.Shift(op.pops - op.pushes)
      case KeccakOp(_, _, _, _, _, _) =>
        if 0 in ps then StFalse else c.Shift(1)
      case EnvOp(_, _, _, _, _, _) =>
        if op.pushes == 1 && op.pops == 0 then
          if 0 in ps then StFalse else c.Shift(-1)
        else if op.pushes == 1 && op.pops == 1 then
          if 0 in ps then StFalse else c
        else c.Shift(op.pops - op.pushes)
      case MemOp(_, _, _, _, _, _) | StorageOp(_, _, _, _, _, _) =>
        if op.pushes == 0 then c.Shift(2)
        else if 0 in ps then StFalse else c
      case JumpOp(_, _, _, _, _, _) =>
        if op.opcode == JUMPDEST then c
        else if JUMP <= op.opcode <= JUMPI then c.Shift(op.opcode - JUMP + 1)
        else StFalse
      case RunOp(_, _, _, _, _, _) =>
        if 0 in ps then StFalse else c.Shift(-1)
      case StackOp(_, _, _, _, _, _) =>
        if IsPushCode(op.opcode) then WPrePush(c)
        else if IsDupCode(op.opcode) then WPreDup(c)
        else if IsSwapCode(op.opcode) then WPreSwap(c)
        else c.Shift(1)
      case LogOp(_, _, _, _, _, _) =>
        c.Shift(op.pops)
      case SysOp(_, _, _, _, _, _) =>
        if op.pushes == 0 then c.Shift(op.pops)
        else if 0 in ps then StFalse else c.Shift(op.pops)
    }

    /** The weakest-precondition transformer used by the rest of the model:
        as written, except that arithmetic operators and word-returning system
        operators shift positions by their net stack effect (pops - pushes). */
    function WPre(c: Cond): (r: Cond)
      requires IsValid() && op.WellFormed() && c.StCond? && c.IsValid()
      ensures r.IsValid()
    {
      match op
      case ArithOp(_, _, _, _, _, _) =>
        if 0 in c.trackedPos then StFalse else c.Shift(op.pops - op.pushes)
      case SysOp(_, _, _, _, _, _) =>
        if op.pushes == 0 then c.Shift(op.pops)
        else if 0 in c.trackedPos then StFalse else c.Shift(op.pops - op.pushes)
      case _ => WPreAsWritten(c)
    }
  }

  /** Popping `pops` slots and pushing `pushes` unknown ones: a condition on
      none of the new slots moves by pops - pushes, and one on a new slot
      cannot hold afterwards. */
  lemma PopPushSat(c: Cond, pre: seq<StackElem>, pops: nat, pushes: nat, r: Cond)
    requires c.StCond? && c.IsValid() && pushes <= 1 && pops <= |pre|
    requires pushes == 0 ==> r == c.Shift(pops)
    requires pushes == 1 && 0 in c.trackedPos ==> r == StFalse
    requires pushes == 1 && 0 !in c.trackedPos ==> r == c.Shift(pops - 1)
    ensures r.Sat(pre) <==> c.Sat(RandomN(pushes) + pre[pops..])
  {
    var post := RandomN(pushes) + pre[pops..];
    if pushes == 0 {
      assert post == pre[pops..];
      ShiftExact(c, pre, post, 0, pops);
    } else if 0 in c.trackedPos {
      var i :| 0 <= i < |c.trackedPos| && c.trackedPos[i] == 0;
      assert post[0] == Random("");
    } else {
      assert post[1..] == pre[pops..];
      ShiftExact(c, pre, post, 1, pops);
    }
  }

  /** The weakest precondition of PUSH is exact for the pushed literal. */
  lemma WPrePushExact(i: Instruction, c: Cond, pre: seq<StackElem>)
    requires i.IsValid() && IsPushCode(i.op.opcode) && c.StCond? && c.IsValid()
    ensures i.WPrePush(c).Sat(pre) <==> c.Sat([Value(GetArgValuePush(i.arg))] + pre)
  {
    var ps, vs := c.trackedPos, c.trackedVals;
    var lit := GetArgValuePush(i.arg);
    match Find(ps, 0)
    case None =>
      var post := [Value(lit)] + pre;
      assert post[1..] == pre;
      ShiftExact(c, pre, post, 1, 0);
    case Some(k) =>
      PushTopTracked(lit, c, pre, k);
      if vs[k] == lit && |RemoveAt(ps, k)| > 0 {
        DistinctRemoveAt(ps, k);
        assert i.WPrePush(c) == StCond(RemoveAt(ps, k), RemoveAt(vs, k)).Shift(-1);
      }
  }

  /** PUSH with slot 0 of the result tracked: the condition holds after the
      PUSH exactly when slot 0 asks for the literal and the rest holds one
      slot higher. */
  lemma PushTopTracked(lit: nat, c: Cond, pre: seq<StackElem>, k: nat)
    requires c.StCond? && c.IsValid()
    requires k < |c.trackedPos| && c.trackedPos[k] == 0
    ensures var ps, vs := c.trackedPos, c.trackedVals;
            c.Sat([Value(lit)] + pre) <==>
            vs[k] == lit && (|RemoveAt(ps, k)| == 0 || StCond(RemoveAt(ps, k), RemoveAt(vs, k)).Shift(-1).Sat(pre))
  {
    var ps, vs := c.trackedPos, c.trackedVals;
    var post := [Value(lit)] + pre;
    assert post[1..] == pre;
    HoldsRemoveAt(ps, vs, k, post);
    if |RemoveAt(ps, k)| > 0 {
      DistinctRemoveAt(ps, k);
      ShiftExact(StCond(RemoveAt(ps, k), RemoveAt(vs, k)), pre, post, 1, 0);
    }
  }

  /** DUPn with slots 0 and n of the result both tracked: the condition
      holds after the DUP exactly when both ask for the same literal and the
      rest, with slot 0 dropped, holds one slot higher. */
  lemma DupBothTracked(n: nat, c: Cond, pre: seq<StackElem>, i0: nat, j: nat)
    requires 1 <= n <= |pre| && c.StCond? && c.IsValid()
    requires i0 < |c.trackedPos| && c.trackedPos[i0] == 0
    requires j < |c.trackedPos| && c.trackedPos[j] == n
    ensures var ps, vs := c.trackedPos, c.trackedVals;
            var post := [pre[n - 1]] + pre;
            c.Sat(post) <==>
            vs[i0] == vs[j] && StCond(RemoveAt(ps, i0), RemoveAt(vs, i0)).Shift(-1).Sat(pre)
  {
    var ps, vs := c.trackedPos, c.trackedVals;
    var post := [pre[n - 1]] + pre;
    assert post[1..] == pre;
    var rp, rv := RemoveAt(ps, i0), RemoveAt(vs, i0);
    HoldsRemoveAt(ps, vs, i0, post);
    DistinctRemoveAt(ps, i0);
    var j' := if j < i0 then j else j - 1;
    assert rp[j'] == n && rv[j'] == vs[j];
    ShiftExact(StCond(rp, rv), pre, post, 1, 0);
    assert post[n] == post[0];
  }

  /** DUPn with slot 0 of the result tracked and slot n not: the copy's
      constraint moves to slot n-1, the others one slot higher. */
  lemma DupTopTracked(n: nat, c: Cond, pre: seq<StackElem>)
    requires 1 <= n <= |pre| && c.StCond? && c.IsValid()
    ensures c.Sat([pre[n - 1]] + pre) <==> Holds(DupPositions(n, c.trackedPos), c.trackedVals, pre)
  {
    var ps, vs := c.trackedPos, c.trackedVals;
    var post := [pre[n - 1]] + pre;
    var mapped := DupPositions(n, ps);
    forall k | 0 <= k < |ps|
      ensures (mapped[k] < |pre| && pre[mapped[k]] == Value(vs[k])) <==>
              (ps[k] < |post| && post[ps[k]] == Value(vs[k]))
    {
      if 0 < ps[k] < |post| {
        assert post[ps[k]] == pre[ps[k] - 1];
      }
    }
  }

  /** The weakest precondition of DUPn is exact. */
  lemma WPreDupExact(i: Instruction, c: Cond, pre: seq<StackElem>)
    requires IsDupCode(i.op.opcode) && c.StCond? && c.IsValid()
    requires i.op.opcode - DUP1 + 1 <= |pre|
    ensures i.WPreDup(c).Sat(pre) <==> c.Sat([pre[i.op.opcode - DUP1]] + pre)
  {
    var ps := c.trackedPos;
    var n: nat := i.op.opcode - DUP1 + 1;
    match Find(ps, 0)
    case None =>
      DupNoneTracked(i, c, pre);
    case Some(i0) =>
      match Find(ps, n)
      case None =>
        assert i.WPreDup(c) == StCond(DupPositions(n, ps), c.trackedVals);
        DupTopTracked(n, c, pre);
      case Some(j) =>
        DupBothTracked(n, c, pre, i0, j);
        DupBothValue(i, c, i0, j);
  }

  /** Without a constraint on the new top, DUPn moves positions down by one. */
  lemma DupNoneTracked(i: Instruction, c: Cond, pre: seq<StackElem>)
    requires IsDupCode(i.op.opcode) && c.StCond? && c.IsValid()
    requires i.op.opcode - DUP1 + 1 <= |pre| && Find(c.trackedPos, 0).None?
    ensures i.WPreDup(c).Sat(pre) <==> c.Sat([pre[i.op.opcode - DUP1]] + pre)
  {
    var post := [pre[i.op.opcode - DUP1]] + pre;
    assert i.WPreDup(c) == c.Shift(-1);
    assert post[1..] == pre;
    ShiftExact(c, pre, post, 1, 0);
  }

  lemma DupBothValue(i: Instruction, c: Cond, i0: nat, j: nat)
    requires IsDupCode(i.op.opcode) && c.StCond? && c.IsValid()
    requires Find(c.trackedPos, 0) == Some(i0)
    requires Find(c.trackedPos, i.op.opcode - DUP1 + 1) == Some(j)
    ensures var ps, vs := c.trackedPos, c.trackedVals;
            i.WPreDup(c) == if vs[i0] == vs[j] then StCond(ShiftBy(RemoveAt(ps, i0), -1), RemoveAt(vs, i0)) else StFalse
  {
    if c.trackedVals[i0] == c.trackedVals[j] {
      DupBothSame(i, c, i0, j);
    } else {
      DupBothDiffer(i, c, i0, j);
    }
  }

  lemma DupBothSame(i: Instruction, c: Cond, i0: nat, j: nat)
    requires IsDupCode(i.op.opcode) && c.StCond? && c.IsValid()
    requires Find(c.trackedPos, 0) == Some(i0)
    requires Find(c.trackedPos, i.op.opcode - DUP1 + 1) == Some(j)
    requires c.trackedVals[i0] == c.trackedVals[j]
    ensures i.WPreDup(c) == StCond(ShiftBy(RemoveAt(c.trackedPos, i0), -1), RemoveAt(c.trackedVals, i0))
  {
  }

  lemma DupBothDiffer(i: Instruction, c: Cond, i0: nat, j: nat)
    requires IsDupCode(i.op.opcode) && c.StCond? && c.IsValid()
    requires Find(c.trackedPos, 0) == Some(i0)
    requires Find(c.trackedPos, i.op.opcode - DUP1 + 1) == Some(j)
    requires c.trackedVals[i0] != c.trackedVals[j]
    ensures i.WPreDup(c) == StFalse
  {
  }

  /** The weakest precondition of SWAPn is exact. */
  lemma WPreSwapExact(i: Instruction, c: Cond, pre: seq<StackElem>)
    requires IsSwapCode(i.op.opcode) && c.StCond? && c.IsValid()
    requires i.op.opcode - SWAP1 + 1 < |pre|
    ensures var n := i.op.opcode - SWAP1 + 1;
            i.WPreSwap(c).Sat(pre) <==> c.Sat(pre[0 := pre[n]][n := pre[0]])
  {
    var n: nat := i.op.opcode - SWAP1 + 1;
    assert i.WPreSwap(c) == StCond(SwapPositions(n, c.trackedPos), c.trackedVals);
    SwapHolds(n, c.trackedPos, c.trackedVals, pre);
  }

  /** Reading the swapped positions before SWAPn is reading the original
      positions after it. */
  lemma SwapHolds(n: nat, ps: seq<nat>, vs: seq<nat>, pre: seq<StackElem>)
    requires 1 <= n < |pre| && |ps| == |vs|
    ensures Holds(SwapPositions(n, ps), vs, pre) <==> Holds(ps, vs, pre[0 := pre[n]][n := pre[0]])
  {
    var post := pre[0 := pre[n]][n := pre[0]];
    var mapped := SwapPositions(n, ps);
    forall k | 0 <= k < |mapped|
      ensures (mapped[k] < |pre| && pre[mapped[k]] == Value(vs[k])) <==>
              (ps[k] < |post| && post[ps[k]] == Value(vs[k]))
    {
    }
  }

  /** Operators that pop their operands and push unknown results. */
  lemma WPreExactPopPush(i: Instruction, c: Cond, s: AState, exit: bool)
    requires i.IsValid() && i.op.WellFormed() && c.StCond? && c.IsValid() && s.EState?
    requires i.op.ArithOp? || i.op.CompOp? || i.op.BitwiseOp? || i.op.SysOp?
    requires i.NextState(s, exit).EState?
    ensures i.WPre(c).Sat(s.stack) <==> c.Sat(i.NextState(s, exit).stack)
  {
    assert i.NextState(s, exit).stack == RandomN(i.op.pushes) + s.stack[i.op.pops..];
    PopPushSat(c, s.stack, i.op.pops, i.op.pushes, i.WPre(c));
  }

  /** Environment, memory and storage operators. */
  lemma WPreExactAccess(i: Instruction, c: Cond, s: AState, exit: bool)
    requires i.IsValid() && i.op.WellFormed() && c.StCond? && c.IsValid() && s.EState?
    requires i.op.EnvOp? || i.op.MemOp? || i.op.StorageOp?
    requires i.NextState(s, exit).EState?
    ensures i.WPre(c).Sat(s.stack) <==> c.Sat(i.NextState(s, exit).stack)
  {
    ShiftZero(c);
    assert i.NextState(s, exit).stack == RandomN(i.op.pushes) + s.stack[i.op.pops..];
    PopPushSat(c, s.stack, i.op.pops, i.op.pushes, i.WPre(c));
  }

  /** KECCAK256 (two operands, one result), the run-time operators (one
      result) and the LOG operators (no result). */
  lemma WPreExactFixed(i: Instruction, c: Cond, s: AState, exit: bool)
    requires i.IsValid() && i.op.WellFormed() && c.StCond? && c.IsValid() && s.EState?
    requires i.op.KeccakOp? || i.op.RunOp? || i.op.LogOp?
    requires i.NextState(s, exit).EState?
    ensures i.WPre(c).Sat(s.stack) <==> c.Sat(i.NextState(s, exit).stack)
  {
    var pre := s.stack;
    assert [Random("")] == RandomN(1);
    if i.op.KeccakOp? {
      PopPushSat(c, pre, 2, 1, i.WPre(c));
    } else if i.op.RunOp? {
      assert pre[0..] == pre;
      PopPushSat(c, pre, 0, 1, i.WPre(c));
    } else {
      assert RandomN(0) + pre[i.op.pops..] == pre[i.op.pops..];
      PopPushSat(c, pre, i.op.pops, 0, i.WPre(c));
    }
  }

  /** JUMPDEST, JUMP and JUMPI. */
  lemma WPreExactJump(i: Instruction, c: Cond, s: AState, exit: bool)
    requires i.IsValid() && i.op.WellFormed() && c.StCond? && c.IsValid() && s.EState?
    requires i.op.JumpOp?
    requires i.NextState(s, exit).EState?
    ensures i.WPre(c).Sat(s.stack) <==> c.Sat(i.NextState(s, exit).stack)
  {
    var pre := s.stack;
    var k: nat := if i.op.opcode == JUMPDEST then 0 else i.op.opcode - JUMP + 1;
    ShiftZero(c);
    assert i.NextState(s, exit).stack == pre[k..];
    assert RandomN(0) + pre[k..] == pre[k..];
    PopPushSat(c, pre, k, 0, i.WPre(c));
  }

  /** POP, PUSH, DUP and SWAP. */
  lemma WPreExactStack(i: Instruction, c: Cond, s: AState, exit: bool)
    requires i.IsValid() && i.op.WellFormed() && c.StCond? && c.IsValid() && s.EState?
    requires i.op.StackOp?
    requires i.NextState(s, exit).EState?
    ensures i.WPre(c).Sat(s.stack) <==> c.Sat(i.NextState(s, exit).stack)
  {
    if IsPushCode(i.op.opcode) {
      WPreExactPush(i, c, s, exit);
    } else if IsDupCode(i.op.opcode) {
      WPreExactDup(i, c, s, exit);
    } else if IsSwapCode(i.op.opcode) {
      WPreExactSwap(i, c, s, exit);
    } else {
      WPreExactPop(i, c, s, exit);
    }
  }

  lemma WPreExactPush(i: Instruction, c: Cond, s: AState, exit: bool)
    requires i.IsValid() && i.op.WellFormed() && c.StCond? && c.IsValid() && s.EState?
    requires i.op.StackOp? && IsPushCode(i.op.opcode)
    requires i.NextState(s, exit).EState?
    ensures i.WPre(c).Sat(s.stack) <==> c.Sat(i.NextState(s, exit).stack)
  {
    WPrePushExact(i, c, s.stack);
  }

  lemma WPreExactDup(i: Instruction, c: Cond, s: AState, exit: bool)
    requires i.IsValid() && i.op.WellFormed() && c.StCond? && c.IsValid() && s.EState?
    requires i.op.StackOp? && !IsPushCode(i.op.opcode) && IsDupCode(i.op.opcode)
    requires i.NextState(s, exit).EState?
    ensures i.WPre(c).Sat(s.stack) <==> c.Sat(i.NextState(s, exit).stack)
  {
    DupStep(i, s, exit);
    assert i.WPre(c) == i.WPreDup(c);
    WPreDupExact(i, c, s.stack);
  }

  lemma WPreExactSwap(i: Instruction, c: Cond, s: AState, exit: bool)
    requires i.IsValid() && i.op.WellFormed() && c.StCond? && c.IsValid() && s.EState?
    requires i.op.StackOp? && !IsPushCode(i.op.opcode) && !IsDupCode(i.op.opcode) && IsSwapCode(i.op.opcode)
    requires i.NextState(s, exit).EState?
    ensures i.WPre(c).Sat(s.stack) <==> c.Sat(i.NextState(s, exit).stack)
  {
    SwapStep(i, s, exit);
    assert i.WPre(c) == i.WPreSwap(c);
    WPreSwapExact(i, c, s.stack);
  }

  lemma WPreExactPop(i: Instruction, c: Cond, s: AState, exit: bool)
    requires i.IsValid() && i.op.WellFormed() && c.StCond? && c.IsValid() && s.EState?
    requires i.op.StackOp? && !IsPushCode(i.op.opcode) && !IsDupCode(i.op.opcode) && !IsSwapCode(i.op.opcode)
    requires i.NextState(s, exit).EState?
    ensures i.WPre(c).Sat(s.stack) <==> c.Sat(i.NextState(s, exit).stack)
  {
    var pre := s.stack;
    assert RandomN(0) + pre[1..] == pre[1..];
    PopPushSat(c, pre, 1, 0, i.WPre(c));
  }

  /** Duality of the two transformers: whenever an instruction runs from `s`
      (on either branch), `s` satisfies the weakest precondition of `c`
      exactly when the successor state satisfies `c`. */
  lemma WPreExact(i: Instruction, c: Cond, s: AState, exit: bool)
    requires i.IsValid() && i.op.WellFormed() && c.StCond? && c.IsValid() && s.EState?
    requires i.NextState(s, exit).EState?
    ensures i.WPre(c).Sat(s.stack) <==> c.Sat(i.NextState(s, exit).stack)
  {
    if i.op.ArithOp? || i.op.CompOp? || i.op.BitwiseOp? || i.op.SysOp? {
      WPreExactPopPush(i, c, s, exit);
    } else if i.op.EnvOp? || i.op.MemOp? || i.op.StorageOp? {
      WPreExactAccess(i, c, s, exit);
    } else if i.op.KeccakOp? || i.op.RunOp? || i.op.LogOp? {
      WPreExactFixed(i, c, s, exit);
    } else if i.op.JumpOp? {
      WPreExactJump(i, c, s, exit);
    } else {
      WPreExactStack(i, c, s, exit);
    }
  }

  /** The opcode classes that pop their operands and push unknown results. */
  predicate PopsAndPushes(op: Opcode)
  {
    op.ArithOp? || op.CompOp? || op.BitwiseOp? || op.EnvOp? || op.MemOp? || op.StorageOp? || op.SysOp?
  }

  /** A PUSHn instruction is valid exactly when its argument is 2n hex
      digits, and every other opcode but INVALID carries no argument. */
  lemma IsValidIff(i: Instruction)
    requires i.op.opcode != INVALID
    ensures IsPushCode(i.op.opcode) ==>
              (i.IsValid() <==> |i.arg| == 2 * (i.op.opcode - PUSH0) && AllHex(i.arg))
    ensures !IsPushCode(i.op.opcode) ==> (i.IsValid() <==> i.arg == "")
  {
  }

  /** The literal of a valid PUSHn fits in n bytes. */
  lemma PushLiteralBound(i: Instruction)
    requires i.IsValid() && IsPushCode(i.op.opcode)
    ensures GetArgValuePush(i.arg) < Pow16(2 * (i.op.opcode - PUSH0))
  {
  }

  /** Only the two jumps can run with `exit` set. */
  lemma ExitOnlyOnJumps(i: Instruction, s: AState)
    requires i.IsValid() && s.EState?
    requires !(i.op.JumpOp? && (i.op.opcode == JUMP || i.op.opcode == JUMPI))
    ensures i.NextState(s, true).Error?
  {
  }

  /** An operator that pops and pushes runs exactly when the stack holds its
      operands; it then replaces them by `pushes` unknown slots and moves to
      the next instruction. */
  lemma PopPushStep(i: Instruction, s: AState)
    requires i.IsValid() && s.EState? && PopsAndPushes(i.op)
    ensures i.NextState(s, false).EState? <==> i.op.pops <= |s.stack|
    ensures var t := i.NextState(s, false);
            t.EState? ==>
              && t.pc == s.pc + 1
              && |t.stack| == |s.stack| + i.op.StackEffect()
              && (forall k :: 0 <= k < i.op.pushes ==> t.stack[k].Random?)
              && t.stack[i.op.pushes..] == s.stack[i.op.pops..]
  {
  }

  /** KECCAK256 always takes two operands and returns one unknown word,
      whatever the arity recorded in its descriptor. */
  lemma KeccakStep(i: Instruction, s: AState)
    requires i.IsValid() && s.EState? && i.op.KeccakOp?
    ensures i.NextState(s, false).EState? <==> 2 <= |s.stack|
    ensures var t := i.NextState(s, false);
            t.EState? ==> t.pc == s.pc + 1 && t.stack == [Random("")] + s.stack[2..]
  {
  }

  /** PUSHn pushes the literal of its argument and skips the n argument
      bytes; the rest of the stack is unchanged. */
  lemma PushStep(i: Instruction, s: AState)
    requires i.IsValid() && s.EState? && i.op.StackOp? && IsPushCode(i.op.opcode)
    ensures var t := i.NextState(s, false);
            && t.EState?
            && t.pc == s.pc + 1 + (i.op.opcode - PUSH0)
            && t.stack == [Value(HexToNat(i.arg))] + s.stack
  {
  }

  /** JUMP runs only on the taken branch with a known target on top, and
      then pops it and goes there. */
  lemma JumpStep(i: Instruction, s: AState, exit: bool)
    requires i.IsValid() && s.EState? && i.op.JumpOp? && i.op.opcode == JUMP
    ensures i.NextState(s, exit).EState? <==> exit && |s.stack| >= 1 && s.stack[0].Value?
    ensures i.NextState(s, exit).EState? ==>
              i.NextState(s, exit) == EState(s.stack[0].v, s.stack[1..])
  {
  }

  /** JUMPI needs a known target on top and a condition below it, whichever
      branch is taken; it pops both and goes to the target or falls through. */
  lemma JumpiStep(i: Instruction, s: AState, exit: bool)
    requires i.IsValid() && s.EState? && i.op.JumpOp? && i.op.opcode == JUMPI
    ensures i.NextState(s, exit).EState? <==> |s.stack| >= 2 && s.stack[0].Value?
    ensures i.NextState(s, exit).EState? ==>
              i.NextState(s, exit) == EState(if exit then s.stack[0].v else s.pc + 1, s.stack[2..])
  {
  }

  /** DUPn runs exactly on the fall-through branch of a stack with at least
      n slots, and copies slot n-1 to the top. */
  lemma DupStep(i: Instruction, s: AState, exit: bool)
    requires i.IsValid() && s.EState? && i.op.StackOp?
    requires !IsPushCode(i.op.opcode) && IsDupCode(i.op.opcode)
    ensures var n := i.op.opcode - DUP1 + 1;
            i.NextState(s, exit).EState? <==> !exit && n <= |s.stack|
    ensures var n := i.op.opcode - DUP1 + 1;
            i.NextState(s, exit).EState? ==>
              i.NextState(s, exit) == EState(s.pc + 1, [s.stack[n - 1]] + s.stack)
  {
  }

  /** SWAPn runs exactly on the fall-through branch of a stack with more
      than n slots, and exchanges slots 0 and n. */
  lemma SwapStep(i: Instruction, s: AState, exit: bool)
    requires i.IsValid() && s.EState? && i.op.StackOp?
    requires !IsPushCode(i.op.opcode) && !IsDupCode(i.op.opcode) && IsSwapCode(i.op.opcode)
    ensures var n := i.op.opcode - SWAP1 + 1;
            i.NextState(s, exit).EState? <==> !exit && n < |s.stack|
    ensures var n := i.op.opcode - SWAP1 + 1;
            i.NextState(s, exit).EState? ==>
              i.NextState(s, exit) == EState(s.pc + 1, s.stack[0 := s.stack[n]][n := s.stack[0]])
  {
  }

  /** On the fall-through branch every instruction but INVALID moves the
      program counter past itself and its argument bytes. */
  lemma FallThroughPc(i: Instruction, s: AState)
    requires i.IsValid() && i.op.WellFormed() && i.op.opcode != INVALID && s.EState?
    requires i.NextState(s, false).EState?
    ensures i.NextState(s, false).pc == s.pc + 1 + |i.arg| / 2
  {
  }

  /** Every step that succeeds changes the stack size by the stack effect
      of its opcode. */
  lemma NextStateStackEffect(i: Instruction, s: AState, exit: bool)
    requires i.IsValid() && i.op.WellFormed() && s.EState?
    requires i.NextState(s, exit).EState?
    ensures |i.NextState(s, exit).stack| == |s.stack| + i.StackEffect()
  {
    if i.op.StackOp? {
      StackOpStackEffect(i, s, exit);
    } else {
      OtherStackEffect(i, s, exit);
    }
  }

  lemma StackOpStackEffect(i: Instruction, s: AState, exit: bool)
    requires i.IsValid() && i.op.WellFormed() && s.EState? && i.op.StackOp?
    requires i.NextState(s, exit).EState?
    ensures |i.NextState(s, exit).stack| == |s.stack| + i.StackEffect()
  {
  }

  lemma OtherStackEffect(i: Instruction, s: AState, exit: bool)
    requires i.IsValid() && i.op.WellFormed() && s.EState? && !i.op.StackOp?
    requires i.NextState(s, exit).EState?
    ensures |i.NextState(s, exit).stack| == |s.stack| + i.StackEffect()
  {
  }

  /** The as-written transformer of an arithmetic, comparison, bitwise or
      KECCAK256 operator is false exactly when the result slot is tracked,
      and otherwise moves every position by a fixed offset and keeps the
      literals. */
  lemma WPreOperatorShape(i: Instruction, c: Cond)
    requires i.IsValid() && i.op.WellFormed() && c.StCond? && c.IsValid()
    requires i.op.ArithOp? || i.op.CompOp? || i.op.BitwiseOp? || i.op.KeccakOp?
    ensures var r := i.WPreAsWritten(c);
            var d := if i.op.ArithOp? || i.op.KeccakOp? then 1 else i.op.pops - i.op.pushes;
            && (r.StFalse? <==> 0 in c.trackedPos)
            && (r.StCond? ==>
                  && r.trackedVals == c.trackedVals
                  && |r.trackedPos| == |c.trackedPos|
                  && forall k :: 0 <= k < |c.trackedPos| ==> r.trackedPos[k] == c.trackedPos[k] + d)
  {
  }

  /** JUMPDEST leaves every condition unchanged. */
  lemma WPreJumpDest(i: Instruction, c: Cond)
    requires i.IsValid() && i.op.WellFormed() && c.StCond? && c.IsValid()
    requires i.op.opcode == JUMPDEST
    ensures i.WPre(c) == c
  {
  }

  /** The backward tracker follows the same position map as the as-written
      transformer: a single-slot condition on `pos` becomes a condition on the
      tracked slot, or is decided by the pushed literal. */
  lemma TrackerAgreesWithWPre(i: Instruction, pos: nat, v: nat)
    requires i.IsValid() && i.op.WellFormed()
    ensures var c := StCond([pos], [v]);
            match i.StackPosBackWardTracker(pos)
            case Right(k) => i.WPreAsWritten(c) == StCond([k], [v])
            case Left(e) => e.Value? ==> i.WPreAsWritten(c) == (if e.v == v then StTrue else StFalse)
  {
    if i.op.StackOp? && IsPushCode(i.op.opcode) {
      TrackerWPrePush(i, pos, v);
    } else if i.op.StackOp? && (IsDupCode(i.op.opcode) || IsSwapCode(i.op.opcode)) {
      TrackerWPreDupSwap(i, pos, v);
    } else if i.op.ArithOp? || i.op.CompOp? {
      TrackerWPreOperator(i, pos, v);
    } else {
      TrackerWPreShift(i, pos, v);
    }
  }

  predicate TrackerMatchesWPre(i: Instruction, pos: nat, v: nat)
    requires i.IsValid() && i.op.WellFormed()
  {
    var c := StCond([pos], [v]);
    match i.StackPosBackWardTracker(pos)
    case Right(k) => i.WPreAsWritten(c) == StCond([k], [v])
    case Left(e) => e.Value? ==> i.WPreAsWritten(c) == (if e.v == v then StTrue else StFalse)
  }

  lemma TrackerWPrePush(i: Instruction, pos: nat, v: nat)
    requires i.IsValid() && i.op.WellFormed() && i.op.StackOp? && IsPushCode(i.op.opcode)
    ensures TrackerMatchesWPre(i, pos, v)
  {
  }

  lemma TrackerWPreDupSwap(i: Instruction, pos: nat, v: nat)
    requires i.IsValid() && i.op.WellFormed() && i.op.StackOp?
    requires !IsPushCode(i.op.opcode) && (IsDupCode(i.op.opcode) || IsSwapCode(i.op.opcode))
    ensures TrackerMatchesWPre(i, pos, v)
  {
  }

  lemma TrackerWPreOperator(i: Instruction, pos: nat, v: nat)
    requires i.IsValid() && i.op.WellFormed() && (i.op.ArithOp? || i.op.CompOp?)
    ensures TrackerMatchesWPre(i, pos, v)
  {
    if pos >= 1 {
      var d: int := if i.op.ArithOp? then 1 else i.op.pops - i.op.pushes;
      var c := StCond([pos], [v]);
      assert i.WPreAsWritten(c) == c.Shift(d);
      assert i.StackPosBackWardTracker(pos) == Right(pos + d);
      assert ShiftBy([pos], d) == [pos + d];
    }
  }

  lemma TrackerWPreShift(i: Instruction, pos: nat, v: nat)
    requires i.IsValid() && i.op.WellFormed() && !i.op.ArithOp? && !i.op.CompOp?
    requires !(i.op.StackOp? && (IsPushCode(i.op.opcode) || IsDupCode(i.op.opcode) || IsSwapCode(i.op.opcode)))
    ensures TrackerMatchesWPre(i, pos, v)
  {
    match i.StackPosBackWardTracker(pos)
    case Right(k) =>
      assert ShiftBy([pos], k - pos) == [k];
    case Left(e) =>
  }

  /** The slot `pos` after running `i` from `s` is what the backward tracker
      says: the tracked slot before it, or the literal it names. */
  predicate TrackerAgrees(i: Instruction, pos: nat, s: AState, exit: bool)
    requires i.IsValid() && i.op.WellFormed() && s.EState?
    requires i.NextState(s, exit).EState?
  {
    var t := i.NextState(s, exit).stack;
    match i.StackPosBackWardTracker(pos)
    case Right(k) => (pos < |t| <==> k < |s.stack|) && (pos < |t| ==> t[pos] == s.stack[k])
    case Left(e) => e.Value? ==> pos < |t| && t[pos] == e
  }

  /** Soundness of the backward tracker: when the instruction runs, the slot
      `pos` after it is the tracked slot before it, or the pushed literal.
      Arithmetic operators are tracked as binary ones. */
  lemma TrackerSound(i: Instruction, pos: nat, s: AState, exit: bool)
    requires i.IsValid() && i.op.WellFormed() && s.EState?
    requires i.NextState(s, exit).EState?
    requires i.op.ArithOp? ==> i.op.pops == 2
    ensures var t := i.NextState(s, exit).stack;
            match i.StackPosBackWardTracker(pos)
            case Right(k) => (pos < |t| <==> k < |s.stack|) && (pos < |t| ==> t[pos] == s.stack[k])
            case Left(e) => e.Value? ==> pos < |t| && t[pos] == e
  {
    if i.op.ArithOp? || i.op.CompOp? {
      TrackerSoundOperator(i, pos, s, exit);
    } else if i.op.JumpOp? {
      TrackerSoundJump(i, pos, s, exit);
    } else if i.op.StackOp? {
      TrackerSoundStack(i, pos, s, exit);
    } else {
      assert i.StackPosBackWardTracker(pos).Left? && i.StackPosBackWardTracker(pos).l.Random?;
    }
    assert TrackerAgrees(i, pos, s, exit);
  }

  lemma TrackerSoundOperator(i: Instruction, pos: nat, s: AState, exit: bool)
    requires i.IsValid() && i.op.WellFormed() && s.EState?
    requires i.NextState(s, exit).EState?
    requires i.op.ArithOp? || i.op.CompOp?
    requires i.op.ArithOp? ==> i.op.pops == 2
    ensures TrackerAgrees(i, pos, s, exit)
  {
  }

  lemma TrackerSoundJump(i: Instruction, pos: nat, s: AState, exit: bool)
    requires i.IsValid() && i.op.WellFormed() && s.EState?
    requires i.NextState(s, exit).EState?
    requires i.op.JumpOp?
    ensures TrackerAgrees(i, pos, s, exit)
  {
  }

  lemma TrackerSoundStack(i: Instruction, pos: nat, s: AState, exit: bool)
    requires i.IsValid() && i.op.WellFormed() && s.EState?
    requires i.NextState(s, exit).EState?
    requires i.op.StackOp?
    ensures TrackerAgrees(i, pos, s, exit)
  {
  }

  /** Runs a one-result popping instruction `i` on `s` and evaluates both
      transformers of "slot 1 holds v": the as-written one looks at slot 2
      (arithmetic) or slot 1 + pops (system), the corrected one at slot pops,
      where the successor's slot 1 comes from. */
  lemma PopPushOne(i: Instruction, v: nat, s: AState)
    requires i.IsValid() && i.op.WellFormed() && s.EState?
    requires i.op.ArithOp? || i.op.SysOp?
    requires i.op.pushes == 1 && i.op.pops <= |s.stack|
    ensures i.NextState(s, false) == EState(s.pc + 1, [Random("")] + s.stack[i.op.pops..])
    ensures i.WPreAsWritten(StCond([1], [v]))
              == StCond([if i.op.ArithOp? then 2 else 1 + i.op.pops], [v])
    ensures i.WPre(StCond([1], [v])) == StCond([i.op.pops], [v])
  {
    assert RandomN(1) == [Random("")];
    var dw := if i.op.ArithOp? then 1 else i.op.pops;
    assert ShiftBy([1], dw) == [1 + dw];
    assert ShiftBy([1], i.op.pops - 1) == [i.op.pops];
  }

  /** An arithmetic operator with other than two operands (ADDMOD and MULMOD
      take three): the as-written transformer of "slot 1 holds v" checks
      slot 2, but the successor's slot 1 is the old slot `pops`. A state with
      v in slot 2 and something else in slot `pops` is accepted although its
      successor violates the condition; the corrected transformer rejects
      it. */
  lemma ArithAsWrittenUnsound(i: Instruction, v: nat, s: AState)
    requires i.IsValid() && i.op.WellFormed() && i.op.ArithOp? && i.op.pops != 2
    requires s.EState? && 3 <= |s.stack| && i.op.pops < |s.stack|
    requires s.stack[2] == Value(v) && s.stack[i.op.pops] != Value(v)
    ensures i.NextState(s, false).EState?
    ensures i.WPreAsWritten(StCond([1], [v])).Sat(s.stack)
    ensures !StCond([1], [v]).Sat(i.NextState(s, false).stack)
    ensures !i.WPre(StCond([1], [v])).Sat(s.stack)
  {
    var post := [Random("")] + s.stack[i.op.pops..];
    PopPushOne(i, v, s);
    SatOne(2, v, s.stack);
    SatOne(1, v, post);
    SatOne(i.op.pops, v, s.stack);
  }

  /** A system operator that returns a word (CREATE, CALL, ...): the
      as-written transformer of "slot 1 holds v" checks slot 1 + pops, but
      the successor's slot 1 is the old slot `pops`. */
  lemma SysAsWrittenUnsound(i: Instruction, v: nat, s: AState)
    requires i.IsValid() && i.op.WellFormed() && i.op.SysOp? && i.op.pushes == 1
    requires s.EState? && i.op.pops + 1 < |s.stack|
    requires s.stack[i.op.pops + 1] == Value(v) && s.stack[i.op.pops] != Value(v)
    ensures i.NextState(s, false).EState?
    ensures i.WPreAsWritten(StCond([1], [v])).Sat(s.stack)
    ensures !StCond([1], [v]).Sat(i.NextState(s, false).stack)
    ensures !i.WPre(StCond([1], [v])).Sat(s.stack)
  {
    var post := [Random("")] + s.stack[i.op.pops..];
    PopPushOne(i, v, s);
    SatOne(i.op.pops + 1, v, s.stack);
    SatOne(1, v, post);
    SatOne(i.op.pops, v, s.stack);
  }

  /** ADDMOD (three operands, one result) falls under the arithmetic case
      and CREATE (three operands, one result) under the system case; with
      slot 2, resp. 4, holding 5 and slot 3 holding 9 the states below are
      witnesses. */
  lemma FindingWitnesses(addmod: Instruction, create: Instruction, s1: AState, s2: AState)
    requires addmod == Instruction(ArithOp("ADDMOD", ADDMOD, 0, 3, 1, 3), "", 0)
    requires create == Instruction(SysOp("CREATE", CREATE, 0, 3, 1, 3), "", 0)
    requires s1 == EState(0, [Value(1), Value(2), Value(5), Value(9)])
    requires s2 == EState(0, [Value(1), Value(2), Value(3), Value(9), Value(5)])
    ensures addmod.IsValid() && addmod.op.WellFormed() && addmod.op.ArithOp? && addmod.op.pops == 3
    ensures s1.stack[2] == Value(5) && s1.stack[addmod.op.pops] != Value(5)
    ensures create.IsValid() && create.op.WellFormed() && create.op.SysOp? && create.op.pushes == 1
    ensures s2.stack[create.op.pops + 1] == Value(5) && s2.stack[create.op.pops] != Value(5)
  {
  }

  /** The two transformers agree on every opcode but the corrected ones; on
      those they differ for every condition that does not track slot 0 (one
      that does is StFalse under both). */
  lemma WPreAgreement(i: Instruction, c: Cond)
    requires i.IsValid() && i.op.WellFormed() && c.StCond? && c.IsValid()
    ensures !i.WPreCorrected() ==> i.WPre(c) == i.WPreAsWritten(c)
    ensures i.WPreCorrected() && 0 !in c.trackedPos ==> i.WPre(c) != i.WPreAsWritten(c)
  {
    if i.WPreCorrected() && 0 !in c.trackedPos {
      var ps := c.trackedPos;
      var dw: int := if i.op.ArithOp? then 1 else i.op.pops;
      assert i.WPreAsWritten(c).trackedPos[0] == ps[0] + dw;
      assert i.WPre(c).trackedPos[0] == ps[0] + i.op.pops - 1;
    }
  }

  /** The corrected tracker follows the same position map as the corrected
      transformer on single-slot conditions. */
  lemma TrackerCorrectedAgreesWithWPre(i: Instruction, pos: nat, v: nat)
    requires i.IsValid() && i.op.WellFormed()
    ensures var c := StCond([pos], [v]);
            match i.StackPosTracker(pos)
            case Right(k) => i.WPre(c) == StCond([k], [v])
            case Left(e) => e.Value? ==> i.WPre(c) == (if e.v == v then StTrue else StFalse)
  {
    var c := StCond([pos], [v]);
    if i.op.ArithOp? {
      if pos >= 1 {
        assert ShiftBy([pos], i.op.pops - i.op.pushes) == [pos + i.op.pops - i.op.pushes];
      }
    } else if !i.WPreCorrected() {
      WPreAgreement(i, c);
      TrackerAgreesWithWPre(i, pos, v);
    }
  }

  /** Soundness of the corrected tracker for every operator arity: when the
      instruction runs, the slot `pos` after it is the tracked slot before
      it, or the pushed literal. */
  lemma TrackerCorrectedSound(i: Instruction, pos: nat, s: AState, exit: bool)
    requires i.IsValid() && i.op.WellFormed() && s.EState?
    requires i.NextState(s, exit).EState?
    ensures var t := i.NextState(s, exit).stack;
            match i.StackPosTracker(pos)
            case Right(k) => (pos < |t| <==> k < |s.stack|) && (pos < |t| ==> t[pos] == s.stack[k])
            case Left(e) => e.Value? ==> pos < |t| && t[pos] == e
  {
    if i.op.ArithOp? {
      assert RandomN(1) == [Random("")];
      assert i.NextState(s, exit).stack == [Random("")] + s.stack[i.op.pops..];
    } else {
      TrackerSound(i, pos, s, exit);
    }
  }

  /** The as-written tracker is wrong for an arithmetic operator that does
      not take two operands: it traces slot 1 after the step to slot 2,
      which the successor's slot 1 need not equal; the corrected tracker
      traces it to slot `pops`, where it comes from. */
  lemma TrackerAsWrittenUnsound(i: Instruction, s: AState)
    requires i.IsValid() && i.op.WellFormed() && i.op.ArithOp? && i.op.pops != 2
    requires s.EState? && 3 <= |s.stack| && i.op.pops < |s.stack|
    requires s.stack[2] != s.stack[i.op.pops]
    ensures i.NextState(s, false).EState?
    ensures i.StackPosBackWardTracker(1) == Right(2)
    ensures i.NextState(s, false).stack[1] != s.stack[2]
    ensures i.StackPosTracker(1) == Right(i.op.pops)
    ensures i.NextState(s, false).stack[1] == s.stack[i.op.pops]
  {
    assert RandomN(1) == [Random("")];
  }
}
