/** The abstract machine state: a program counter and an abstract stack
    (index 0 is the top), or an error. The stack primitives are defined on
    the non-error state only. */
module State {

  import opened StackElement

  /** `n` unknown slots. */
  function RandomN(n: nat): (r: seq<StackElem>)
    ensures |r| == n
    ensures forall i :: 0 <= i < n ==> r[i] == Random("")
  {
    if n == 0 then [] else [Random("")] + RandomN(n - 1)
  }

  datatype AState = EState(pc: nat, stack: seq<StackElem>) | Error(msg: string)
  {
    function Size(): nat
      requires EState?
    {
      |stack|
    }

    function Peek(k: nat): StackElem
      requires EState? && k < Size()
    {
      stack[k]
    }

    function Pop(): AState
      requires EState? && Size() >= 1
    {
      EState(pc, stack[1..])
    }

    function PopN(n: nat): AState
      requires EState? && Size() >= n
    {
      EState(pc, stack[n..])
    }

    function Push(e: StackElem): AState
      requires EState?
    {
      EState(pc, [e] + stack)
    }

    function PushNRandom(n: nat): AState
      requires EState?
    {
      EState(pc, RandomN(n) + stack)
    }

    function Skip(n: nat): AState
      requires EState?
    {
      EState(pc + n, stack)
    }

    function Goto(k: nat): AState
      requires EState?
    {
      EState(k, stack)
    }

    /** Copies slot n-1 to the top. */
    function Dup(n: nat): AState
      requires EState? && 1 <= n <= Size()
    {
      Push(stack[n - 1])
    }

    /** Exchanges slots 0 and n. */
    function Swap(n: nat): AState
      requires EState? && 1 <= n < Size()
    {
      EState(pc, stack[0 := stack[n]][n := stack[0]])
    }
  }
}
