/** Generic types shared by the analyser: optional values, two-way sums,
    fallible results, and two sequence helpers (element-wise map, first
    index of a value). */
module MiscTypes {

  datatype Option<T> = None | Some(v: T)

  datatype Either<L, R> = Left(l: L) | Right(r: R)

  /** A fallible result. Only the tag matters to callers; the message is
      informative. */
  datatype Try<T> = Success(v: T) | Failure(msg: string)

  /** Applies `f` to every element of `xs`, keeping the order. */
  function Map<T, U>(xs: seq<T>, f: T -> U): (r: seq<U>)
    ensures |r| == |xs|
    ensures forall i :: 0 <= i < |xs| ==> r[i] == f(xs[i])
  {
    if |xs| == 0 then [] else [f(xs[0])] + Map(xs[1..], f)
  }

  /** The index of the first occurrence of `x` in `xs`, if any. */
  function Find<T(==)>(xs: seq<T>, x: T): (r: Option<nat>)
    ensures r.None? <==> x !in xs
    ensures r.Some? ==> r.v < |xs| && xs[r.v] == x && x !in xs[..r.v]
  {
    if |xs| == 0 then None
    else if xs[0] == x then Some(0)
    else match Find(xs[1..], x)
      case None => None
      case Some(i) =>
        assert xs[..i + 1] == [xs[0]] + xs[1..][..i];
        Some(i + 1)
  }
}
