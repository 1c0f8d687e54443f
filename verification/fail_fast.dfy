/** Applying a fallible step to every element of a sequence, in order,
    stopping at the first failure. This is the loop shape shared by the
    column projection of one line, the per-line loop of the file loader and
    the integer parsing of a list of strings. */
module FailFast {
  import opened Wrappers

  /** Apply `f` to each element of `xs` in order. The first failure ends the
      whole computation; no partial result is ever returned with it. */
  function MapAll<A, B, E>(f: A -> Result<B, E>, xs: seq<A>): (r: Result<seq<B>, E>)
    ensures r.Success? <==> forall i :: 0 <= i < |xs| ==> f(xs[i]).Success?
    ensures r.Success? ==>
              && |r.value| == |xs|
              && forall i :: 0 <= i < |xs| ==> f(xs[i]) == Success(r.value[i])
    ensures r.Failure? ==>
              exists j :: && 0 <= j < |xs|
                          && f(xs[j]) == Failure(r.error)
                          && forall i :: 0 <= i < j ==> f(xs[i]).Success?
  {
    if |xs| == 0 then
      Success([])
    else
      match f(xs[0])
      case Failure(e) => Failure(e)
      case Success(y) =>
        assert forall i :: 0 <= i < |xs| - 1 ==> xs[1..][i] == xs[i + 1];
        match MapAll(f, xs[1..])
        case Failure(e) => Failure(e)
        case Success(ys) => Success([y] + ys)
  }

  /** Running the loop over `a + b` is running it over `a`, then over `b`:
      a failure in `a` wins, and `b` is only looked at when `a` succeeds. */
  lemma {:induction false} MapAllAppend<A, B, E>(f: A -> Result<B, E>, a: seq<A>, b: seq<A>)
    ensures MapAll(f, a + b) ==
            match MapAll(f, a)
            case Failure(e) => Failure(e)
            case Success(ra) =>
              match MapAll(f, b)
              case Failure(e) => Failure(e)
              case Success(rb) => Success(ra + rb)
  {
    if |a| == 0 {
      assert a + b == b;
      match MapAll(f, b)
      case Failure(e) =>
      case Success(rb) => assert [] + rb == rb;
    } else {
      assert (a + b)[0] == a[0];
      assert (a + b)[1..] == a[1..] + b;
      MapAllAppend(f, a[1..], b);
      match f(a[0])
      case Failure(e) =>
      case Success(y) =>
        match MapAll(f, a[1..])
        case Failure(e) =>
        case Success(ra1) =>
          match MapAll(f, b)
          case Failure(e) =>
          case Success(rb) =>
            assert [y] + (ra1 + rb) == ([y] + ra1) + rb;
    }
  }
}
