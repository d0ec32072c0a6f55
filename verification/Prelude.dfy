/** Result types and small helpers shared by the modules of the model. */
module Prelude {
  datatype Option<+T> = None | Some(value: T)

  datatype Result<+T, +E> = Ok(value: T) | Err(error: E)

  function Min(x: int, y: int): int {
    if x <= y then x else y
  }

  lemma SplitLast<T>(xs: seq<T>)
    requires xs != []
    ensures xs == xs[..|xs| - 1] + [xs[|xs| - 1]]
  {
  }

  lemma {:induction false} UnusedNumber(used: set<nat>) returns (n: nat)
    ensures forall x | x in used :: x < n
    decreases |used|
  {
    n := 0;
    if used != {} {
      var x :| x in used;
      n := UnusedNumber(used - {x});
      if n <= x {
        n := x + 1;
      }
      forall y | y in used
        ensures y < n
      {
        assert y == x || y in used - {x};
      }
    }
  }
}
