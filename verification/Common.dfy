/** Small datatypes shared by the modules of this project. */
module Common {
  datatype Option<+T> = None | Some(value: T)

  function MaxReal(x: real, y: real): (r: real)
    ensures x <= r && y <= r && (r == x || r == y)
  {
    if x >= y then x else y
  }

  function MinReal(x: real, y: real): (r: real)
    ensures r <= x && r <= y && (r == x || r == y)
  {
    if x <= y then x else y
  }

  function MaxInt(x: int, y: int): (r: int)
    ensures x <= r && y <= r && (r == x || r == y)
  {
    if x >= y then x else y
  }

  function Sum(xs: seq<real>): real {
    if xs == [] then 0.0 else Sum(xs[..|xs| - 1]) + xs[|xs| - 1]
  }

  function Largest(xs: seq<real>): real {
    if xs == [] then 0.0 else MaxReal(Largest(xs[..|xs| - 1]), xs[|xs| - 1])
  }

  function Least(xs: seq<real>): real
    requires xs != []
  {
    var n := |xs| - 1;
    if n == 0 then xs[0] else MinReal(Least(xs[..n]), xs[n])
  }

  function Greatest(xs: seq<real>): real
    requires xs != []
  {
    var n := |xs| - 1;
    if n == 0 then xs[0] else MaxReal(Greatest(xs[..n]), xs[n])
  }

  /** `Greatest` is the maximum. */
  lemma {:induction false} GreatestIsMaximum(xs: seq<real>)
    requires xs != []
    ensures Greatest(xs) in xs && forall i :: 0 <= i < |xs| ==> xs[i] <= Greatest(xs)
  {
    var n := |xs| - 1;
    if n > 0 {
      GreatestIsMaximum(xs[..n]);
    }
  }

  /** `Least` is the minimum. */
  lemma {:induction false} LeastIsMinimum(xs: seq<real>)
    requires xs != []
    ensures Least(xs) in xs && forall i :: 0 <= i < |xs| ==> Least(xs) <= xs[i]
  {
    var n := |xs| - 1;
    if n > 0 {
      LeastIsMinimum(xs[..n]);
    }
  }

  /** `Largest` is the maximum, or 0 if that is larger. */
  lemma {:induction false} LargestIsMaximum(xs: seq<real>)
    ensures (Largest(xs) == 0.0 || Largest(xs) in xs) && 0.0 <= Largest(xs)
    ensures forall i :: 0 <= i < |xs| ==> xs[i] <= Largest(xs)
  {
    if xs != [] {
      LargestIsMaximum(xs[..|xs| - 1]);
    }
  }

  /** How many of the first `n` numbers satisfy `p`. */
  ghost function Count(p: nat -> bool, n: nat): nat {
    if n == 0 then 0 else Count(p, n - 1) + if p(n - 1) then 1 else 0
  }
}
