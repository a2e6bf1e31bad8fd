/** Definitions that several modules share. */
module Common {

  datatype Option<T> = None | Some(value: T)

  predicate Distinct<T(==)>(items: seq<T>) { forall i, j :: 0 <= i < j < |items| ==> items[i] != items[j] }

  function Magnitude(x: int): nat { if x < 0 then -x else x }

  function Quotient(x: nat, y: nat): nat
    requires y != 0
  {
    x / y
  }

  /**
   * Division toward zero, as on the source's integers; Dafny's own rounds toward minus infinity for a
   * positive divisor.
   */
  function Truncated(a: int, b: int): int
    requires b != 0
  {
    var q: int := Quotient(Magnitude(a), Magnitude(b));
    if (a < 0) == (b < 0) then q else -q
  }
}
