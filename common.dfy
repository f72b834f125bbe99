/** Small shared vocabulary: an optional value (for Java's null) and the
    integer helpers the elevator code uses (Math.abs and the unit vector). */
module Common {

  /** A reference that may be null. */
  datatype Option<+T> = None | Some(value: T)

  /** Math.abs on unbounded integers. */
  function Abs(x: int): (r: nat)
    ensures r == x || r == -x
  {
    if x < 0 then -x else x
  }

  /** The sign of `delta`: 1, -1 or 0. */
  function Sign(delta: int): int {
    if delta > 0 then 1 else if delta < 0 then -1 else 0
  }

  /** The unit vector `delta == 0 ? 0 : delta / Math.abs(delta)` that both the
      car and the dispatcher compute: it is the sign of `delta`. */
  function UnitVector(delta: int): (r: int)
    ensures r == Sign(delta)
  {
    if delta == 0 then 0
    else
      assert delta < 0 ==> delta == Abs(delta) * -1;
      delta / Abs(delta)
  }
}
