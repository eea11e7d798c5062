/** Sequences of side-effecting calls where a failing call may end the
    process (`exit(1)`): the shape of every setup routine in the daemon. */
module Steps {

  /** One call: its effect, and whether its failure is fatal (a call whose
      result the source ignores is not). */
  datatype Step<E> = Step(effect: E, fatal: bool)

  /** The calls actually made, in order, and whether the process exited. */
  datatype Outcome<E> = Outcome(performed: seq<E>, exited: bool)

  /** A fatal step whose call failed under `ok`. */
  predicate FailsFatally<E>(s: Step<E>, ok: E -> bool) {
    s.fatal && !ok(s.effect)
  }

  /** Makes the calls of `plan` in order, `ok` telling which succeed; the
      first fatal failure is the last call made. */
  function Perform<E>(plan: seq<Step<E>>, ok: E -> bool): (o: Outcome<E>)
    ensures |o.performed| <= |plan|
    ensures forall i | 0 <= i < |o.performed| :: o.performed[i] == plan[i].effect
    ensures o.exited <==> exists i | 0 <= i < |plan| :: FailsFatally(plan[i], ok)
    ensures !o.exited ==> |o.performed| == |plan|
    ensures o.exited ==>
              && |o.performed| > 0
              && FailsFatally(plan[|o.performed| - 1], ok)
              && forall i | 0 <= i < |o.performed| - 1 :: !FailsFatally(plan[i], ok)
  {
    if |plan| == 0 then Outcome([], false)
    else if FailsFatally(plan[0], ok) then Outcome([plan[0].effect], true)
    else
      var rest := Perform(plan[1..], ok);
      assert forall i | 1 <= i < |plan| :: plan[i] == plan[1..][i - 1];
      Outcome([plan[0].effect] + rest.performed, rest.exited)
  }
}
