/**
 * The one entity of the system, the partial-update body that clients send for it,
 * and the fault model used for every store statement.
 */
module Tasks {
  import opened Wrappers

  /**
   * A row of the `tasks` table as the server returns it. `completed` stands for the
   * BOOLEAN (TINYINT 0/1) column; `createdAt` and `updatedAt` are readings of the
   * store's logical clock.
   */
  datatype Task = Task(id: int, title: string, completed: bool, createdAt: nat, updatedAt: nat)

  /** A PUT body: each field is either absent (`None`) or carries the value to store. */
  datatype Patch = Patch(title: Option<string>, completed: Option<bool>)

  /**
   * Whether, and where, the store fails during one operation: `FailsAt(n, m)` makes
   * the n-th statement (counting from 0) that the operation issues raise an error
   * whose message is `m`. Connection loss, timeouts and engine errors all look alike.
   */
  datatype Outage = Healthy | FailsAt(step: nat, message: string)

  /** The error, if any, that the `step`-th statement of an operation raises. */
  function FaultAt(outage: Outage, step: nat): (f: Option<string>)
    ensures f.Some? <==> outage.FailsAt? && outage.step == step
    ensures f.Some? ==> f.value == outage.message
  {
    match outage
    case Healthy => None
    case FailsAt(n, m) => if n == step then Some(m) else None
  }

  /** The outage hits the statement numbered `step`. */
  predicate FailsAtStep(outage: Outage, step: nat)
  {
    outage.FailsAt? && outage.step == step
  }
}
