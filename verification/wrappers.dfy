/** Small failure-and-reply datatypes shared by every page of the console. */
module Wrappers {

  /** An optional value; used for optional record fields and back-references. */
  datatype Option<+T> = None | Some(value: T) {

    /** The held value, or `default` when there is none (JavaScript's `??`). */
    function GetOr(default: T): T {
      match this
      case Some(v) => v
      case None => default
    }
  }

  /** What a handler reports to the user after it ran.  `Silent` is a handler
      that returned early without a notification (its modal had no target),
      `Succeeded` a success notification, `Rejected` a validation error whose
      message is shown and which leaves every collection untouched. */
  datatype Outcome = Silent | Succeeded | Rejected(message: string)

  /** The state a handler leaves behind, together with its notification. */
  datatype Reply<T> = Reply(state: T, outcome: Outcome)
}
