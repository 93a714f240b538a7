/** What the operator's reconcilers share: how one remote call can end, and a status condition. */
module Kubernetes {

  /** What the caller sees. `Crashed` means the operator process died at this call, so nothing runs after it. */
  datatype Reply = Ok | NotFound | Failed | Crashed

  /**
   * One remote call as a fault oracle decides it. The reply and the effect are separate facts: an error can come
   * back after the server has done the work, and the process can die on either side of it.
   */
  datatype Call = Call(effect: bool, reply: Reply)

  /** A server that reports success has done what it was asked. */
  predicate Truthful(c: Call) {
    c.reply == Ok ==> c.effect
  }

  const FINE := Call(true, Ok)

  datatype Reason =
    | Created | Synced | Adopted | Dispatched
    | KeyMissing | RegistryMissing | RegistryNotReady
    | APIError | LookupError | SecretReadError | SecretWriteError | RotateError | DeleteError

  /** The fields of a status condition that the reconcilers read back. */
  datatype Condition = Condition(status: bool, reason: Reason, observedGeneration: nat)
}
