/** The closed vocabularies and small carrier types shared by every module. */
module Models {

  datatype Option<+T> = None | Some(value: T)

  datatype Result<+T, +E> = Ok(value: T) | Err(error: E)

  /** Immediate receipt states, V1 and V2. */
  datatype ReceiptState =
    | Queued | Held | Refused | Unreachable | Expired
    | Invalid | RateLimited | OverCapacity | Incompatible | Ambiguous

  /** The receiver's inbound policy. */
  datatype Policy = Accept | Hold | Refuse

  /** Envelope kinds. */
  datatype Kind = Ping | Pong | Message | Receipt | Discover | Alive

  // ---------------------------------------------------------------------------
  // Policy decisions and host answers
  // ---------------------------------------------------------------------------

  datatype Drop = DropExpired | DropInvalid | DropRateLimited | DropOverCapacity

  /** What the policy engine decides for a claimed message. */
  datatype Decision = DropIt(reason: Drop) | RefuseIt | HoldIt | Forward

  /** What the host does with one delivery: unreachable before the injection, or its answer to it. */
  datatype Host = NoTarget | Rejects | Accepts

  function StateOf(d: Drop): ReceiptState {
    match d
    case DropExpired => Expired
    case DropInvalid => Invalid
    case DropRateLimited => RateLimited
    case DropOverCapacity => OverCapacity
  }
}
