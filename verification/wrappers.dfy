/** Option and Result, and the exceptions the cache layer raises. */
module Wrappers {

  datatype Option<+T> = None | Some(value: T) {
    function GetOr(default: T): T {
      match this
      case Some(v) => v
      case None => default
    }
  }

  datatype Result<+R, +E> = Success(value: R) | Failure(error: E)

  /** The kinds of LockException; HighConcurrency and AcquireTimeout carry the codes 1 and 2. */
  datatype LockKind = HighConcurrency | AcquireTimeout | DurabilityTimedOut | InvalidDuration | Deadlock

  /** The exceptions of the library, by class. */
  datatype Error =
    | LockError(kind: LockKind)            // LockException
    | ClientError(message: string)         // RedisClientException
    | TransactionAborted                   // TransactionException
    | InvalidState(message: string)        // Nette\InvalidStateException
    | InvalidArgument(message: string)     // InvalidArgumentException
    | SessionError(id: string, cause: LockKind)  // SessionHandlerException wrapping a LockException
    | ConnectionAlreadyInPool              // ConnectionAlreadyInPoolException

  /** The exceptions that are a RedisClientException: its own, TransactionException and LockException. */
  predicate IsClientError(e: Error) {
    e.ClientError? || e.TransactionAborted? || e.LockError?
  }

  /** Exception code of a LockException (`PROCESS_TIMEOUT`, `ACQUIRE_TIMEOUT`, otherwise 0). */
  function LockCode(kind: LockKind): (code: nat)
    ensures code != 0 <==> kind == HighConcurrency || kind == AcquireTimeout
    ensures kind == AcquireTimeout ==> code == 2
  {
    match kind
    case HighConcurrency => 1
    case AcquireTimeout => 2
    case _ => 0
  }
}
