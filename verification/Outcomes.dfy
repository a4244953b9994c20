/** The client's error values and the result type its decoding operations return. */
module Outcomes {
  import opened Parsing

  datatype Option<+T> = None | Some(value: T)

  /** What a QUIC application close carries. */
  datatype Close = Close(code: nat, reason: string, remote: bool)

  datatype Error =
    | BadFrame                        // ErrBadFrame
    | BadPreamble                     // ErrBadPreamble
    | EndOfFeed                       // io.EOF
    | Terminal(close: Close)          // *TerminalError
    | ClosedInFrame(close: Close)     // ErrBadFrame joined with a *TerminalError
    | ClosedInPreamble(close: Close)  // ErrBadPreamble joined with a *TerminalError
    | FrameTooLarge(length: nat)
    | ReadFailed                      // any other transport error, wrapped
    | ContextEnded                    // ctx.Err()

  datatype Result<+T> = Ok(value: T) | Err(error: Error) {
    predicate IsFailure() {
      Err?
    }
    function PropagateFailure<U>(): Result<U>
      requires Err?
    {
      Err(error)
    }
    function Extract(): T
      requires Ok?
    {
      value
    }
  }

  /** Every parser failure surfaces as the same error. */
  function ToResult<T>(p: Parse<T>): Result<T> {
    if p.Done? then Ok(p.value) else Err(BadFrame)
  }
}
