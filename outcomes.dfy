/** Outcomes shared by the whole model: optional values, and how reading the
    operator's input lines can end. */
module Outcomes {

  datatype Option<T> = None | Some(value: T)

  /** Why a run stops abnormally. `input()` past the last line raises EOFError,
      and unpacking the pieces of a `+=` split that has more than two pieces
      raises ValueError; the shell catches neither. */
  datatype Crash = EndOfInput | UnpackError(line: string)

  /** Reading that starts at some line either yields a value and the index of
      the first line it did not consume, or crashes. */
  datatype Read<T> = Ok(value: T, next: nat) | Crashed(crash: Crash)
}
