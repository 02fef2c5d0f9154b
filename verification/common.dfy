/** Failure values shared by the tokenizer and the command parser: the
    exceptions the Python code raises become `Err` results. */
module Outcomes {

  /** A Python value that may be `None`. */
  datatype Option<T> = None | Some(value: T)

  /** The exceptions raised by the modelled code. */
  datatype Error =
    | VocabNotInitialized   // `merge_n_best` with `vocab is None` (ValueError)
    | Untrained             // `tokenize` before `train` (ValueError)
    | EmptyMax              // `max()` of an empty batch in `_padding` (ValueError)
    | EmptyCommand          // `input_command[0]` of an empty token list (IndexError)

  /** The result of a call that either returns a value or raises. */
  datatype Result<T> = Ok(value: T) | Err(error: Error)
}
