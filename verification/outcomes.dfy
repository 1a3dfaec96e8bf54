/** Optional values and success/failure results.

    `Option` stands for the TypeScript `T | undefined` / `T | null` unions the
    application uses (an optional explanation, an absent time limit, no
    expanded row), and `Result` for a promise that either resolves with a value
    or rejects with an error message.
 */
module Outcomes {

  datatype Option<+T> = None | Some(value: T)

  datatype Result<+T> = Ok(value: T) | Err(error: string)
}
