/** The result of an operation that the original ends by raising a coded rejection. */
module Outcomes {
  datatype Result<+T> = Ok(value: T) | Err(code: string)

  datatype Option<+T> = None | Some(value: T) {
    function GetOr(default: T): T {
      if Some? then value else default
    }
  }
}
