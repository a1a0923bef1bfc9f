/** Optional values and outcomes shared by every module.
    `None` stands for a Python function's sentinel return (`None` or `-1`),
    `Err` for a Python exception the caller would see. */
module Wrappers {

  datatype Option<+T> = None | Some(value: T) {
    function GetOr(default: T): T {
      match this
      case Some(v) => v
      case None => default
    }
  }

  datatype Result<+T> = Ok(value: T) | Err(msg: string)
}
