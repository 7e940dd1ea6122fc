/** Optional values and Python-style outcomes shared by every module of the model. */
module Wrappers {

  /** Python's None, or a present value. */
  datatype Option<+T> = None | Some(value: T) {
    /** The value when present, otherwise `default`. */
    function GetOr(default: T): T {
      match this
      case Some(v) => v
      case None => default
    }
  }

  /** The exceptions the modelled statements can raise. */
  datatype PyError = IndexError | AttributeError | TypeError | ValueError | NameError

  /** A statement either produces a value or raises. */
  datatype Outcome<+T> = Ok(value: T) | Raised(error: PyError)

  /** Python truthiness of an optional string: present and non-empty. */
  predicate Truthy(s: Option<string>) {
    s.Some? && s.value != ""
  }
}
