/** The optional value used for dictionary keys that may be absent. */
module Wrappers {

  datatype Option<+T> = None | Some(value: T) {

    /** `d.get(key, default)`: the value if the key is present, else the default. */
    function GetOr(default: T): T
    {
      match this
      case Some(v) => v
      case None => default
    }
  }
}
