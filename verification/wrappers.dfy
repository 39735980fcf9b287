/** The optional value used wherever the editor code works with a nullable
    reference or a lookup that may find nothing. */
module Wrappers {

  datatype Option<+T> = None | Some(value: T) {

    /** The held value, or `default` when there is none (`int.TryParse`'s
        fallback to 0 in the variant numbering). */
    function GetOr(default: T): T {
      match this
      case Some(v) => v
      case None() => default
    }
  }
}
