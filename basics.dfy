/** Shared value types: optional values and raw byte content. */
module Basics {

  datatype Option<+T> = None | Some(value: T)

  /** Raw bytes of a downloaded body or an extracted file. */
  type Bytes = seq<bv8>

  /** Truthiness of an optional string header: None and "" are both falsy. */
  predicate Truthy(o: Option<string>)
  {
    o.Some? && o.value != ""
  }

  /** Python's `a or b` on an optional string. */
  function OrElse(o: Option<string>, fallback: string): string
  {
    if Truthy(o) then o.value else fallback
  }
}
