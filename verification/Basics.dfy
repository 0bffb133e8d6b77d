/** What several modules need: optional values, digits, and strings put end to end. */
module Basics {
  datatype Option<T> = None | Some(value: T)

  predicate IsDigit(c: char) {
    '0' <= c <= '9'
  }

  function Concat(parts: seq<string>): string {
    if parts == [] then "" else parts[0] + Concat(parts[1..])
  }
}
