/** What several components share. */
module Basics {

  type Bytes = seq<bv8>

  function Min(a: int, b: int): int {
    if a < b then a else b
  }
}
