/** Names that every part of the project uses. */
module Basics {

  datatype Option<+T> = None | Some(value: T)

  /** LOS_MAX_FILES: the size of the file table. */
  const MAX_FILES: nat := 8

  function Min(a: nat, b: nat): nat { if a <= b then a else b }

  function Max(a: nat, b: nat): nat { if a < b then b else a }
}
