/** Small value types shared by the model. */
module Primitives {

  /** A C# reference that may be null: `None` stands for `null`. */
  datatype Option<+T> = None | Some(value: T)

  /** One octet, as in a C# `byte[]`. */
  newtype byte = x: int | 0 <= x < 256

  /** `string.IsNullOrEmpty`. */
  predicate IsNullOrEmpty(s: Option<string>)
  {
    s.None? || s.value == ""
  }

  /** How `string.Format` renders a string argument: `null` becomes the empty string. */
  function OrEmpty(s: Option<string>): string
  {
    if s.Some? then s.value else ""
  }
}
