/** Shared helpers: an optional value standing for a C# reference that may be null. */
module Common {

  datatype Option<+T> = None | Some(value: T)

  /** `List<T>.Reverse()` applied to a list holding `s`. */
  function Reversed<T>(s: seq<T>): seq<T>
  {
    seq(|s|, i requires 0 <= i < |s| => s[|s| - 1 - i])
  }
}
