module Sequences {
  /** The sequence without its element at position `i`; those behind it move up. */
  function Removed<T>(s: seq<T>, i: nat): (r: seq<T>)
    requires i < |s|
    ensures |r| == |s| - 1
  {
    s[..i] + s[i + 1..]
  }
}
