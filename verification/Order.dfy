/** What the library assumes of a comparison callback (`CmpFn`). */
module Order {

  /** Swapping the arguments flips the sign, and "not greater" is transitive.  Distinct elements may
      still compare as 0: such elements are said to tie. */
  ghost predicate TotalPreorder<T(!new)>(fn: (T, T) -> int) {
    && (forall a, b :: fn(a, b) < 0 <==> fn(b, a) > 0)
    && (forall a, b, c :: fn(a, b) <= 0 && fn(b, c) <= 0 ==> fn(a, c) <= 0)
  }

  /** A comparison of integers, for examples. */
  function Difference(a: int, b: int): int {
    a - b
  }

  ghost predicate Sorted<T>(fn: (T, T) -> int, s: seq<T>) {
    forall i, j :: 0 <= i < j < |s| ==> fn(s[i], s[j]) <= 0
  }

  ghost predicate StrictlySorted<T>(fn: (T, T) -> int, s: seq<T>) {
    forall i, j :: 0 <= i < j < |s| ==> fn(s[i], s[j]) < 0
  }
}
