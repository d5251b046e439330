/** Helpers on Kotlin collections shared by several modules. */
module Collections {
  /** `toSet()`: the elements of a list. */
  function Elements<T>(s: seq<T>): set<T> {
    set x | x in s
  }
}
