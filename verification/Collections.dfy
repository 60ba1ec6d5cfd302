// What several modules need of values and sequences.
module Collections {
  datatype Option<T> = None | Some(value: T)

  ghost predicate Distinct<T>(s: seq<T>) {
    forall i, j :: 0 <= i < j < |s| ==> s[i] != s[j]
  }

  /** SortedList::Append with a comparison that finds all items equal: at the end, unless it is there. */
  function Appended<T(==)>(list: seq<T>, item: T): seq<T> {
    if item in list then list else list + [item]
  }
}
