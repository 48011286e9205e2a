/**
 Shared vocabulary of the localization synchronizer: the nested string table
 (`[String: [String: String]]` in the program) and small wrapper datatypes.
 */
module Tables {

  /** A two-level string table. Locale-major: locale -> key -> value.
      Key-major: key -> locale -> value. Both shapes share this type. */
  type Table = map<string, map<string, string>>

  /** The canonical locale: it defines which translation keys are valid. */
  const English: string := "en"

  datatype Option<+T> = None | Some(value: T)

  datatype Result<+T, +E> = Ok(value: T) | Err(error: E)

  /** Key-major invariant: every key carries an English value. */
  predicate EveryKeyHasEnglish(t: Table)
  {
    forall k :: k in t ==> English in t[k]
  }

  /** The sub-map of `m` whose keys lie in `keys`. */
  function Restrict(m: map<string, string>, keys: set<string>): map<string, string>
  {
    map k | k in m && k in keys :: m[k]
  }

  /** Moving one element from the unvisited to the visited part of a loop's
      key set keeps the two parts a partition. */
  lemma Visit(done: set<string>, left: set<string>, all: set<string>, x: string)
    requires done + left == all && done !! left && x in left
    ensures (done + {x}) + (left - {x}) == all && (done + {x}) !! (left - {x})
  {
  }
}
