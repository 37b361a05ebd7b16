/** The shapes of the Python values that `json.load` can produce. */
module Json {

  /** A decoded JSON value. Numbers keep an integer only: the model never
      inspects a number beyond its type. */
  datatype Value =
    | JNull
    | JBool(b: bool)
    | JNum(n: int)
    | JStr(s: string)
    | JArray(items: seq<Value>)
    | JObject(fields: map<string, Value>)
  {
    /** Whether the Python slice `v[:60]` succeeds: strings and lists can be
        sliced, every other value raises. */
    predicate Sliceable() {
      JStr? || JArray?
    }
  }

  /** Python's `sub in s` for two strings: `sub` occurs somewhere in `s`. */
  predicate Contains(s: string, sub: string)
    decreases |s|
  {
    sub <= s || (s != [] && Contains(s[1..], sub))
  }
}
