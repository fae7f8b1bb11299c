/** JSON values: trees of immutable data, with object members in storage order. */
module JsonValue {
  import opened Bytes
  import opened ObjectTable

  datatype Value =
    | Null
    | Bool(b: bool)
    | Number(n: int)
    | Str(s: bytes)
    | Array(items: seq<Value>)
    | Object(members: seq<Entry<Value>>)

  /** Strings are C strings and the names of each object are pairwise distinct. */
  ghost predicate WellFormed(v: Value) {
    match v
    case Str(s) => NulFree(s)
    case Array(items) => forall i | 0 <= i < |items| :: WellFormed(items[i])
    case Object(members) =>
      && Distinct(members)
      && forall i | 0 <= i < |members| :: NulFree(members[i].name) && WellFormed(members[i].value)
    case _ => true
  }

  /** `v` has height at most `n`: a leaf or an empty container has height 0. */
  ghost predicate NestsWithin(v: Value, n: int) {
    && n >= 0
    && match v
       case Array(items) => forall i | 0 <= i < |items| :: NestsWithin(items[i], n - 1)
       case Object(members) => forall i | 0 <= i < |members| :: NestsWithin(members[i].value, n - 1)
       case _ => true
  }
}
