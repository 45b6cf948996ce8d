/**
 * The Python values the utilities handle: what `json.loads` produces, plus
 * tuples, which the key extractor treats specially. A dict is an ordered
 * sequence of entries, because Python dicts keep insertion order and the
 * traversal order of `findkeys` depends on it.
 */
module PyValue {

  datatype Value =
    | Null
    | Bool(b: bool)
    | Number(n: real)
    | Str(s: string)
    | List(items: seq<Value>)
    | Tuple(items: seq<Value>)
    | Dict(entries: seq<(string, Value)>)

  /** Python truthiness (`if not thing:`). */
  predicate Truthy(v: Value) {
    match v
    case Null => false
    case Bool(b) => b
    case Number(n) => n != 0.0
    case Str(s) => s != ""
    case List(xs) => xs != []
    case Tuple(xs) => xs != []
    case Dict(es) => es != []
  }

  /** `k in d` for a dict given by its entries. */
  predicate HasKey(entries: seq<(string, Value)>, k: string) {
    exists i :: 0 <= i < |entries| && entries[i].0 == k
  }

  /** `d[k]`: the value stored under `k` (the first entry with that key). */
  function Lookup(entries: seq<(string, Value)>, k: string): (v: Value)
    requires HasKey(entries, k)
    ensures (k, v) in entries
  {
    if entries[0].0 == k then entries[0].1
    else
      assert HasKey(entries[1..], k) by {
        var i :| 0 <= i < |entries| && entries[i].0 == k;
        assert entries[1..][i - 1].0 == k;
      }
      Lookup(entries[1..], k)
  }
}
