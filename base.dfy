/**
 * Shared vocabulary: a value that may be absent, and taking one element out
 * of a sequence. `None` is an `undefined` field (or the `null` a DOM query
 * returns); a stored setting is never `null` here.
 */
module Base {

  datatype Option<+T> = None | Some(value: T) {

    /** The value, or `default` when absent. */
    function GetOr(default: T): T {
      match this
      case Some(v) => v
      case None => default
    }
  }

  /** JavaScript truthiness of an optional boolean: `undefined` reads as false. */
  predicate Truthy(b: Option<bool>) {
    b == Some(true)
  }

  /** `s` without its element at `k`: the others, in their order. */
  function RemoveAt<T>(s: seq<T>, k: nat): (r: seq<T>)
    requires k < |s|
    ensures |r| == |s| - 1
    ensures forall j :: 0 <= j < k ==> r[j] == s[j]
    ensures forall j :: k <= j < |r| ==> r[j] == s[j + 1]
    ensures multiset(r) == multiset(s) - multiset{s[k]}
  {
    assert s == s[..k] + [s[k]] + s[k + 1..];
    s[..k] + s[k + 1..]
  }
}
