/** Stepping through an enumeration in declaration order
    (Extensions/EnumExtensions.cs). `values` is what `Enum.GetValues` returns:
    every member once, in declaration order. */
module EnumExtensions {

  /** `Array.IndexOf`: the first position of `v`, or -1. */
  function IndexOf<T(==)>(values: seq<T>, v: T): (r: int)
    ensures -1 <= r < |values|
    ensures r >= 0 ==> values[r] == v && forall j :: 0 <= j < r ==> values[j] != v
    ensures r == -1 <==> v !in values
  {
    if values == [] then -1
    else if values[0] == v then 0
    else
      var k := IndexOf(values[1..], v);
      if k == -1 then -1 else k + 1
  }

  /** The next declared value, or `v` itself when it is the last. */
  function GetNext<T(==)>(values: seq<T>, v: T): T
  {
    var index := IndexOf(values, v);
    if index >= 0 && index + 1 < |values| then values[index + 1] else v
  }

  /** The preceding declared value, or `v` itself when it is the first. */
  function GetPrevious<T(==)>(values: seq<T>, v: T): T
  {
    var index := IndexOf(values, v);
    if index > 0 then values[index - 1] else v
  }

  /** Every member appears once. */
  predicate Distinct<T(==)>(values: seq<T>)
  {
    forall i, j :: 0 <= i < j < |values| ==> values[i] != values[j]
  }

  /** In a list without repetitions, a member's index is its position. */
  lemma IndexOfDistinct<T>(values: seq<T>, k: nat)
    requires Distinct(values) && k < |values|
    ensures IndexOf(values, values[k]) == k
  {
  }

  /** `GetNext(v) == v` exactly when `v` is the last value: callers use this as
      the "no next value" test. */
  lemma NextFixedIffLast<T>(values: seq<T>, v: T)
    requires Distinct(values) && v in values
    ensures GetNext(values, v) == v <==> v == values[|values| - 1]
  {
    var i := IndexOf(values, v);
    if i + 1 < |values| {
      assert values[i + 1] != values[i];
    }
  }

  /** `GetPrevious` undoes `GetNext` on every value but the last, and `GetNext`
      undoes `GetPrevious` on every value but the first. */
  lemma NextPreviousInverse<T>(values: seq<T>, v: T)
    requires Distinct(values) && v in values
    ensures v != values[|values| - 1] ==> GetPrevious(values, GetNext(values, v)) == v
    ensures v != values[0] ==> GetNext(values, GetPrevious(values, v)) == v
  {
    var i := IndexOf(values, v);
    if i + 1 < |values| {
      IndexOfDistinct(values, i + 1);
    }
    if i > 0 {
      IndexOfDistinct(values, i - 1);
    }
  }
}
