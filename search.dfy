/** `find_mut_pig` of both player modules: the first element of a query equal to a given one. */
module Search {
  import opened Wrappers

  /** Index of the first occurrence of `x` in `s`. */
  function FirstIndexOf<T(==)>(s: seq<T>, x: T): (r: Option<nat>)
    ensures r.Some? ==> r.value < |s| && s[r.value] == x && forall k :: 0 <= k < r.value ==> s[k] != x
    ensures r.None? <==> x !in s
    decreases |s|
  {
    if s == [] then None
    else if s[0] == x then Some(0)
    else match FirstIndexOf(s[1..], x)
      case None => None
      case Some(k) => Some(k + 1)
  }

  /** The search loop of `find_mut_pig`. */
  method FindFirst<T(==)>(a: array<T>, x: T) returns (r: Option<nat>)
    ensures r == FirstIndexOf(a[..], x)
  {
    var i := 0;
    while i < a.Length
      invariant 0 <= i <= a.Length
      invariant forall k :: 0 <= k < i ==> a[k] != x
    {
      if a[i] == x {
        r := Some(i);
        FirstIndexIsUnique(a[..], x, i);
        return;
      }
      i := i + 1;
    }
    r := None;
  }

  /** The first occurrence is determined by where `x` first appears. */
  lemma FirstIndexIsUnique<T>(s: seq<T>, x: T, i: nat)
    requires i < |s| && s[i] == x && forall k :: 0 <= k < i ==> s[k] != x
    ensures FirstIndexOf(s, x) == Some(i)
  {
    var r := FirstIndexOf(s, x);
    assert r.Some?;
  }
}
