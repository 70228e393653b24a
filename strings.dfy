/** String searching as JavaScript's `indexOf` and `includes` perform it. */
module Strings {
  import opened Wrappers

  /** `p` occurs in `s` starting at index `j`. */
  predicate OccursAt(s: string, p: string, j: nat)
  {
    j + |p| <= |s| && s[j..j + |p|] == p
  }

  /** The index of the first occurrence of `p` in `s`, `None` standing for -1.
      The empty pattern occurs at index 0. */
  function IndexOf(s: string, p: string): (r: Option<nat>)
    ensures r.Some? ==> OccursAt(s, p, r.value)
    ensures r.Some? ==> forall j: nat | j < r.value :: !OccursAt(s, p, j)
    ensures r.None? <==> forall j: nat :: !OccursAt(s, p, j)
    decreases |s|
  {
    if |p| <= |s| && s[..|p|] == p then Some(0)
    else if s == [] then None
    else
      assert forall j: nat | 1 <= j :: OccursAt(s, p, j) == OccursAt(s[1..], p, j - 1);
      match IndexOf(s[1..], p)
      case None => None
      case Some(i) => Some(i + 1)
  }

  /** `s.includes(p)`: true exactly when `p` occurs somewhere in `s`. */
  predicate Includes(s: string, p: string)
    ensures Includes(s, p) <==> exists j: nat :: OccursAt(s, p, j)
  {
    IndexOf(s, p).Some?
  }
}
