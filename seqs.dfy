/**
  The first-match scan over a sequence, as Rust's `Iterator::find` and
  `Iterator::position` perform it: the flag lookups of the command-line
  parser and the mirror lookup of the classification are all this scan.
*/
module Seqs {
  import opened Wrappers

  /** `k` is the first index of `s` whose element satisfies `p`. */
  predicate IsFirst<T>(s: seq<T>, p: T -> bool, k: nat) {
    k < |s| && p(s[k]) && forall j | 0 <= j < k :: !p(s[j])
  }

  function FirstIndexFrom<T>(s: seq<T>, p: T -> bool, i: nat): (r: Option<nat>)
    requires i <= |s|
    requires forall j | 0 <= j < i :: !p(s[j])
    ensures r.Some? ==> IsFirst(s, p, r.value)
    ensures r.None? ==> forall j | 0 <= j < |s| :: !p(s[j])
    decreases |s| - i
  {
    if i == |s| then None
    else if p(s[i]) then Some(i)
    else FirstIndexFrom(s, p, i + 1)
  }

  /** The index of the first element satisfying `p`; none exactly when no element does. */
  function FirstIndex<T>(s: seq<T>, p: T -> bool): (r: Option<nat>)
    ensures r.Some? ==> IsFirst(s, p, r.value)
    ensures r.None? <==> forall j | 0 <= j < |s| :: !p(s[j])
  {
    FirstIndexFrom(s, p, 0)
  }

  /** There is only one first match. */
  lemma IsFirstUnique<T>(s: seq<T>, p: T -> bool, k1: nat, k2: nat)
    requires IsFirst(s, p, k1) && IsFirst(s, p, k2)
    ensures k1 == k2
  {
  }

  /** An element appended at the end is found only when no earlier element matches. */
  lemma FirstIndexAppend<T>(s: seq<T>, x: T, p: T -> bool)
    ensures FirstIndex(s + [x], p) ==
      if FirstIndex(s, p).Some? then FirstIndex(s, p)
      else if p(x) then Some(|s|) else None
  {
    var t := s + [x];
    assert forall j | 0 <= j < |s| :: t[j] == s[j];
    var r, r' := FirstIndex(s, p), FirstIndex(t, p);
    if r.Some? {
      assert IsFirst(t, p, r.value);
      IsFirstUnique(t, p, r.value, r'.value);
    } else if p(x) {
      assert IsFirst(t, p, |s|);
      IsFirstUnique(t, p, |s|, r'.value);
    }
  }
}
