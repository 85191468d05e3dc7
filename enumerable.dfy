/** The part of System.Linq that the quiz submission relies on: a first-match
    lookup that yields the first element satisfying a predicate, or nothing
    (the C# `default`, i.e. null, for reference types). */
module Enumerable {

  datatype Option<+T> = None | Some(value: T)

  /** `FirstOrDefault(p)` over an ordered collection: the earliest element on
      which `p` holds, or None when `p` holds on no element. */
  function FirstOrDefault<T>(s: seq<T>, p: T -> bool): (r: Option<T>)
    ensures r.None? <==> forall i :: 0 <= i < |s| ==> !p(s[i])
    ensures r.Some? ==>
      exists i :: 0 <= i < |s| && s[i] == r.value && p(s[i]) &&
        forall j :: 0 <= j < i ==> !p(s[j])
  {
    if s == [] then None
    else if p(s[0]) then Some(s[0])
    else
      var r := FirstOrDefault(s[1..], p);
      assert forall j :: 1 <= j < |s| ==> s[j] == s[1..][j - 1];
      r
  }

  /** The first match is the only candidate: if `p` holds at index `k` and
      nowhere else before it, FirstOrDefault yields exactly `s[k]`. */
  lemma FirstOrDefaultAt<T>(s: seq<T>, p: T -> bool, k: nat)
    requires k < |s| && p(s[k])
    requires forall j :: 0 <= j < k ==> !p(s[j])
    ensures FirstOrDefault(s, p) == Some(s[k])
  {
    var r := FirstOrDefault(s, p);
    var i :| 0 <= i < |s| && s[i] == r.value && p(s[i]) &&
      forall j :: 0 <= j < i ==> !p(s[j]);
    assert i == k;
  }
}
