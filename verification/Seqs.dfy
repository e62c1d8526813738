/** A sequence seen from its last element, as a path is from its top. */
module Seqs {

  function Last<T>(s: seq<T>): T
    requires s != []
  {
    s[|s| - 1]
  }

  function Init<T>(s: seq<T>): (r: seq<T>)
    requires s != []
    ensures |r| == |s| - 1
  {
    s[..|s| - 1]
  }

  lemma {:induction false} Snoc<T>(s: seq<T>, x: T)
    ensures Init(s + [x]) == s && Last(s + [x]) == x
  {
  }

  lemma {:induction false} Unsnoc<T>(s: seq<T>)
    requires s != []
    ensures s == Init(s) + [Last(s)]
  {
  }

  lemma {:induction false} Regroup<T>(a: seq<T>, b: seq<T>, c: seq<T>)
    ensures a + b + c == a + (b + c)
  {
  }

  predicate Distinct<T(==)>(s: seq<T>) {
    forall i, j :: 0 <= i < j < |s| ==> s[i] != s[j]
  }

  /** `k` put before each of `paths`. */
  function Prepend<T>(k: T, paths: seq<seq<T>>): (r: seq<seq<T>>)
    ensures |r| == |paths| && forall i :: 0 <= i < |r| ==> r[i] == [k] + paths[i]
  {
    seq(|paths|, i requires 0 <= i < |paths| => [k] + paths[i])
  }

  lemma {:induction false} PrependHolds<T>(k: T, paths: seq<seq<T>>, p: seq<T>)
    ensures p in Prepend(k, paths) <==> p != [] && p[0] == k && p[1..] in paths
  {
    if p in Prepend(k, paths) {
      var i :| 0 <= i < |paths| && Prepend(k, paths)[i] == p;
      assert p[1..] == paths[i];
    }
    if p != [] && p[0] == k && p[1..] in paths {
      var i :| 0 <= i < |paths| && paths[i] == p[1..];
      assert Prepend(k, paths)[i] == p;
    }
  }
}
