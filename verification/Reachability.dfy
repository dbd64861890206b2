/** Paths in a graph given by its successor function. */
module Reachability {

  ghost predicate IsPath<K(!new)>(succ: K -> set<K>, path: seq<K>) {
    path != [] && forall i | 0 <= i < |path| - 1 :: path[i + 1] in succ(path[i])
  }

  ghost predicate Reaches<K(!new)>(succ: K -> set<K>, a: K, b: K) {
    exists path :: IsPath(succ, path) && path[0] == a && path[|path| - 1] == b
  }

  ghost predicate ClosedUnder<K(!new)>(succ: K -> set<K>, s: set<K>) {
    forall k | k in s :: succ(k) <= s
  }

  lemma ReachesItself<K(!new)>(succ: K -> set<K>, a: K)
    ensures Reaches(succ, a, a)
  {
    assert IsPath(succ, [a]);
  }

  lemma ReachesFurther<K(!new)>(succ: K -> set<K>, a: K, b: K, c: K)
    requires Reaches(succ, a, b) && c in succ(b)
    ensures Reaches(succ, a, c)
  {
    var path :| IsPath(succ, path) && path[0] == a && path[|path| - 1] == b;
    assert IsPath(succ, path + [c]);
    assert (path + [c])[0] == a;
  }

  lemma {:induction false} PathSatisfies<K(!new)>(succ: K -> set<K>, path: seq<K>, p: K -> bool)
    requires IsPath(succ, path) && p(path[0])
    requires forall k, j | p(k) && j in succ(k) :: p(j)
    ensures p(path[|path| - 1])
    decreases |path|
  {
    var n := |path| - 1;
    if n > 0 {
      var shorter := path[..n];
      forall i | 0 <= i < |shorter| - 1 ensures shorter[i + 1] in succ(shorter[i]) {
        assert path[i + 1] in succ(path[i]);
      }
      PathSatisfies(succ, shorter, p);
      assert path[(n - 1) + 1] in succ(path[n - 1]);
    }
  }

  /** What holds at the start and is handed on along edges holds of everything reachable. */
  lemma ReachableSatisfies<K(!new)>(succ: K -> set<K>, a: K, p: K -> bool)
    requires p(a) && forall k, j | p(k) && j in succ(k) :: p(j)
    ensures forall b | Reaches(succ, a, b) :: p(b)
  {
    forall b | Reaches(succ, a, b) ensures p(b) {
      var path :| IsPath(succ, path) && path[0] == a && path[|path| - 1] == b;
      PathSatisfies(succ, path, p);
    }
  }

  /** A closed set containing the start contains everything reachable. */
  lemma ClosedContainsReachable<K(!new)>(succ: K -> set<K>, s: set<K>, a: K)
    requires a in s && ClosedUnder(succ, s)
    ensures forall b | Reaches(succ, a, b) :: b in s
  {
    ReachableSatisfies(succ, a, k => k in s);
  }
}
