/** Finite directed graphs: a set of edges in which every node has a successor holds a cycle. */
module Graphs {

  ghost predicate IsPath<T(!new)>(edges: set<(T, T)>, path: seq<T>) {
    forall i :: 0 <= i < |path| - 1 ==> (path[i], path[i + 1]) in edges
  }

  /** A path of at least one edge that ends where it began. */
  ghost predicate IsCycle<T(!new)>(edges: set<(T, T)>, path: seq<T>) {
    |path| >= 2 && path[0] == path[|path| - 1] && IsPath(edges, path)
  }

  /** `next` gives each of its nodes a successor among its nodes. */
  ghost predicate Successors<T(!new)>(edges: set<(T, T)>, next: map<T, T>) {
    forall c {:trigger next[c]} :: c in next ==> next[c] in next && (c, next[c]) in edges
  }

  lemma {:induction false} WalkFrom<T(!new)>(edges: set<(T, T)>, next: map<T, T>, start: T, n: nat)
      returns (path: seq<T>)
    requires start in next && Successors(edges, next)
    ensures |path| == n + 1 && IsPath(edges, path) && forall i :: 0 <= i < |path| ==> path[i] in next
    decreases n
  {
    if n == 0 {
      path := [start];
    } else {
      path := WalkFrom(edges, next, start, n - 1);
      path := path + [next[path[|path| - 1]]];
    }
  }

  lemma {:induction false} Pigeonhole<T>(s: seq<T>, pool: set<T>)
    requires |s| > |pool| && forall i :: 0 <= i < |s| ==> s[i] in pool
    ensures exists i, j :: 0 <= i < j < |s| && s[i] == s[j]
    decreases |s|
  {
    var last := s[|s| - 1];
    if i :| 0 <= i < |s| - 1 && s[i] == last {
    } else {
      Pigeonhole(s[..|s| - 1], pool - {last});
    }
  }

  lemma NoSinkHasCycle<T(!new)>(edges: set<(T, T)>, next: map<T, T>) returns (cycle: seq<T>)
    requires next != map[] && Successors(edges, next)
    ensures IsCycle(edges, cycle)
  {
    var start :| start in next;
    var path := WalkFrom(edges, next, start, |next.Keys|);
    Pigeonhole(path, next.Keys);
    var i, j :| 0 <= i < j < |path| && path[i] == path[j];
    cycle := path[i..j + 1];
    forall k | 0 <= k < |cycle| - 1 ensures (cycle[k], cycle[k + 1]) in edges {
      assert (path[i + k], path[i + k + 1]) in edges;
    }
  }
}
