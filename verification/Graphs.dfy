/** Walks in a finite directed graph, and the depth-first search that carries its path as a set. */
module Graphs {
  ghost predicate Walk<N>(next: N -> seq<N>, p: seq<N>) {
    p != [] && forall i :: 0 <= i < |p| - 1 ==> p[i + 1] in next(p[i])
  }

  ghost predicate From<N>(next: N -> seq<N>, a: N, p: seq<N>) { Walk(next, p) && p[0] == a }

  /** At least one edge leads from `a` to `b`. */
  ghost predicate Reaches<N(!new)>(next: N -> seq<N>, a: N, b: N) {
    exists p :: From(next, a, p) && |p| > 1 && p[|p| - 1] == b
  }

  /** A walk ends badly at a bad node, at a node already on the path, or at one of its own earlier nodes. */
  ghost predicate EndsBadly<N>(bad: N -> bool, path: set<N>, p: seq<N>)
    requires p != []
  {
    var last := p[|p| - 1];
    bad(last) || last in path || last in p[..|p| - 1]
  }

  ghost predicate Stuck<N(!new)>(next: N -> seq<N>, bad: N -> bool, path: set<N>, a: N) {
    exists p :: From(next, a, p) && EndsBadly(bad, path, p)
  }

  lemma WalkTail<N>(next: N -> seq<N>, p: seq<N>, k: nat)
    requires Walk(next, p) && k < |p|
    ensures From(next, p[k], p[k..])
  {
    var q := p[k..];
    forall i | 0 <= i < |q| - 1
      ensures q[i + 1] in next(q[i])
    {
      assert p[i + k + 1] in next(p[i + k]);
    }
  }

  lemma WalkJoin<N>(next: N -> seq<N>, p: seq<N>, q: seq<N>)
    requires Walk(next, p) && Walk(next, q) && p[|p| - 1] == q[0]
    ensures From(next, p[0], p + q[1..])
    ensures (p + q[1..])[|p + q[1..]| - 1] == q[|q| - 1]
  {
    var r, n := p + q[1..], |p| - 1;
    forall i | 0 <= i < |r| - 1
      ensures r[i + 1] in next(r[i])
    {
      if i < n {
        assert p[i + 1] in next(p[i]);
      } else {
        assert q[i - n + 1] in next(q[i - n]);
      }
    }
  }

  lemma WalkPrepend<N>(next: N -> seq<N>, a: N, q: seq<N>)
    requires Walk(next, q) && q[0] in next(a)
    ensures From(next, a, [a] + q)
  {
    assert Walk(next, [a, q[0]]);
    WalkJoin(next, [a, q[0]], q);
    assert [a, q[0]] + q[1..] == [a] + q;
  }

  /** The recursion of every search here: a fresh good node is stuck exactly when a successor is. */
  lemma StuckStep<N(!new)>(next: N -> seq<N>, bad: N -> bool, path: set<N>, a: N)
    ensures bad(a) || a in path ==> Stuck(next, bad, path, a)
    ensures !bad(a) && a !in path ==>
      (Stuck(next, bad, path, a) <==> exists d :: d in next(a) && Stuck(next, bad, path + {a}, d))
  {
    if bad(a) || a in path {
      assert From(next, a, [a]) && EndsBadly(bad, path, [a]);
    } else {
      if Stuck(next, bad, path, a) {
        var p :| From(next, a, p) && EndsBadly(bad, path, p);
        ShorterWalk(next, bad, path, p);
      }
      if d :| d in next(a) && Stuck(next, bad, path + {a}, d) {
        var q :| From(next, d, q) && EndsBadly(bad, path + {a}, q);
        LongerWalk(next, bad, path, a, q);
      }
    }
  }

  lemma ShorterWalk<N(!new)>(next: N -> seq<N>, bad: N -> bool, path: set<N>, p: seq<N>)
    requires Walk(next, p) && |p| > 1 && EndsBadly(bad, path, p)
    ensures p[1] in next(p[0]) && Stuck(next, bad, path + {p[0]}, p[1])
  {
    var q, last := p[1..], p[|p| - 1];
    WalkTail(next, p, 1);
    assert p[0 + 1] in next(p[0]);
    if last in p[..|p| - 1] && last != p[0] {
      var i :| 0 <= i < |p| - 1 && p[i] == last;
      assert q[..|q| - 1][i - 1] == last;
    }
    assert From(next, p[1], q) && EndsBadly(bad, path + {p[0]}, q);
  }

  lemma LongerWalk<N(!new)>(next: N -> seq<N>, bad: N -> bool, path: set<N>, a: N, q: seq<N>)
    requires Walk(next, q) && q[0] in next(a) && EndsBadly(bad, path + {a}, q)
    ensures Stuck(next, bad, path, a)
  {
    var p, last := [a] + q, q[|q| - 1];
    WalkPrepend(next, a, q);
    assert p[..|p| - 1] == [a] + q[..|q| - 1];
    assert EndsBadly(bad, path, p);
  }

  /** Reachability by its first edge. */
  lemma ReachesStep<N(!new)>(next: N -> seq<N>, a: N, b: N)
    ensures Reaches(next, a, b) <==> exists d :: d in next(a) && (d == b || Reaches(next, d, b))
  {
    if Reaches(next, a, b) {
      var p :| From(next, a, p) && |p| > 1 && p[|p| - 1] == b;
      assert p[0 + 1] in next(p[0]);
      WalkTail(next, p, 1);
    }
    if d :| d in next(a) && (d == b || Reaches(next, d, b)) {
      var q := AWalk(next, d, b);
      WalkPrepend(next, a, q);
      assert ([a] + q)[|q|] == b;
    }
  }

  lemma AWalk<N(!new)>(next: N -> seq<N>, a: N, b: N) returns (p: seq<N>)
    requires a == b || Reaches(next, a, b)
    ensures From(next, a, p) && p[|p| - 1] == b
  {
    if a == b {
      p := [a];
    } else {
      p :| From(next, a, p) && |p| > 1 && p[|p| - 1] == b;
    }
  }

  /** Reachability by its last edge. */
  lemma ReachesFurther<N(!new)>(next: N -> seq<N>, a: N, b: N, c: N)
    requires (a == b || Reaches(next, a, b)) && c in next(b)
    ensures Reaches(next, a, c)
  {
    var p := AWalk(next, a, b);
    assert Walk(next, [b, c]);
    WalkJoin(next, p, [b, c]);
  }

  /** With an empty path, a node is stuck exactly when a bad node or a cycle can be reached from it. */
  lemma StuckIffCycle<N(!new)>(next: N -> seq<N>, bad: N -> bool, a: N)
    ensures Stuck(next, bad, {}, a) <==>
      exists x :: (x == a || Reaches(next, a, x)) && (bad(x) || Reaches(next, x, x))
  {
    if Stuck(next, bad, {}, a) {
      var p :| From(next, a, p) && EndsBadly(bad, {}, p);
      var x := p[|p| - 1];
      assert |p| > 1 ==> Reaches(next, a, x);
      if !bad(x) {
        var i :| 0 <= i < |p| - 1 && p[i] == x;
        WalkTail(next, p, i);
      }
    }
    if x :| (x == a || Reaches(next, a, x)) && (bad(x) || Reaches(next, x, x)) {
      var p := AWalk(next, a, x);
      if bad(x) {
        assert EndsBadly(bad, {}, p);
      } else {
        var q :| From(next, x, q) && |q| > 1 && q[|q| - 1] == x;
        WalkJoin(next, p, q);
        var r := p + q[1..];
        assert r[..|r| - 1][|p| - 1] == x;
        assert EndsBadly(bad, {}, r);
      }
    }
  }
}
