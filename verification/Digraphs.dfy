/** Finite directed graphs: reachability, cycles, and what one more edge does to them. */
module Digraphs {
  import opened Sums

  type Digraph<T> = map<T, set<T>>

  predicate HasEdge<T(==)>(e: Digraph<T>, x: T, y: T) {
    x in e && y in e[x]
  }

  function Next<T>(e: Digraph<T>, s: set<T>): set<T> {
    set x, y | x in s && x in e && y in e[x] :: y
  }

  function Targets<T>(e: Digraph<T>): set<T> {
    set x, y | x in e && y in e[x] :: y
  }

  /** Everything reachable from `s`, in any number of steps. */
  function Reach<T>(e: Digraph<T>, s: set<T>): (r: set<T>)
    ensures s <= r
    ensures Next(e, r) <= r
    decreases Targets(e) - s
  {
    if Next(e, s) <= s then s else
    var y :| y in Next(e, s) && y !in s;
    assert y in Targets(e);
    assert Targets(e) - (s + Next(e, s)) < Targets(e) - s;
    Reach(e, s + Next(e, s))
  }

  ghost predicate Path<T>(e: Digraph<T>, p: seq<T>) {
    |p| > 0 && forall i :: 0 <= i < |p| - 1 ==> HasEdge(e, p[i], p[i + 1])
  }

  ghost predicate PathBetween<T>(e: Digraph<T>, p: seq<T>, x: T, y: T) {
    Path(e, p) && p[0] == x && p[|p| - 1] == y
  }

  /** No walk of one or more edges returns to where it started. */
  ghost predicate Acyclic<T(!new)>(e: Digraph<T>) {
    forall p: seq<T> :: Path(e, p) && |p| > 1 ==> p[0] != p[|p| - 1]
  }

  // ---- reachability is the existence of a path ----

  /** A closed set keeps everything reachable from inside it. */
  lemma {:induction false} ReachWithin<T>(e: Digraph<T>, s: set<T>, c: set<T>)
    requires s <= c && Next(e, c) <= c
    ensures Reach(e, s) <= c
    decreases Targets(e) - s
  {
    if !(Next(e, s) <= s) {
      var y :| y in Next(e, s) && y !in s;
      assert y in Targets(e);
      assert Targets(e) - (s + Next(e, s)) < Targets(e) - s;
      forall z | z in Next(e, s) ensures z in c {
        var x :| x in s && x in e && z in e[x];
        assert z in Next(e, c);
      }
      ReachWithin(e, s + Next(e, s), c);
    }
  }

  lemma {:induction false} PathStaysIn<T>(e: Digraph<T>, p: seq<T>, c: set<T>)
    requires Path(e, p) && p[0] in c && Next(e, c) <= c
    ensures p[|p| - 1] in c
    decreases |p|
  {
    if |p| > 1 {
      assert HasEdge(e, p[0], p[1]) && p[1] in Next(e, c);
      assert Path(e, p[1..]) by {
        forall i | 0 <= i < |p| - 2 ensures HasEdge(e, p[1..][i], p[1..][i + 1]) {
          assert HasEdge(e, p[i + 1], p[i + 2]);
        }
      }
      PathStaysIn(e, p[1..], c);
    }
  }

  lemma {:induction false} ReachHasPath<T>(e: Digraph<T>, s: set<T>, y: T) returns (p: seq<T>)
    requires y in Reach(e, s)
    ensures Path(e, p) && p[0] in s && p[|p| - 1] == y
    decreases Targets(e) - s
  {
    if Next(e, s) <= s {
      p := [y];
    } else {
      var z :| z in Next(e, s) && z !in s;
      assert z in Targets(e);
      assert Targets(e) - (s + Next(e, s)) < Targets(e) - s;
      p := ReachHasPath(e, s + Next(e, s), y);
      if p[0] !in s {
        var x :| x in s && x in e && p[0] in e[x];
        p := PathCons(e, x, p);
      }
    }
  }

  lemma PathCons<T>(e: Digraph<T>, x: T, p: seq<T>) returns (q: seq<T>)
    requires Path(e, p) && HasEdge(e, x, p[0])
    ensures q == [x] + p && Path(e, q)
  {
    q := [x] + p;
    forall i | 0 <= i < |q| - 1 ensures HasEdge(e, q[i], q[i + 1]) {
      if i > 0 {
        assert q[i] == p[i - 1] && q[i + 1] == p[i];
      }
    }
  }

  lemma ReachIsPath<T(!new)>(e: Digraph<T>, x: T, y: T)
    ensures y in Reach(e, {x}) <==> exists p :: PathBetween(e, p, x, y)
  {
    if y in Reach(e, {x}) {
      var p := ReachHasPath(e, {x}, y);
      assert PathBetween(e, p, x, y);
    }
    if p :| PathBetween(e, p, x, y) {
      PathStaysIn(e, p, Reach(e, {x}));
    }
  }

  // ---- one more edge ----

  function AddEdge<T>(e: Digraph<T>, x: T, y: T): Digraph<T>
    requires x in e
  {
    e[x := e[x] + {y}]
  }

  /** If `x` is not reachable from `y`, the edge from `x` to `y` leads nowhere new from `y`. */
  lemma NewEdgeUnused<T(!new)>(e: Digraph<T>, x: T, y: T)
    requires x in e && x !in Reach(e, {y})
    ensures x !in Reach(AddEdge(e, x, y), {y})
  {
    var r, e' := Reach(e, {y}), AddEdge(e, x, y);
    forall z | z in Next(e', r) ensures z in r {
      var w :| w in r && w in e' && z in e'[w];
      assert z in Next(e, r);
    }
    ReachWithin(e', {y}, r);
  }

  /** A cycle that takes the edge from `x` to `y` contains a way back from `y` to `x`. */
  lemma Rotate<T>(e: Digraph<T>, p: seq<T>, i: nat) returns (q: seq<T>)
    requires Path(e, p) && i < |p| - 1 && p[0] == p[|p| - 1]
    ensures PathBetween(e, q, p[i + 1], p[i])
  {
    q := p[i + 1..] + p[1..i + 1];
    var n := |p| - i - 1;
    forall k | 0 <= k < |q| - 1 ensures HasEdge(e, q[k], q[k + 1]) {
      if k < n - 1 {
        assert q[k] == p[i + 1 + k] && q[k + 1] == p[i + 2 + k];
      } else if k == n - 1 {
        assert q[k] == p[0] && q[k + 1] == p[1];
      } else {
        assert q[k] == p[k - n + 1] && q[k + 1] == p[k - n + 2];
      }
    }
  }

  lemma OldPath<T>(e: Digraph<T>, x: T, y: T, p: seq<T>)
    requires x in e && Path(AddEdge(e, x, y), p)
    requires forall i :: 0 <= i < |p| - 1 ==> !(p[i] == x && p[i + 1] == y)
    ensures Path(e, p)
  {}

  /** A new edge keeps an acyclic graph acyclic exactly when its source cannot be reached from its target. */
  lemma AddEdgeAcyclic<T(!new)>(e: Digraph<T>, x: T, y: T)
    requires x in e && Acyclic(e)
    ensures Acyclic(AddEdge(e, x, y)) <==> x !in Reach(e, {y})
  {
    var e' := AddEdge(e, x, y);
    if x in Reach(e, {y}) {
      var p := ReachHasPath(e, {y}, x);
      assert Path(e', p);
      var q := PathCons(e', x, p);
      assert |q| > 1 && q[0] == q[|q| - 1];
    } else {
      forall p | Path(e', p) && |p| > 1 ensures p[0] != p[|p| - 1] {
        if i :| 0 <= i < |p| - 1 && p[i] == x && p[i + 1] == y {
          if p[0] == p[|p| - 1] {
            var q := Rotate(e', p, i);
            NewEdgeUnused(e, x, y);
            ReachIsPath(e', y, x);
            assert false;
          }
        } else {
          OldPath(e, x, y, p);
        }
      }
    }
  }

  // ---- heights ----

  /** In an acyclic graph, following an edge strictly shrinks what can still be reached. */
  lemma HeightFalls<T(!new)>(e: Digraph<T>, x: T, y: T)
    requires Acyclic(e) && HasEdge(e, x, y)
    ensures |Reach(e, {y})| < |Reach(e, {x})|
  {
    var rx, ry := Reach(e, {x}), Reach(e, {y});
    assert y in Next(e, rx);
    ReachWithin(e, {y}, rx);
    if x in ry {
      var p := ReachHasPath(e, {y}, x);
      var q := PathCons(e, x, p);
      assert false;
    }
    ProperSubsetSmaller(ry, rx, x);
  }

  lemma ProperSubsetSmaller<T>(a: set<T>, b: set<T>, x: T)
    requires a <= b && x in b && x !in a
    ensures |a| < |b|
  {
    SubsetSize(a, b - {x});
  }
}
