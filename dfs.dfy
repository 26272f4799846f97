/**
 * Reachability in a directed graph, decided by a depth-first search whose
 * visited set is local to the current path (hw_7 third variant, dfs.h).
 *
 * The source computes the search at compile time over type lists; here the
 * graph is an adjacency list: `g[v]` holds the targets of v's edges in the
 * order they are declared, and vertex v is the v-th entry of the graph.
 */
module GraphSearch {

  /** Outgoing edge targets of every vertex, in declaration order. */
  type Graph = seq<seq<nat>>

  /** Every edge points at a vertex of the graph. */
  ghost predicate WellFormed(g: Graph)
  {
    forall v, k :: 0 <= v < |g| && 0 <= k < |g[v]| ==> g[v][k] < |g|
  }

  /** Number of vertices not yet marked on the current path. */
  function Unvisited(visit: seq<bool>): nat
  {
    if visit == [] then 0 else (if visit[0] then 0 else 1) + Unvisited(visit[1..])
  }

  /** Marking one more vertex strictly shrinks the unvisited count. */
  lemma {:induction false} MarkShrinks(visit: seq<bool>, v: nat)
    requires v < |visit| && !visit[v]
    ensures Unvisited(visit[v := true]) + 1 == Unvisited(visit)
  {
    if v == 0 {
      assert visit[v := true][1..] == visit[1..];
    } else {
      MarkShrinks(visit[1..], v - 1);
      assert visit[v := true][1..] == visit[1..][v - 1 := true];
    }
  }

  /** `PathExists<G, s, e>`: search from s with an all-false visited vector. */
  function PathExists(g: Graph, s: nat, e: nat): (r: bool)
    requires WellFormed(g) && s < |g|
    ensures s == e ==> r
  {
    RightDfs(g, s, e, seq(|g|, _ => false))
  }

  /**
   * `rightDfs`: false on a vertex already on the path; otherwise true when
   * the target is reached, or else mark `start` and try its edges.
   */
  function RightDfs(g: Graph, start: nat, end: nat, visit: seq<bool>): (r: bool)
    requires WellFormed(g) && |visit| == |g| && start < |g|
    ensures r ==> !visit[start]
    ensures !visit[start] && start == end ==> r
    decreases Unvisited(visit), 0, 0
  {
    if visit[start] then false
    else
      start == end ||
      (MarkShrinks(visit, start);
       LeftDfs(g, start, end, visit[start := true], |g[start]|))
  }

  /**
   * `leftDfs`: try the first `edge` edges of `from`, last one first; every
   * sibling starts from the same visited vector.
   */
  function LeftDfs(g: Graph, from: nat, end: nat, visit: seq<bool>, edge: nat): (r: bool)
    requires WellFormed(g) && |visit| == |g| && from < |g| && edge <= |g[from]|
    ensures r ==> exists k :: 0 <= k < edge && !visit[g[from][k]]
    decreases Unvisited(visit), 1, edge
  {
    if edge == 0 then false
    else
      RightDfs(g, g[from][edge - 1], end, visit) ||
      LeftDfs(g, from, end, visit, edge - 1)
  }

  // ---------------------------------------------------------------------
  // Paths and reachability

  /** `p` is a walk along the edges of `g`. */
  ghost predicate IsPath(g: Graph, p: seq<nat>)
  {
    |p| >= 1 &&
    (forall i :: 0 <= i < |p| ==> p[i] < |g|) &&
    (forall i :: 0 <= i < |p| - 1 ==> p[i + 1] in g[p[i]])
  }

  ghost predicate PathFromTo(g: Graph, p: seq<nat>, s: nat, e: nat)
  {
    IsPath(g, p) && p[0] == s && p[|p| - 1] == e
  }

  ghost predicate Distinct(p: seq<nat>)
  {
    forall i, j :: 0 <= i < j < |p| ==> p[i] != p[j]
  }

  ghost predicate Avoids(p: seq<nat>, visit: seq<bool>)
  {
    forall i :: 0 <= i < |p| ==> p[i] < |visit| && !visit[p[i]]
  }

  /** A simple path from s to e none of whose vertices is marked. */
  ghost predicate FreePath(g: Graph, p: seq<nat>, s: nat, e: nat, visit: seq<bool>)
  {
    PathFromTo(g, p, s, e) && Distinct(p) && Avoids(p, visit)
  }

  /** `e` is reachable from `s` along zero or more edges. */
  ghost predicate Reachable(g: Graph, s: nat, e: nat)
  {
    exists p :: PathFromTo(g, p, s, e)
  }

  /** `leftDfs` over `edge` edges succeeds iff one of those edges' searches does. */
  lemma {:induction false} LeftDfsSomeEdge(g: Graph, from: nat, end: nat, visit: seq<bool>, edge: nat)
    requires WellFormed(g) && |visit| == |g| && from < |g| && edge <= |g[from]|
    ensures LeftDfs(g, from, end, visit, edge) <==>
            exists k :: 0 <= k < edge && RightDfs(g, g[from][k], end, visit)
  {
    if edge > 0 {
      LeftDfsSomeEdge(g, from, end, visit, edge - 1);
    }
  }

  /** Soundness: a successful search exhibits a simple, unmarked path. */
  lemma {:induction false} RightDfsSound(g: Graph, s: nat, e: nat, visit: seq<bool>)
    requires WellFormed(g) && |visit| == |g| && s < |g|
    requires RightDfs(g, s, e, visit)
    ensures exists p :: FreePath(g, p, s, e, visit)
    decreases Unvisited(visit)
  {
    if s == e {
      assert FreePath(g, [s], s, e, visit);
    } else {
      var visit' := visit[s := true];
      MarkShrinks(visit, s);
      LeftDfsSomeEdge(g, s, e, visit', |g[s]|);
      var k :| 0 <= k < |g[s]| && RightDfs(g, g[s][k], e, visit');
      RightDfsSound(g, g[s][k], e, visit');
      var q :| FreePath(g, q, g[s][k], e, visit');
      ExtendFreePath(g, s, q, g[s][k], e, visit);
    }
  }

  /** A free path from a successor of an unmarked s, avoiding s, extends to a free path from s. */
  lemma ExtendFreePath(g: Graph, s: nat, q: seq<nat>, t: nat, e: nat, visit: seq<bool>)
    requires s < |g| && |visit| == |g| && !visit[s] && t in g[s]
    requires FreePath(g, q, t, e, visit[s := true])
    ensures FreePath(g, [s] + q, s, e, visit)
  {
    var p := [s] + q;
    forall i | 0 <= i < |p| - 1 ensures p[i + 1] in g[p[i]] {
      if i > 0 { assert p[i] == q[i - 1] && p[i + 1] == q[i]; }
    }
    forall i | 0 <= i < |p| ensures p[i] < |visit| && !visit[p[i]] {
      if i > 0 { assert p[i] == q[i - 1]; }
    }
    forall i, j | 0 <= i < j < |p| ensures p[i] != p[j] {
      assert p[j] == q[j - 1];
      if i > 0 { assert p[i] == q[i - 1]; }
    }
  }

  /** Completeness: every simple, unmarked path is found by the search. */
  lemma {:induction false} RightDfsComplete(g: Graph, p: seq<nat>, s: nat, e: nat, visit: seq<bool>)
    requires WellFormed(g) && |visit| == |g| && s < |g|
    requires FreePath(g, p, s, e, visit)
    ensures RightDfs(g, s, e, visit)
    decreases |p|
  {
    if s != e {
      assert |p| >= 2;
      var visit' := visit[s := true];
      var q := p[1..];
      assert p[1] in g[p[0]];
      var k :| 0 <= k < |g[s]| && g[s][k] == q[0];
      forall i | 0 <= i < |q| ensures q[i] < |visit'| && !visit'[q[i]] {
        assert q[i] == p[i + 1] && p[i + 1] != p[0];
      }
      forall i | 0 <= i < |q| - 1 ensures q[i + 1] in g[q[i]] {
        assert q[i] == p[i + 1] && q[i + 1] == p[i + 2];
      }
      assert FreePath(g, q, q[0], e, visit');
      RightDfsComplete(g, q, q[0], e, visit');
      LeftDfsSomeEdge(g, s, e, visit', |g[s]|);
    }
  }

  /** Any walk can be shortened to a simple path with the same ends. */
  lemma {:induction false} ShortenToSimple(g: Graph, p: seq<nat>, s: nat, e: nat)
    requires PathFromTo(g, p, s, e)
    ensures exists q :: PathFromTo(g, q, s, e) && Distinct(q)
    decreases |p|
  {
    if !Distinct(p) {
      var i, j :| 0 <= i < j < |p| && p[i] == p[j];
      var q := p[..i] + p[j..];
      assert |q| == |p| - (j - i);
      forall k | 0 <= k < |q| ensures q[k] < |g| {
        if k < i { assert q[k] == p[k]; } else { assert q[k] == p[k + j - i]; }
      }
      forall k | 0 <= k < |q| - 1 ensures q[k + 1] in g[q[k]] {
        if k + 1 < i {
          assert q[k] == p[k] && q[k + 1] == p[k + 1];
        } else if k + 1 == i {
          assert q[k] == p[k] && q[k + 1] == p[j] == p[k + 1];
        } else {
          assert q[k] == p[k + j - i] && q[k + 1] == p[k + 1 + j - i];
        }
      }
      assert q[0] == s by { if i == 0 { assert q[0] == p[j] == p[0]; } else { assert q[0] == p[0]; } }
      assert q[|q| - 1] == p[|p| - 1];
      ShortenToSimple(g, q, s, e);
    } else {
      assert PathFromTo(g, p, s, e) && Distinct(p);
    }
  }

  /** `PathExists<G, s, e>` is true exactly when e is reachable from s. */
  lemma PathExistsIffReachable(g: Graph, s: nat, e: nat)
    requires WellFormed(g) && s < |g|
    ensures PathExists(g, s, e) <==> Reachable(g, s, e)
  {
    var none := seq(|g|, _ => false);
    if PathExists(g, s, e) {
      RightDfsSound(g, s, e, none);
    }
    if Reachable(g, s, e) {
      var p :| PathFromTo(g, p, s, e);
      ShortenToSimple(g, p, s, e);
      var q :| PathFromTo(g, q, s, e) && Distinct(q);
      assert FreePath(g, q, s, e, none);
      RightDfsComplete(g, q, s, e, none);
    }
  }

  /** Every vertex reaches itself: the search succeeds at once when s == e. */
  lemma SelfReachable(g: Graph, s: nat)
    requires WellFormed(g) && s < |g|
    ensures PathExists(g, s, s) && Reachable(g, s, s)
  {
    assert PathFromTo(g, [s], s, s);
  }

  /** The nine-vertex graph of the galaxy exercise. */
  const Galaxy: Graph := [[1], [2, 5], [3, 0], [4], [1], [4, 6], [7], [8], [6]]

  /** Vertices 6, 7 and 8 form a cycle with no edge leaving it. */
  lemma {:induction false} GalaxyCycleClosed(p: seq<nat>, k: nat)
    requires IsPath(Galaxy, p) && 6 <= p[0] <= 8 && k < |p|
    ensures 6 <= p[k] <= 8
  {
    if k > 0 {
      GalaxyCycleClosed(p, k - 1);
      assert p[k] in Galaxy[p[k - 1]];
    }
  }

  /** The answers the exercise's driver expects. */
  lemma GalaxyAnswers()
    ensures WellFormed(Galaxy)
    ensures PathExists(Galaxy, 5, 0)
    ensures !PathExists(Galaxy, 7, 5)
    ensures PathExists(Galaxy, 0, 0)
  {
    GalaxyFiveToZero();
    GalaxySevenNotToFive();
    SelfReachable(Galaxy, 0);
  }

  /** 5 → 4 → 1 → 2 → 0 is a free path, so the search from 5 finds 0. */
  lemma GalaxyFiveToZero()
    ensures WellFormed(Galaxy) && PathExists(Galaxy, 5, 0)
  {
    var none := seq(|Galaxy|, _ => false);
    var p := [5, 4, 1, 2, 0];
    assert p[1] in Galaxy[p[0]] && p[2] in Galaxy[p[1]] && p[3] in Galaxy[p[2]] && p[4] in Galaxy[p[3]];
    assert FreePath(Galaxy, p, 5, 0, none);
    RightDfsComplete(Galaxy, p, 5, 0, none);
  }

  /** From 7 only the cycle 6 → 7 → 8 → 6 is reachable, so the search from 7 never finds 5. */
  lemma GalaxySevenNotToFive()
    ensures WellFormed(Galaxy) && !PathExists(Galaxy, 7, 5)
  {
    if PathExists(Galaxy, 7, 5) {
      PathExistsIffReachable(Galaxy, 7, 5);
      var q :| PathFromTo(Galaxy, q, 7, 5);
      GalaxyCycleClosed(q, |q| - 1);
      assert false;
    }
  }
}
