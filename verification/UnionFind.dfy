/** The `parent` list of `cluster_candidates`: union-find with path halving
    (`core/matcher.py`), against the partition that the joined pairs generate. */
module UnionFind {

  type Edge = (nat, nat)

  /** `parent` is a forest in which the root above `i` is `rep[i]`; `rank` falls
      along every link, which is why a walk to the root ends. */
  ghost predicate Forest(parent: seq<nat>, rep: seq<nat>, rank: seq<nat>) {
    && |parent| == |rep| == |rank|
    && forall i | 0 <= i < |parent| ::
         && parent[i] < |parent| && rep[i] < |parent|
         && rep[parent[i]] == rep[i]
         && parent[rep[i]] == rep[i] == rep[rep[i]]
         && (parent[i] != i ==> rank[parent[i]] < rank[i])
         && (parent[i] == i ==> rep[i] == i)
  }

  /** The representatives in a forest are determined by its links alone. */
  lemma {:induction false} ForestRootsUnique(
      parent: seq<nat>, rep: seq<nat>, rank: seq<nat>, rep': seq<nat>, rank': seq<nat>, i: nat)
    requires Forest(parent, rep, rank) && Forest(parent, rep', rank')
    requires i < |parent|
    ensures rep[i] == rep'[i]
    decreases rank[i]
  {
    if parent[i] != i {
      ForestRootsUnique(parent, rep, rank, rep', rank', parent[i]);
    }
  }

  /** `parent` keeps the partition whose representatives are `rep`. */
  ghost predicate Represents(parent: array<nat>, rep: seq<nat>)
    reads parent
  {
    exists rank :: Forest(parent[..], rep, rank)
  }

  method Find(parent: array<nat>, i: nat, ghost rep: seq<nat>) returns (root: nat)
    requires |rep| == parent.Length && Represents(parent, rep) && i < parent.Length
    modifies parent
    ensures Represents(parent, rep)
    ensures root == rep[i] < parent.Length
  {
    ghost var rank :| Forest(parent[..], rep, rank);
    root := FindRanked(parent, i, rep, rank);
  }

  method FindRanked(parent: array<nat>, i: nat, ghost rep: seq<nat>, ghost rank: seq<nat>) returns (root: nat)
    requires Forest(parent[..], rep, rank) && i < parent.Length
    modifies parent
    ensures Forest(parent[..], rep, rank)
    ensures root == rep[i]
  {
    var k: nat := i;
    while parent[k] != k
      invariant k < parent.Length
      invariant Forest(parent[..], rep, rank)
      invariant rep[k] == rep[i]
      decreases rank[k]
    {
      ghost var before := parent[..];
      assert Forest(before, rep, rank);
      parent[k] := parent[parent[k]];
      assert parent[..] == before[k := before[before[k]]];
      k := parent[k];
    }
    root := k;
  }

  /** The class of `j` is absorbed into the class of `i`. */
  function Absorb(rep: seq<nat>, i: nat, j: nat): (r: seq<nat>)
    requires i < |rep| && j < |rep|
    ensures |r| == |rep|
  {
    seq(|rep|, x requires 0 <= x < |rep| => if rep[x] == rep[j] then rep[i] else rep[x])
  }

  function Lifted(rep: seq<nat>, rank: seq<nat>, rootI: nat, rootJ: nat): (r: seq<nat>)
    requires |rank| == |rep| && rootI < |rep|
    ensures |r| == |rank|
  {
    seq(|rank|, x requires 0 <= x < |rank| =>
      if rep[x] == rootJ then rank[x] + rank[rootI] + 1 else rank[x])
  }

  /** The new values at `x`, read off the old ones. */
  lemma {:induction false} LinkedAt(parent: seq<nat>, rep: seq<nat>, rank: seq<nat>, i: nat, j: nat, x: nat)
    requires |parent| == |rep| == |rank| && i < |rep| && j < |rep| && x < |rep|
    requires rep[i] < |rep| && rep[j] < |rep|
    ensures parent[rep[j] := rep[i]][x] == if x == rep[j] then rep[i] else parent[x]
    ensures Absorb(rep, i, j)[x] == if rep[x] == rep[j] then rep[i] else rep[x]
    ensures Lifted(rep, rank, rep[i], rep[j])[x] == if rep[x] == rep[j] then rank[x] + rank[rep[i]] + 1 else rank[x]
  {}

  lemma {:induction false} LinkKeepsForest(parent: seq<nat>, rep: seq<nat>, rank: seq<nat>, i: nat, j: nat)
    requires Forest(parent, rep, rank)
    requires i < |parent| && j < |parent| && rep[i] != rep[j]
    ensures Forest(parent[rep[j] := rep[i]], Absorb(rep, i, j), Lifted(rep, rank, rep[i], rep[j]))
  {
    var parent', rep', rank' := parent[rep[j] := rep[i]], Absorb(rep, i, j), Lifted(rep, rank, rep[i], rep[j]);
    forall x: nat | x < |parent|
      ensures parent'[x] == if x == rep[j] then rep[i] else parent[x]
      ensures rep'[x] == if rep[x] == rep[j] then rep[i] else rep[x]
      ensures rank'[x] == if rep[x] == rep[j] then rank[x] + rank[rep[i]] + 1 else rank[x]
    {
      LinkedAt(parent, rep, rank, i, j, x);
    }
    LinkedForest(parent, rep, rank, rep[i], rep[j], parent', rep', rank');
  }

  lemma {:induction false} LinkedForest(
      parent: seq<nat>, rep: seq<nat>, rank: seq<nat>, top: nat, lower: nat,
      parent': seq<nat>, rep': seq<nat>, rank': seq<nat>)
    requires Forest(parent, rep, rank) && |parent'| == |rep'| == |rank'| == |parent|
    requires top < |parent| && lower < |parent| && top != lower && parent[top] == top && parent[lower] == lower
    requires forall x | 0 <= x < |parent| :: parent'[x] == if x == lower then top else parent[x]
    requires forall x | 0 <= x < |parent| :: rep'[x] == if rep[x] == lower then top else rep[x]
    requires forall x | 0 <= x < |parent| ::
      rank'[x] == if rep[x] == lower then rank[x] + rank[top] + 1 else rank[x]
    ensures Forest(parent', rep', rank')
  {}

  method Union(parent: array<nat>, i: nat, j: nat, ghost rep: seq<nat>)
    requires |rep| == parent.Length && Represents(parent, rep)
    requires i < parent.Length && j < parent.Length
    modifies parent
    ensures Represents(parent, Absorb(rep, i, j))
  {
    var rootI := Find(parent, i, rep);
    var rootJ := Find(parent, j, rep);
    if rootI != rootJ {
      ghost var rank :| Forest(parent[..], rep, rank);
      LinkKeepsForest(parent[..], rep, rank, i, j);
      ghost var before := parent[..];
      parent[rootJ] := rootI;
      assert parent[..] == before[rootJ := rootI];
      assert Forest(parent[..], Absorb(rep, i, j), Lifted(rep, rank, rootI, rootJ));
    } else {
      assert Absorb(rep, i, j) == rep;
    }
  }

  // ----- the partition a list of pairs generates -----

  function Singletons(n: nat): (r: seq<nat>)
    ensures |r| == n
  {
    seq(n, x => x)
  }

  predicate InRange(n: nat, edges: seq<Edge>) {
    forall e <- edges :: e.0 < n && e.1 < n
  }

  /** Roots after joining every pair of `edges` in turn. */
  function Roots(n: nat, edges: seq<Edge>): (r: seq<nat>)
    requires InRange(n, edges)
    ensures |r| == n
    decreases |edges|
  {
    if edges == [] then Singletons(n)
    else
      var e := edges[|edges| - 1];
      assert e in edges;
      Absorb(Roots(n, edges[..|edges| - 1]), e.0, e.1)
  }

  // ----- connectivity -----

  predicate Adjacent(edges: seq<Edge>, x: nat, y: nat) {
    (x, y) in edges || (y, x) in edges
  }

  predicate Walk(edges: seq<Edge>, p: seq<nat>) {
    p != [] && forall k | 0 <= k < |p| - 1 :: Adjacent(edges, p[k], p[k + 1])
  }

  predicate WalkBetween(edges: seq<Edge>, p: seq<nat>, x: nat, y: nat) {
    Walk(edges, p) && p[0] == x && p[|p| - 1] == y
  }

  ghost predicate Connected(edges: seq<Edge>, x: nat, y: nat) {
    exists p :: WalkBetween(edges, p, x, y)
  }

  lemma {:induction false} ConnectedReflexive(edges: seq<Edge>, x: nat)
    ensures Connected(edges, x, x)
  {
    assert WalkBetween(edges, [x], x, x);
  }

  lemma {:induction false} ConnectedAdjacent(edges: seq<Edge>, x: nat, y: nat)
    requires Adjacent(edges, x, y)
    ensures Connected(edges, x, y)
  {
    assert WalkBetween(edges, [x, y], x, y);
  }

  lemma {:induction false} ConnectedTransitive(edges: seq<Edge>, x: nat, y: nat, z: nat)
    requires Connected(edges, x, y) && Connected(edges, y, z)
    ensures Connected(edges, x, z)
  {
    var p :| WalkBetween(edges, p, x, y);
    var q :| WalkBetween(edges, q, y, z);
    var r := p + q[1..];
    forall k | 0 <= k < |r| - 1
      ensures Adjacent(edges, r[k], r[k + 1])
    {
      if k >= |p| - 1 {
        var m := k - (|p| - 1);
        assert r[k] == q[m] && r[k + 1] == q[m + 1];
      }
    }
    assert WalkBetween(edges, r, x, z);
  }

  lemma {:induction false} ConnectedMonotone(edges: seq<Edge>, more: seq<Edge>, x: nat, y: nat)
    requires Connected(edges, x, y)
    requires forall e <- edges :: e in more
    ensures Connected(more, x, y)
  {
    var p :| WalkBetween(edges, p, x, y);
    assert WalkBetween(more, p, x, y);
  }

  // ----- the roots are the connected components -----

  lemma {:induction false} EdgeJoins(n: nat, edges: seq<Edge>, e: Edge)
    requires InRange(n, edges) && e in edges
    ensures Roots(n, edges)[e.0] == Roots(n, edges)[e.1]
    decreases |edges|
  {
    var last := |edges| - 1;
    assert edges[last] in edges;
    if e != edges[last] {
      EdgeJoins(n, edges[..last], e);
    }
  }

  lemma {:induction false} WalkKeepsRoot(n: nat, edges: seq<Edge>, p: seq<nat>)
    requires InRange(n, edges) && Walk(edges, p) && forall k | 0 <= k < |p| :: p[k] < n
    ensures Roots(n, edges)[p[0]] == Roots(n, edges)[p[|p| - 1]]
    decreases |p|
  {
    if |p| > 1 {
      assert Adjacent(edges, p[0], p[1]);
      EdgeJoins(n, edges, if (p[0], p[1]) in edges then (p[0], p[1]) else (p[1], p[0]));
      assert forall k | 0 <= k < |p| - 2 :: Adjacent(edges, p[1..][k], p[k + 2]);
      WalkKeepsRoot(n, edges, p[1..]);
    }
  }

  lemma {:induction false} SameRootConnected(n: nat, edges: seq<Edge>, x: nat, y: nat)
    requires InRange(n, edges) && x < n && y < n
    requires Roots(n, edges)[x] == Roots(n, edges)[y]
    ensures Connected(edges, x, y)
    decreases |edges|, 1
  {
    if edges == [] {
      ConnectedReflexive(edges, x);
    } else {
      var last := |edges| - 1;
      var rest, e := edges[..last], edges[last];
      assert e in edges;
      var rep := Roots(n, rest);
      if rep[x] == rep[y] {
        SameRootConnected(n, rest, x, y);
        ConnectedMonotone(rest, edges, x, y);
      } else {
        if rep[x] == rep[e.1] {
          AcrossTheEdge(n, edges, x, e.1, e.0, y);
        } else {
          AcrossTheEdge(n, edges, x, e.0, e.1, y);
        }
      }
    }
  }

  lemma {:induction false} AcrossTheEdge(n: nat, edges: seq<Edge>, x: nat, a: nat, b: nat, y: nat)
    requires InRange(n, edges) && edges != [] && x < n && y < n && a < n && b < n
    requires edges[|edges| - 1] in {(a, b), (b, a)}
    requires Roots(n, edges[..|edges| - 1])[x] == Roots(n, edges[..|edges| - 1])[a]
    requires Roots(n, edges[..|edges| - 1])[y] == Roots(n, edges[..|edges| - 1])[b]
    ensures Connected(edges, x, y)
    decreases |edges|, 0
  {
    var rest := edges[..|edges| - 1];
    SameRootConnected(n, rest, x, a);
    SameRootConnected(n, rest, b, y);
    ConnectedMonotone(rest, edges, x, a);
    ConnectedMonotone(rest, edges, b, y);
    assert edges[|edges| - 1] in edges;
    ConnectedAdjacent(edges, a, b);
    ConnectedTransitive(edges, x, a, b);
    ConnectedTransitive(edges, x, b, y);
  }

  lemma {:induction false} WalkStaysInRange(n: nat, edges: seq<Edge>, p: seq<nat>)
    requires InRange(n, edges) && Walk(edges, p) && p[0] < n
    ensures forall k | 0 <= k < |p| :: p[k] < n
  {
    forall k | 0 <= k < |p|
      ensures p[k] < n
    {
      if k > 0 {
        assert Adjacent(edges, p[k - 1], p[k - 1 + 1]);
      }
    }
  }

  /** Two indices have one representative exactly when a walk over the pairs joins them. */
  lemma {:induction false} RootsAreComponents(n: nat, edges: seq<Edge>, x: nat, y: nat)
    requires InRange(n, edges) && x < n && y < n
    ensures Roots(n, edges)[x] == Roots(n, edges)[y] <==> Connected(edges, x, y)
  {
    if Roots(n, edges)[x] == Roots(n, edges)[y] {
      SameRootConnected(n, edges, x, y);
    }
    if Connected(edges, x, y) {
      var p :| WalkBetween(edges, p, x, y);
      WalkStaysInRange(n, edges, p);
      WalkKeepsRoot(n, edges, p);
    }
  }
}
