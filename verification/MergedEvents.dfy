/** What merging by score implies for the events that come out: one class, one
    direction, and a bounded hull exactly as far as unplaced reports bridge nothing. */
module MergedEvents {
  import opened Wrappers
  import opened Floats
  import opened Scoring
  import opened UnionFind
  import opened Clustering
  import opened ClusterLaws

  /** What `cluster_candidates` returns. */
  function Returned(groups: Groups, c: seq<Candidate>): seq<Cluster> {
    SortByStart(c, ClustersOf(ScorerFor(groups), c))
  }

  predicate AllConflated(c: seq<Candidate>) {
    forall i | 0 <= i < |c| :: Conflated(c[i])
  }

  function West(c: Candidate): real
    requires Resolved(c)
  {
    MinReal(c.begin.r, c.end.r)
  }

  function East(c: Candidate): real
    requires Resolved(c)
  {
    MaxReal(c.begin.r, c.end.r)
  }

  // ----- facts carried along merge walks -----

  lemma {:induction false} MergingPair(
      groups: Groups, c: seq<Candidate>, i: nat, j: nat) returns (a: Candidate, b: Candidate)
    requires Merges(ScorerFor(groups), c, i, j)
    ensures i < |c| && j < |c| && Decide(groups, a, b) == Merge
    ensures (a == c[i] && b == c[j]) || (a == c[j] && b == c[i])
  {
    if i < j {
      a, b := c[i], c[j];
    } else {
      a, b := c[j], c[i];
    }
  }

  predicate Definite(d: Direction) {
    d == EB || d == WB
  }

  lemma {:induction false} WalkAgrees(groups: Groups, c: seq<Candidate>, p: seq<nat>, i: nat, j: nat)
    requires MergeWalk(ScorerFor(groups), c, p, i, j) && i < |c| && j < |c|
    requires forall k | 0 <= k < |p| :: p[k] < |c|
    ensures c[i].eventClass == c[j].eventClass
    ensures (forall k | 0 <= k < |p| :: Definite(c[p[k]].direction)) ==> c[i].direction == c[j].direction
    decreases |p|
  {
    if |p| > 1 {
      assert Merges(ScorerFor(groups), c, p[0], p[0 + 1]);
      var a, b := MergingPair(groups, c, p[0], p[1]);
      MergeAgrees(groups, a, b);
      var rest := p[1..];
      assert forall k | 0 <= k < |rest| :: rest[k] == p[k + 1];
      assert MergeWalk(ScorerFor(groups), c, rest, p[1], j);
      WalkAgrees(groups, c, rest, p[1], j);
    }
  }

  lemma {:induction false} WalkInComponent(scorer: Scorer, c: seq<Candidate>, p: seq<nat>, i: nat, j: nat, k: nat)
    requires MergeWalk(scorer, c, p, i, j) && k < |p| && i < |c|
    ensures p[k] < |c| && MergeConnected(scorer, c, i, p[k])
  {
    if k > 0 {
      assert Merges(scorer, c, p[k - 1], p[k - 1 + 1]);
    }
    assert MergeWalk(scorer, c, p[..k + 1], i, p[k]);
  }

  lemma {:induction false} WalkInCluster(
      scorer: Scorer, c: seq<Candidate>, cluster: Cluster, p: seq<nat>, i: nat, j: nat)
    requires IsComponent(scorer, c, cluster) && i in cluster.members && MergeWalk(scorer, c, p, i, j)
    ensures WalkIn(scorer, c, cluster.members, p)
  {
    forall k: nat | k < |p|
      ensures p[k] < |c| && p[k] in cluster.members
    {
      WalkInComponent(scorer, c, p, i, j, k);
    }
  }

  /** Members of one cluster share a class; if none is BOTH or UNKNOWN they share a
      direction. */
  lemma {:induction false} ClusterAgrees(groups: Groups, c: seq<Candidate>, cluster: Cluster, i: nat, j: nat)
    requires IsComponent(ScorerFor(groups), c, cluster) && i in cluster.members && j in cluster.members
    ensures i < |c| && j < |c| && c[i].eventClass == c[j].eventClass
    ensures (forall k <- cluster.members :: k < |c| && Definite(c[k].direction)) ==> c[i].direction == c[j].direction
  {
    var scorer := ScorerFor(groups);
    var p :| MergeWalk(scorer, c, p, i, j);
    WalkInCluster(scorer, c, cluster, p, i, j);
    WalkAgrees(groups, c, p, i, j);
  }

  // ----- lengths and sizes of classes -----

  /** Length of a placed extent; an unplaced one has none. */
  function Span(c: Candidate): (miles: real)
    ensures miles >= 0.0
  {
    if Resolved(c) then East(c) - West(c) else 0.0
  }

  function PlacedMiles(c: seq<Candidate>, members: seq<nat>): real {
    if members == [] then 0.0
    else
      var m := members[|members| - 1];
      PlacedMiles(c, members[..|members| - 1]) + (if m < |c| then Span(c[m]) else 0.0)
  }

  function PlacedCount(c: seq<Candidate>, members: seq<nat>): nat {
    if members == [] then 0
    else
      var m := members[|members| - 1];
      PlacedCount(c, members[..|members| - 1]) + (if m < |c| && Resolved(c[m]) then 1 else 0)
  }

  /** The same two sums over the first `k` candidates with the given root. */
  function ClassMiles(c: seq<Candidate>, rep: seq<nat>, root: nat, k: nat): (miles: real)
    requires |rep| == |c| && k <= |c|
    ensures miles >= 0.0
  {
    if k == 0 then 0.0
    else ClassMiles(c, rep, root, k - 1) + (if rep[k - 1] == root then Span(c[k - 1]) else 0.0)
  }

  function ClassSize(c: seq<Candidate>, rep: seq<nat>, root: nat, k: nat): (size: nat)
    requires |rep| == |c| && k <= |c|
    ensures size <= k
  {
    if k == 0 then 0
    else ClassSize(c, rep, root, k - 1) + (if rep[k - 1] == root && Resolved(c[k - 1]) then 1 else 0)
  }

  lemma {:induction false} MembersNext(rep: seq<nat>, root: nat, k: nat)
    requires 0 < k <= |rep|
    ensures var before := MembersBelow(rep, root, k - 1);
            MembersBelow(rep, root, k) == if rep[k - 1] == root then before + [k - 1] else before
  {
    assert MembersBelow(rep, root, k - 1) + [] == MembersBelow(rep, root, k - 1);
  }

  lemma {:induction false} OneMoreMember(c: seq<Candidate>, members: seq<nat>, m: nat)
    requires m < |c|
    ensures PlacedMiles(c, members + [m]) == PlacedMiles(c, members) + Span(c[m])
    ensures PlacedCount(c, members + [m]) == PlacedCount(c, members) + (if Resolved(c[m]) then 1 else 0)
  {
    assert (members + [m])[..|members|] == members;
  }

  lemma {:induction false} SumsOverMembers(c: seq<Candidate>, rep: seq<nat>, root: nat, k: nat)
    requires |rep| == |c| && k <= |c|
    ensures PlacedMiles(c, MembersBelow(rep, root, k)) == ClassMiles(c, rep, root, k)
    ensures PlacedCount(c, MembersBelow(rep, root, k)) == ClassSize(c, rep, root, k)
    decreases k
  {
    if k > 0 {
      SumsOverMembers(c, rep, root, k - 1);
      MembersNext(rep, root, k);
      OneMoreMember(c, MembersBelow(rep, root, k - 1), k - 1);
    }
  }

  lemma {:induction false} SizePositive(c: seq<Candidate>, rep: seq<nat>, x: nat, k: nat)
    requires |rep| == |c| && x < k <= |c| && Resolved(c[x])
    ensures ClassSize(c, rep, rep[x], k) >= 1
    decreases k
  {
    if x < k - 1 {
      SizePositive(c, rep, x, k - 1);
    }
  }

  /** A class that lies inside another is no longer and no larger. */
  lemma {:induction false} CoarserClass(c: seq<Candidate>, fine: seq<nat>, rep: seq<nat>, x: nat, k: nat)
    requires |fine| == |rep| == |c| && x < |c| && k <= |c|
    requires forall y | 0 <= y < |c| && fine[y] == fine[x] :: rep[y] == rep[x]
    ensures ClassMiles(c, fine, fine[x], k) <= ClassMiles(c, rep, rep[x], k)
    ensures ClassSize(c, fine, fine[x], k) <= ClassSize(c, rep, rep[x], k)
    decreases k
  {
    if k > 0 {
      CoarserClass(c, fine, rep, x, k - 1);
    }
  }

  /** Absorbing one class into another adds their lengths and sizes and leaves the
      rest alone. */
  lemma {:induction false} AbsorbAdds(c: seq<Candidate>, rep: seq<nat>, i: nat, j: nat, root: nat, k: nat)
    requires |rep| == |c| && k <= |c| && i < |c| && j < |c| && rep[i] != rep[j]
    ensures var rep' := Absorb(rep, i, j);
            && (root == rep[i] ==>
                  && ClassMiles(c, rep', root, k) == ClassMiles(c, rep, rep[i], k) + ClassMiles(c, rep, rep[j], k)
                  && ClassSize(c, rep', root, k) == ClassSize(c, rep, rep[i], k) + ClassSize(c, rep, rep[j], k))
            && (root != rep[i] && root != rep[j] ==>
                  && ClassMiles(c, rep', root, k) == ClassMiles(c, rep, root, k)
                  && ClassSize(c, rep', root, k) == ClassSize(c, rep, root, k))
    decreases k
  {
    if k > 0 {
      AbsorbAdds(c, rep, i, j, root, k - 1);
    }
  }

  // ----- joining near extents -----

  /** No two placed members of a class reach further apart than the class's own length
      plus the slack its joins allow. */
  ghost predicate HullBounded(c: seq<Candidate>, rep: seq<nat>)
    requires |rep| == |c|
  {
    forall x, y | 0 <= x < |c| && 0 <= y < |c| && rep[x] == rep[y] && Resolved(c[x]) && Resolved(c[y]) ::
      Within(c, rep, x, y)
  }

  predicate Within(c: seq<Candidate>, rep: seq<nat>, x: nat, y: nat)
    requires |rep| == |c| && x < |c| && y < |c| && Resolved(c[x]) && Resolved(c[y])
  {
    East(c[x]) - West(c[y])
    <= ClassMiles(c, rep, rep[x], |c|) + SPATIAL_TOLERANCE_MILES * (ClassSize(c, rep, rep[x], |c|) - 1) as real
  }

  predicate NearPair(c: seq<Candidate>, e: Edge) {
    && e.0 < |c| && e.1 < |c| && Resolved(c[e.0]) && Resolved(c[e.1])
    && Gap(c[e.0], c[e.1]) <= SPATIAL_TOLERANCE_MILES
  }

  lemma {:induction false} AbsorbKeepsHull(c: seq<Candidate>, rep: seq<nat>, i: nat, j: nat)
    requires |rep| == |c| && NearPair(c, (i, j)) && HullBounded(c, rep)
    ensures HullBounded(c, Absorb(rep, i, j))
  {
    if rep[i] == rep[j] {
      assert Absorb(rep, i, j) == rep;
    } else {
      var rep' := Absorb(rep, i, j);
      forall x, y | 0 <= x < |c| && 0 <= y < |c| && rep'[x] == rep'[y] && Resolved(c[x]) && Resolved(c[y])
        ensures Within(c, rep', x, y)
      {
        AbsorbAdds(c, rep, i, j, rep'[x], |c|);
        if rep'[x] == rep[i] {
          AcrossTheJoin(c, rep, i, j, x, y);
        } else {
          assert Within(c, rep, x, y);
        }
      }
    }
  }

  lemma {:induction false} AcrossTheJoin(c: seq<Candidate>, rep: seq<nat>, i: nat, j: nat, x: nat, y: nat)
    requires |rep| == |c| && x < |c| && y < |c| && Resolved(c[x]) && Resolved(c[y])
    requires NearPair(c, (i, j)) && HullBounded(c, rep) && rep[i] != rep[j]
    requires rep[x] in {rep[i], rep[j]} && rep[y] in {rep[i], rep[j]}
    ensures East(c[x]) - West(c[y])
         <= ClassMiles(c, rep, rep[i], |c|) + ClassMiles(c, rep, rep[j], |c|)
            + SPATIAL_TOLERANCE_MILES * (ClassSize(c, rep, rep[i], |c|) + ClassSize(c, rep, rep[j], |c|) - 1) as real
  {
    SizePositive(c, rep, i, |c|);
    SizePositive(c, rep, j, |c|);
    if rep[x] == rep[y] {
      assert Within(c, rep, x, y);
    } else if rep[x] == rep[i] {
      assert Within(c, rep, x, i) && Within(c, rep, j, y);
      assert West(c[i]) - East(c[j]) <= SPATIAL_TOLERANCE_MILES;
    } else {
      assert Within(c, rep, x, j) && Within(c, rep, i, y);
      assert West(c[j]) - East(c[i]) <= SPATIAL_TOLERANCE_MILES;
    }
  }

  lemma {:induction false} SingletonSums(c: seq<Candidate>, x: nat, k: nat)
    requires x < |c| && k <= |c| && Resolved(c[x])
    ensures ClassMiles(c, Singletons(|c|), x, k) == if x < k then Span(c[x]) else 0.0
    ensures ClassSize(c, Singletons(|c|), x, k) == if x < k then 1 else 0
    decreases k
  {
    if k > 0 {
      SingletonSums(c, x, k - 1);
    }
  }

  lemma {:induction false} RootsBoundHull(c: seq<Candidate>, edges: seq<Edge>)
    requires InRange(|c|, edges) && forall e <- edges :: NearPair(c, e)
    ensures HullBounded(c, Roots(|c|, edges))
    decreases |edges|
  {
    if edges == [] {
      forall x | 0 <= x < |c| && Resolved(c[x])
        ensures Within(c, Singletons(|c|), x, x)
      {
        SingletonSums(c, x, |c|);
      }
    } else {
      var last := |edges| - 1;
      RootsBoundHull(c, edges[..last]);
      assert edges[last] in edges;
      AbsorbKeepsHull(c, Roots(|c|, edges[..last]), edges[last].0, edges[last].1);
    }
  }

  // ----- unplaced reports -----

  /** The merges between placed candidates. */
  function PlacedEdges(c: seq<Candidate>, edges: seq<Edge>): (r: seq<Edge>)
    requires InRange(|c|, edges)
    ensures forall e :: e in r <==> e in edges && Resolved(c[e.0]) && Resolved(c[e.1])
    decreases |edges|
  {
    if edges == [] then []
    else
      var last := |edges| - 1;
      var e: Edge := edges[last];
      assert edges == edges[..last] + [e];
      PlacedEdges(c, edges[..last]) + (if Resolved(c[e.0]) && Resolved(c[e.1]) then [e] else [])
  }

  /** An unplaced report that two placed ones merge with. */
  predicate Bridges(groups: Groups, c: seq<Candidate>, a: nat, b: nat, u: nat) {
    && a < u && b < u < |c| && a != b
    && Resolved(c[a]) && Resolved(c[b]) && Unresolved(c[u])
    && JoinsUnplaced(groups, c[a], c[u]) && JoinsUnplaced(groups, c[b], c[u])
  }

  predicate NoBridgeIn(groups: Groups, c: seq<Candidate>, members: seq<nat>) {
    forall a, b, u | a in members && b in members && u in members :: !Bridges(groups, c, a, b, u)
  }

  function MergeEdges(groups: Groups, c: seq<Candidate>): (r: seq<Edge>)
    ensures InRange(|c|, r)
  {
    EdgesOf(|c|, Joins(ScorerFor(groups), c))
  }

  lemma {:induction false} MergeEdgesNear(groups: Groups, c: seq<Candidate>)
    ensures forall e <- PlacedEdges(c, MergeEdges(groups, c)) :: NearPair(c, e)
  {
    forall e <- PlacedEdges(c, MergeEdges(groups, c))
      ensures NearPair(c, e)
    {
      EdgeIffJoin(ScorerFor(groups), c, e.0, e.1);
      MergeIsNear(groups, c[e.0], c[e.1]);
    }
  }

  /** A step of a walk: between placed candidates it is an edge; onto an unplaced one it
      comes from a placed candidate earlier in the feed. */
  lemma {:induction false} StepKinds(groups: Groups, c: seq<Candidate>, i: nat, j: nat)
    requires AllConflated(c) && Merges(ScorerFor(groups), c, i, j)
    ensures i < |c| && j < |c|
    ensures Resolved(c[i]) && Resolved(c[j]) ==> Adjacent(PlacedEdges(c, MergeEdges(groups, c)), i, j)
    ensures !Resolved(c[j]) ==> i < j && Resolved(c[i]) && JoinsUnplaced(groups, c[i], c[j])
    ensures !Resolved(c[i]) ==> j < i && Resolved(c[j]) && JoinsUnplaced(groups, c[j], c[i])
  {
    AdjacentIffMerges(ScorerFor(groups), c, i, j);
    if !Resolved(c[j]) {
      UnplacedMergesIff(groups, c[i], c[j]);
    }
    if !Resolved(c[i]) {
      UnplacedMergesIff(groups, c[j], c[i]);
    }
  }

  predicate WalkIn(scorer: Scorer, c: seq<Candidate>, members: seq<nat>, p: seq<nat>) {
    && p != []
    && (forall k | 0 <= k < |p| :: p[k] < |c| && p[k] in members)
    && forall k | 0 <= k < |p| - 1 :: Merges(scorer, c, p[k], p[k + 1])
  }

  lemma {:induction false} WalkRest(scorer: Scorer, c: seq<Candidate>, members: seq<nat>, p: seq<nat>, n: nat)
    requires WalkIn(scorer, c, members, p) && n < |p|
    ensures WalkIn(scorer, c, members, p[n..]) && p[n] < |c| && p[n] in members
    ensures n > 0 ==> Merges(scorer, c, p[n - 1], p[n])
  {
    assert n > 0 ==> Merges(scorer, c, p[n - 1], p[n - 1 + 1]);
    forall k | 0 <= k < |p[n..]| - 1
      ensures Merges(scorer, c, p[n..][k], p[n..][k + 1])
    {
      assert Merges(scorer, c, p[n + k], p[n + k + 1]);
    }
  }

  /** Without bridges a walk between placed candidates can keep to placed candidates. */
  lemma {:induction false} WalkAvoidsUnplaced(groups: Groups, c: seq<Candidate>, members: seq<nat>, p: seq<nat>)
    requires AllConflated(c) && NoBridgeIn(groups, c, members) && WalkIn(ScorerFor(groups), c, members, p)
    requires Resolved(c[p[0]]) && Resolved(c[p[|p| - 1]])
    ensures Connected(PlacedEdges(c, MergeEdges(groups, c)), p[0], p[|p| - 1])
    decreases |p|
  {
    var edges := PlacedEdges(c, MergeEdges(groups, c));
    if |p| == 1 {
      ConnectedReflexive(edges, p[0]);
    } else {
      WalkRest(ScorerFor(groups), c, members, p, 1);
      StepKinds(groups, c, p[0], p[1]);
      if Resolved(c[p[1]]) {
        WalkAvoidsUnplaced(groups, c, members, p[1..]);
        ConnectedAdjacent(edges, p[0], p[1]);
        ConnectedTransitive(edges, p[0], p[1], p[|p| - 1]);
      } else {
        WalkRest(ScorerFor(groups), c, members, p, 2);
        BackTheSameWay(groups, c, members, p[0], p[1], p[2]);
        WalkAvoidsUnplaced(groups, c, members, p[2..]);
      }
    }
  }

  lemma {:induction false} BackTheSameWay(groups: Groups, c: seq<Candidate>, members: seq<nat>, i: nat, u: nat, j: nat)
    requires AllConflated(c) && NoBridgeIn(groups, c, members)
    requires i in members && u in members && j in members && u < |c| && !Resolved(c[u])
    requires Merges(ScorerFor(groups), c, i, u) && Merges(ScorerFor(groups), c, u, j)
    ensures i == j
  {
    StepKinds(groups, c, i, u);
    StepKinds(groups, c, u, j);
    assert !Bridges(groups, c, i, j, u);
  }

  // ----- the hull -----

  /** Two placed members of a cluster, no further apart than the lengths of its placed
      members plus half a mile for each join among them. */
  predicate InHull(c: seq<Candidate>, members: seq<nat>, x: nat, y: nat)
    requires x < |c| && y < |c| && Resolved(c[x]) && Resolved(c[y])
  {
    East(c[x]) - West(c[y])
    <= PlacedMiles(c, members) + SPATIAL_TOLERANCE_MILES * (PlacedCount(c, members) - 1) as real
  }

  lemma {:induction false} ReturnedCluster(groups: Groups, c: seq<Candidate>, cluster: Cluster) returns (root: nat)
    requires cluster in Returned(groups, c)
    ensures IsComponent(ScorerFor(groups), c, cluster)
    ensures var rep := RootOf(ScorerFor(groups), c); cluster.members == MembersBelow(rep, root, |rep|)
  {
    var scorer := ScorerFor(groups);
    ReturnedClustersPartition(scorer, c);
    var unsorted := ClustersOf(scorer, c);
    assert cluster in multiset(Returned(groups, c));
    assert cluster in unsorted;
    var k :| 0 <= k < |unsorted| && unsorted[k] == cluster;
    root := RootsBelow(RootOf(scorer, c), |c|)[k];
  }

  /** The hull of a cluster is bounded as long as no unplaced member bridges two placed
      ones, whatever else is in the feed; a cluster without unplaced members always is. */
  lemma {:induction false} ClusterHull(groups: Groups, c: seq<Candidate>, cluster: Cluster, x: nat, y: nat)
    requires AllConflated(c) && cluster in Returned(groups, c) && NoBridgeIn(groups, c, cluster.members)
    requires x in cluster.members && y in cluster.members
    ensures x < |c| && y < |c|
    ensures Resolved(c[x]) && Resolved(c[y]) ==> InHull(c, cluster.members, x, y)
  {
    var scorer := ScorerFor(groups);
    var root := ReturnedCluster(groups, c, cluster);
    if Resolved(c[x]) && Resolved(c[y]) {
      var p :| MergeWalk(scorer, c, p, x, y);
      WalkInCluster(scorer, c, cluster, p, x, y);
      WalkAvoidsUnplaced(groups, c, cluster.members, p);
      MembersBelowFacts(RootOf(scorer, c), root, |c|);
      PlacedHull(groups, c, x, y);
      SumsOverMembers(c, RootOf(scorer, c), root, |c|);
    }
  }

  /** Placed candidates that placed candidates connect. */
  lemma {:induction false} PlacedHull(groups: Groups, c: seq<Candidate>, x: nat, y: nat)
    requires x < |c| && y < |c| && Resolved(c[x]) && Resolved(c[y])
    requires Connected(PlacedEdges(c, MergeEdges(groups, c)), x, y)
    ensures Within(c, RootOf(ScorerFor(groups), c), x, y)
  {
    var all := MergeEdges(groups, c);
    var edges := PlacedEdges(c, all);
    assert InRange(|c|, edges);
    var fine, rep := Roots(|c|, edges), RootOf(ScorerFor(groups), c);
    MergeEdgesNear(groups, c);
    RootsBoundHull(c, edges);
    RootsAreComponents(|c|, edges, x, y);
    assert Within(c, fine, x, y);
    forall z | 0 <= z < |c| && fine[z] == fine[x]
      ensures rep[z] == rep[x]
    {
      RootsAreComponents(|c|, edges, z, x);
      ConnectedMonotone(edges, all, z, x);
      RootsAreComponents(|c|, all, z, x);
    }
    CoarserClass(c, fine, rep, x, |c|);
  }

  // ----- exactly when -----

  ghost predicate HullsHold(groups: Groups, c: seq<Candidate>) {
    forall cluster, x, y |
      && cluster in Returned(groups, c) && x in cluster.members && y in cluster.members
      && x < |c| && y < |c| && Resolved(c[x]) && Resolved(c[y]) ::
      InHull(c, cluster.members, x, y)
  }

  predicate NoBridge(groups: Groups, c: seq<Candidate>) {
    forall a, b, u | 0 <= a < |c| && 0 <= b < |c| && 0 <= u < |c| :: !Bridges(groups, c, a, b, u)
  }

  predicate Moved(a: Candidate, b: Candidate) {
    if Resolved(a) then Resolved(b) && b == a.(begin := b.begin, end := b.end) else b == a
  }

  /** The same reports with their placed extents anywhere. */
  predicate Elsewhere(c: seq<Candidate>, c': seq<Candidate>) {
    |c'| == |c| && forall i | 0 <= i < |c| :: Moved(c[i], c'[i])
  }

  /** Point extents at mile 0, all but one. */
  function FarApart(c: seq<Candidate>, a: nat): (r: seq<Candidate>)
    ensures |r| == |c|
  {
    seq(|c|, k requires 0 <= k < |c| => PointAt(c[k], if k == a then |c| as real + 1.0 else 0.0))
  }

  function PointAt(c: Candidate, measure: real): Candidate {
    if Resolved(c) then c.(begin := Num(measure), end := Num(measure)) else c
  }

  lemma {:induction false} PointsHaveNoLength(c: seq<Candidate>, members: seq<nat>)
    requires forall k | 0 <= k < |c| && Resolved(c[k]) :: c[k].begin == c[k].end
    ensures PlacedMiles(c, members) == 0.0
  {
    if members != [] {
      PointsHaveNoLength(c, members[..|members| - 1]);
    }
  }

  lemma {:induction false} BridgeConnects(groups: Groups, c: seq<Candidate>, a: nat, b: nat, u: nat)
    requires Bridges(groups, c, a, b, u)
    ensures MergeConnected(ScorerFor(groups), c, a, b)
  {
    UnplacedMergesIff(groups, c[a], c[u]);
    UnplacedMergesIff(groups, c[b], c[u]);
    assert MergeWalk(ScorerFor(groups), c, [a, u, b], a, b);
  }

  lemma {:induction false} FarIsElsewhere(c: seq<Candidate>, a: nat)
    ensures Elsewhere(c, FarApart(c, a))
  {}

  lemma {:induction false} SameTest(groups: Groups, a: Candidate, u: Candidate, a': Candidate)
    requires Moved(a, a')
    ensures JoinsUnplaced(groups, a', u) == JoinsUnplaced(groups, a, u)
  {}

  /** Bridging does not look at places. */
  lemma {:induction false} BridgesAnywhere(
      groups: Groups, c: seq<Candidate>, c': seq<Candidate>, a: nat, b: nat, u: nat)
    requires Elsewhere(c, c')
    ensures Bridges(groups, c', a, b, u) == Bridges(groups, c, a, b, u)
  {
    if a < |c| && b < |c| && u < |c| && Unresolved(c[u]) {
      assert Moved(c[a], c'[a]) && Moved(c[b], c'[b]) && Moved(c[u], c'[u]);
      SameTest(groups, c[a], c[u], c'[a]);
      SameTest(groups, c[b], c[u], c'[b]);
    }
  }

  lemma {:induction false} FarHull(c: seq<Candidate>, rep: seq<nat>, root: nat, a: nat, b: nat)
    requires |rep| == |c| && a < |c| && b < |c| && a != b && Resolved(c[a]) && Resolved(c[b])
    ensures !InHull(FarApart(c, a), MembersBelow(rep, root, |c|), a, b)
  {
    var c', members := FarApart(c, a), MembersBelow(rep, root, |c|);
    PointsHaveNoLength(c', members);
    SumsOverMembers(c', rep, root, |c'|);
    assert East(c'[a]) - West(c'[b]) == |c| as real + 1.0;
  }

  /** A bridge holds wherever its ends are, so they can be moved out of any bound. */
  lemma {:induction false} BridgeBreaksHull(groups: Groups, c: seq<Candidate>, a: nat, b: nat, u: nat)
    requires Bridges(groups, c, a, b, u)
    ensures Elsewhere(c, FarApart(c, a)) && !HullsHold(groups, FarApart(c, a))
  {
    var c' := FarApart(c, a);
    FarIsElsewhere(c, a);
    BridgesAnywhere(groups, c, c', a, b, u);
    BridgeConnects(groups, c', a, b, u);
    var cluster := ClusterHolding(groups, c', a, b);
    var root := ReturnedCluster(groups, c', cluster);
    FarHull(c, RootOf(ScorerFor(groups), c'), root, a, b);
  }

  lemma {:induction false} ClusterHolding(groups: Groups, c: seq<Candidate>, a: nat, b: nat) returns (cluster: Cluster)
    requires a < |c| && b < |c| && MergeConnected(ScorerFor(groups), c, a, b)
    ensures cluster in Returned(groups, c) && a in cluster.members && b in cluster.members
  {
    ReturnedClustersPartition(ScorerFor(groups), c);
    TogetherIffConnected(ScorerFor(groups), c, Returned(groups, c), a, b);
    cluster :| cluster in Returned(groups, c) && a in cluster.members && b in cluster.members;
  }

  /** The hull bound holds wherever the placed reports lie exactly when no unplaced report
      merges with two placed ones before it. */
  lemma {:induction false} HullsHoldIff(groups: Groups, c: seq<Candidate>)
    requires AllConflated(c)
    ensures (forall c' | Elsewhere(c, c') :: HullsHold(groups, c')) <==> NoBridge(groups, c)
  {
    if NoBridge(groups, c) {
      forall c' | Elsewhere(c, c')
        ensures HullsHold(groups, c')
      {
        NoBridgeHolds(groups, c, c');
      }
    } else {
      var a, b, u :| 0 <= a < |c| && 0 <= b < |c| && 0 <= u < |c| && Bridges(groups, c, a, b, u);
      BridgeBreaksHull(groups, c, a, b, u);
    }
  }

  lemma {:induction false} StaysConflated(c: seq<Candidate>, c': seq<Candidate>)
    requires AllConflated(c) && Elsewhere(c, c')
    ensures AllConflated(c')
  {
    assert forall i | 0 <= i < |c| :: Moved(c[i], c'[i]);
  }

  lemma {:induction false} NoBridgeHolds(groups: Groups, c: seq<Candidate>, c': seq<Candidate>)
    requires AllConflated(c) && NoBridge(groups, c) && Elsewhere(c, c')
    ensures HullsHold(groups, c')
  {
    forall a: nat, b: nat, u: nat
      ensures !Bridges(groups, c', a, b, u)
    {
      BridgesAnywhere(groups, c, c', a, b, u);
    }
    StaysConflated(c, c');
    forall cluster, x, y |
      && cluster in Returned(groups, c') && x in cluster.members && y in cluster.members
      && x < |c'| && y < |c'| && Resolved(c'[x]) && Resolved(c'[y])
      ensures InHull(c', cluster.members, x, y)
    {
      ClusterHull(groups, c', cluster, x, y);
    }
  }

  /** Two incidents at the given distance, and one without a place. */
  function BridgedFeed(miles: real): seq<Candidate> {
    [Candidate(Incident, Num(0.0), Num(0.0), EB, Some(0.0), None, "a"),
     Candidate(Incident, Num(miles), Num(miles), EB, Some(0.0), None, "b"),
     Candidate(Incident, NaN, NaN, EB, Some(0.0), None, "u")]
  }

  /** One unplaced report makes one event of two incidents any distance apart. */
  lemma {:induction false} UnplacedReportFuses(groups: Groups, miles: real)
    ensures Together(Returned(groups, BridgedFeed(miles)), 0, 1)
    ensures East(BridgedFeed(miles)[1]) - West(BridgedFeed(miles)[0]) == miles
  {
    var c := BridgedFeed(miles);
    assert Bridges(groups, c, 0, 1, 2);
    BridgeConnects(groups, c, 0, 1, 2);
    ReturnedClustersPartition(ScorerFor(groups), c);
    TogetherIffConnected(ScorerFor(groups), c, Returned(groups, c), 0, 1);
  }
}
