/** What the clusters of `cluster_candidates` are: the connected components of the
    "decision is merge" graph, whatever order the candidates arrive in. */
module ClusterLaws {
  import opened Floats
  import opened Scoring
  import opened UnionFind
  import opened Clustering
  import Sorting

  // ----- the merge graph -----

  /** The earlier candidate of a pair is always scored first. */
  predicate Merges(scorer: Scorer, c: seq<Candidate>, i: nat, j: nat) {
    || (i < j < |c| && scorer(c[i], c[j]).decision == Merge)
    || (j < i < |c| && scorer(c[j], c[i]).decision == Merge)
  }

  predicate MergeWalk(scorer: Scorer, c: seq<Candidate>, p: seq<nat>, i: nat, j: nat) {
    && p != [] && p[0] == i && p[|p| - 1] == j
    && forall k | 0 <= k < |p| - 1 :: Merges(scorer, c, p[k], p[k + 1])
  }

  ghost predicate MergeConnected(scorer: Scorer, c: seq<Candidate>, i: nat, j: nat) {
    exists p :: MergeWalk(scorer, c, p, i, j)
  }

  predicate IsPair(scorer: Scorer, c: seq<Candidate>, d: Decision, p: MatchPair) {
    && 0 <= p.from < p.to < |c|
    && p.score == scorer(c[p.from], c[p.to]) && p.score.decision == d
  }

  lemma {:induction false} JoinsContain(scorer: Scorer, c: seq<Candidate>, p: MatchPair)
    ensures p in Joins(scorer, c) <==> IsPair(scorer, c, Merge, p)
    ensures p in Reviews(scorer, c) <==> IsPair(scorer, c, Review, p)
  {
    PairsBeforeInRange(|c|, |c|, |c| + 1);
    KeptContains(scorer, c, AllPairs(|c|), Merge, p);
    KeptContains(scorer, c, AllPairs(|c|), Review, p);
    if p.from >= 0 {
      AllPairsContains(|c|, (p.from as nat, p.to));
    }
  }

  lemma {:induction false} AdjacentIffMerges(scorer: Scorer, c: seq<Candidate>, i: nat, j: nat)
    ensures Adjacent(EdgesOf(|c|, Joins(scorer, c)), i, j) <==> Merges(scorer, c, i, j)
  {
    EdgeIffJoin(scorer, c, i, j);
    EdgeIffJoin(scorer, c, j, i);
  }

  lemma {:induction false} EdgeIffJoin(scorer: Scorer, c: seq<Candidate>, i: nat, j: nat)
    ensures (i, j) in EdgesOf(|c|, Joins(scorer, c)) <==> i < j < |c| && scorer(c[i], c[j]).decision == Merge
  {
    var joins := Joins(scorer, c);
    var edges := EdgesOf(|c|, joins);
    if (i, j) in edges {
      var k :| 0 <= k < |edges| && edges[k] == (i, j);
      assert joins[k] in joins;
      JoinsContain(scorer, c, joins[k]);
    }
    if i < j < |c| && scorer(c[i], c[j]).decision == Merge {
      var p := MatchPair(i, j, scorer(c[i], c[j]));
      JoinsContain(scorer, c, p);
      var k :| 0 <= k < |joins| && joins[k] == p;
      assert edges[k] == (i, j);
    }
  }

  /** Two candidates share a representative exactly when merges connect them. */
  lemma {:induction false} RootsAreMergeComponents(scorer: Scorer, c: seq<Candidate>, i: nat, j: nat)
    requires i < |c| && j < |c|
    ensures RootOf(scorer, c)[i] == RootOf(scorer, c)[j] <==> MergeConnected(scorer, c, i, j)
  {
    var edges := EdgesOf(|c|, Joins(scorer, c));
    RootsAreComponents(|c|, edges, i, j);
    if Connected(edges, i, j) {
      var p :| WalkBetween(edges, p, i, j);
      forall k | 0 <= k < |p| - 1
        ensures Merges(scorer, c, p[k], p[k + 1])
      {
        AdjacentIffMerges(scorer, c, p[k], p[k + 1]);
      }
      assert MergeWalk(scorer, c, p, i, j);
    }
    if MergeConnected(scorer, c, i, j) {
      var p :| MergeWalk(scorer, c, p, i, j);
      forall k | 0 <= k < |p| - 1
        ensures Adjacent(edges, p[k], p[k + 1])
      {
        AdjacentIffMerges(scorer, c, p[k], p[k + 1]);
      }
      assert WalkBetween(edges, p, i, j);
    }
  }

  // ----- the clusters partition the candidates -----

  predicate Ascending(s: seq<nat>) {
    forall a, b | 0 <= a < b < |s| :: s[a] < s[b]
  }

  predicate NoDuplicates<T(==)>(s: seq<T>) {
    forall a, b | 0 <= a < b < |s| :: s[a] != s[b]
  }

  ghost predicate IsComponent(scorer: Scorer, c: seq<Candidate>, cluster: Cluster) {
    && cluster.members != [] && Ascending(cluster.members)
    && (forall i <- cluster.members :: i < |c|
          && forall j: nat | j < |c| :: j in cluster.members <==> MergeConnected(scorer, c, i, j))
  }

  ghost predicate HoldsItsPairs(scorer: Scorer, c: seq<Candidate>, cluster: Cluster) {
    && NoDuplicates(cluster.joins) && NoDuplicates(cluster.reviewPairs)
    && (forall p :: p in cluster.joins <==> IsPair(scorer, c, Merge, p) && p.from as nat in cluster.members)
    && (forall p <- cluster.joins :: p.to in cluster.members)
    && (forall p :: p in cluster.reviewPairs <==>
          IsPair(scorer, c, Review, p) && (p.from as nat in cluster.members || p.to in cluster.members))
  }

  lemma {:induction false} MembersBelowFacts(rep: seq<nat>, root: nat, k: nat)
    requires k <= |rep|
    ensures Ascending(MembersBelow(rep, root, k))
    ensures forall i: nat :: i in MembersBelow(rep, root, k) <==> i < k && rep[i] == root
  {
    if k > 0 {
      MembersBelowFacts(rep, root, k - 1);
      var before := MembersBelow(rep, root, k - 1);
      forall a, b | 0 <= a < b < |MembersBelow(rep, root, k)|
        ensures MembersBelow(rep, root, k)[a] < MembersBelow(rep, root, k)[b]
      {
        assert before == [] || before[a] in before;
      }
    }
  }

  lemma {:induction false} RootsBelowDistinct(rep: seq<nat>, k: nat)
    requires k <= |rep|
    ensures NoDuplicates(RootsBelow(rep, k))
  {
    if k > 0 {
      RootsBelowDistinct(rep, k - 1);
    }
  }

  lemma {:induction false} JoinsAtContain(rep: seq<nat>, pairs: seq<MatchPair>, root: nat)
    requires PairsInRange(|rep|, pairs)
    ensures forall p :: p in JoinsAt(rep, pairs, root) <==> p in pairs && rep[p.from] == root
    ensures forall p :: p in ReviewsAt(rep, pairs, root)
              <==> p in pairs && (rep[p.from] == root || rep[p.to] == root)
    ensures NoDuplicates(pairs) ==> NoDuplicates(JoinsAt(rep, pairs, root))
    ensures NoDuplicates(pairs) ==> NoDuplicates(ReviewsAt(rep, pairs, root))
  {
    if pairs != [] {
      var last := |pairs| - 1;
      assert pairs == pairs[..last] + [pairs[last]];
      JoinsAtContain(rep, pairs[..last], root);
    }
  }

  lemma {:induction false} BeforeDistinct(n: nat, i: nat, j: nat)
    requires i <= n && i < j && (j <= n || j == i + 1)
    ensures NoDuplicates(Before(n, i, j))
    decreases i, j
  {
    if j > i + 1 {
      BeforeDistinct(n, i, j - 1);
      BeforeContains(n, i, j - 1, (i, j - 1));
    } else if i > 0 {
      BeforeDistinct(n, i - 1, n);
    }
  }

  lemma {:induction false} KeptDistinct(scorer: Scorer, c: seq<Candidate>, edges: seq<Edge>, d: Decision)
    requires InRange(|c|, edges) && NoDuplicates(edges)
    ensures NoDuplicates(Kept(scorer, c, edges, d))
    decreases |edges|
  {
    if edges != [] {
      var last := |edges| - 1;
      var e := edges[last];
      KeptDistinct(scorer, c, edges[..last], d);
      KeptContains(scorer, c, edges[..last], d, MatchPair(e.0, e.1, scorer(c[e.0], c[e.1])));
      assert e !in edges[..last];
    }
  }

  lemma {:induction false} PairsDistinct(scorer: Scorer, c: seq<Candidate>)
    ensures NoDuplicates(Joins(scorer, c)) && NoDuplicates(Reviews(scorer, c))
  {
    PairsBeforeInRange(|c|, |c|, |c| + 1);
    BeforeDistinct(|c|, |c|, |c| + 1);
    KeptDistinct(scorer, c, AllPairs(|c|), Merge);
    KeptDistinct(scorer, c, AllPairs(|c|), Review);
  }

  /** The members of the cluster at `rep[first]` are the component of `first`, and the
      pairs on it are exactly those that touch it. */
  lemma {:induction false} ClusterAtHolds(scorer: Scorer, c: seq<Candidate>, first: nat)
    requires first < |c|
    ensures var rep := RootOf(scorer, c);
            var cluster := ClusterAt(rep, Joins(scorer, c), Reviews(scorer, c), rep[first]);
            && IsComponent(scorer, c, cluster) && HoldsItsPairs(scorer, c, cluster)
  {
    var rep := RootOf(scorer, c);
    var joins, reviews := Joins(scorer, c), Reviews(scorer, c);
    var cluster := ClusterAt(rep, joins, reviews, rep[first]);
    MembersBelowFacts(rep, rep[first], |rep|);
    assert first in cluster.members;
    forall i, j | i in cluster.members && 0 <= j < |c|
      ensures j in cluster.members <==> MergeConnected(scorer, c, i, j)
    {
      RootsAreMergeComponents(scorer, c, i, j);
    }
    JoinsAtContain(rep, joins, rep[first]);
    JoinsAtContain(rep, reviews, rep[first]);
    PairsDistinct(scorer, c);
    forall p
      ensures p in joins <==> IsPair(scorer, c, Merge, p)
      ensures p in reviews <==> IsPair(scorer, c, Review, p)
      ensures p in joins ==> rep[p.from] == rep[p.to]
    {
      JoinsContain(scorer, c, p);
      if p in joins {
        assert MergeWalk(scorer, c, [p.from as nat, p.to], p.from, p.to);
        RootsAreMergeComponents(scorer, c, p.from, p.to);
      }
    }
  }

  predicate Held(clusters: seq<Cluster>, i: nat) {
    exists cluster <- clusters :: i in cluster.members
  }

  predicate Apart(one: Cluster, other: Cluster) {
    one == other || forall i <- one.members :: i !in other.members
  }

  ghost predicate EachHolds(scorer: Scorer, c: seq<Candidate>, clusters: seq<Cluster>) {
    forall cluster <- clusters :: IsComponent(scorer, c, cluster) && HoldsItsPairs(scorer, c, cluster)
  }

  predicate AllHeld(n: nat, clusters: seq<Cluster>) {
    forall i: nat | i < n :: Held(clusters, i)
  }

  ghost predicate AllApart(clusters: seq<Cluster>) {
    && (forall one <- clusters, other <- clusters :: Apart(one, other))
    && (forall cluster <- clusters :: multiset(clusters)[cluster] == 1)
  }

  /** Every cluster is a component holding its own pairs, every candidate has a
      cluster, no two clusters share a candidate and none is listed twice. */
  ghost predicate Partitions(scorer: Scorer, c: seq<Candidate>, clusters: seq<Cluster>) {
    EachHolds(scorer, c, clusters) && AllHeld(|c|, clusters) && AllApart(clusters)
  }

  lemma {:induction false} RootHasMember(rep: seq<nat>, k: nat) returns (first: nat)
    requires k < |RootsBelow(rep, |rep|)|
    ensures first < |rep| && rep[first] == RootsBelow(rep, |rep|)[k]
  {
    RootsBelowContains(rep, |rep|, RootsBelow(rep, |rep|)[k]);
    first :| 0 <= first < |rep| && rep[first] == RootsBelow(rep, |rep|)[k];
  }

  lemma {:induction false} ClustersEachHold(scorer: Scorer, c: seq<Candidate>)
    ensures EachHolds(scorer, c, ClustersOf(scorer, c))
  {
    var clusters := ClustersOf(scorer, c);
    forall k | 0 <= k < |clusters|
      ensures IsComponent(scorer, c, clusters[k]) && HoldsItsPairs(scorer, c, clusters[k])
    {
      var first := RootHasMember(RootOf(scorer, c), k);
      ClusterAtHolds(scorer, c, first);
    }
  }

  lemma {:induction false} ClustersAllHeld(scorer: Scorer, c: seq<Candidate>)
    ensures AllHeld(|c|, ClustersOf(scorer, c))
  {
    var rep := RootOf(scorer, c);
    var roots := RootsBelow(rep, |rep|);
    var clusters := ClustersOf(scorer, c);
    forall i: nat | i < |c|
      ensures Held(clusters, i)
    {
      RootsBelowContains(rep, |rep|, rep[i]);
      var k :| 0 <= k < |roots| && roots[k] == rep[i];
      MembersBelowFacts(rep, roots[k], |rep|);
      assert clusters[k] in clusters && i in clusters[k].members;
    }
  }

  lemma {:induction false} ClustersAllApart(scorer: Scorer, c: seq<Candidate>)
    ensures AllApart(ClustersOf(scorer, c))
  {
    var rep := RootOf(scorer, c);
    var roots := RootsBelow(rep, |rep|);
    var clusters := ClustersOf(scorer, c);
    RootsBelowDistinct(rep, |rep|);
    forall a, b | 0 <= a < |clusters| && 0 <= b < |clusters| && a != b
      ensures Apart(clusters[a], clusters[b]) && clusters[a] != clusters[b]
    {
      MembersBelowFacts(rep, roots[a], |rep|);
      MembersBelowFacts(rep, roots[b], |rep|);
      assert roots[a] != roots[b];
      var first := RootHasMember(rep, a);
      assert first in clusters[a].members;
    }
    assert NoDuplicates(clusters);
    forall k | 0 <= k < |clusters|
      ensures multiset(clusters)[clusters[k]] == 1
    {
      DistinctOccurOnce(clusters, k);
    }
  }

  lemma {:induction false} DistinctOccurOnce<T>(s: seq<T>, k: nat)
    requires NoDuplicates(s) && k < |s|
    ensures multiset(s)[s[k]] == 1
  {
    assert s == s[..k] + [s[k]] + s[k + 1..];
    assert s[k] !in s[..k] && s[k] !in s[k + 1..];
  }

  lemma {:induction false} PartitionsAnyOrder(scorer: Scorer, c: seq<Candidate>, a: seq<Cluster>, b: seq<Cluster>)
    requires Partitions(scorer, c, a) && multiset(a) == multiset(b)
    ensures Partitions(scorer, c, b)
  {
    assert forall x :: x in a <==> x in multiset(a);
    assert forall x :: x in b <==> x in multiset(b);
    forall i: nat | i < |c|
      ensures Held(b, i)
    {
      assert Held(a, i);
    }
  }

  /** The list that `cluster_candidates` returns is the partition into merge components. */
  lemma {:induction false} ReturnedClustersPartition(scorer: Scorer, c: seq<Candidate>)
    ensures Partitions(scorer, c, SortByStart(c, ClustersOf(scorer, c)))
  {
    ClustersEachHold(scorer, c);
    ClustersAllHeld(scorer, c);
    ClustersAllApart(scorer, c);
    PartitionsAnyOrder(scorer, c, ClustersOf(scorer, c), SortByStart(c, ClustersOf(scorer, c)));
  }

  /** Two candidates are returned in one cluster exactly when merges connect them. */
  lemma {:induction false} TogetherIffConnected(
      scorer: Scorer, c: seq<Candidate>, clusters: seq<Cluster>, i: nat, j: nat)
    requires Partitions(scorer, c, clusters) && i < |c| && j < |c|
    ensures Together(clusters, i, j) <==> MergeConnected(scorer, c, i, j)
  {
    assert Held(clusters, i);
  }

  predicate Together(clusters: seq<Cluster>, i: nat, j: nat) {
    exists cluster <- clusters :: i in cluster.members && j in cluster.members
  }

  // ----- feed order -----

  /** `order[i]` is where the i-th candidate of the new feed stood in the old one. */
  predicate Reordering(order: seq<nat>, back: seq<nat>) {
    && |order| == |back|
    && (forall i | 0 <= i < |order| :: order[i] < |order| && back[order[i]] == i)
    && (forall i | 0 <= i < |back| :: back[i] < |back| && order[back[i]] == i)
  }

  function Reordered(c: seq<Candidate>, order: seq<nat>): (r: seq<Candidate>)
    requires forall i | 0 <= i < |order| :: order[i] < |c|
    ensures |r| == |order|
  {
    seq(|order|, i requires 0 <= i < |order| => c[order[i]])
  }

  /** No pair merges in one order only. */
  predicate MergesSymmetric(scorer: Scorer, c: seq<Candidate>) {
    forall i, j | 0 <= i < |c| && 0 <= j < |c| ::
      scorer(c[i], c[j]).decision == Merge <==> scorer(c[j], c[i]).decision == Merge
  }

  lemma {:induction false} WalkReorders(
      scorer: Scorer, c: seq<Candidate>, order: seq<nat>, back: seq<nat>, i: nat, j: nat)
    requires |order| == |c| && Reordering(order, back) && MergesSymmetric(scorer, c)
    requires i < |c| && j < |c| && MergeConnected(scorer, Reordered(c, order), i, j)
    ensures MergeConnected(scorer, c, order[i], order[j])
  {
    var c' := Reordered(c, order);
    var p :| MergeWalk(scorer, c', p, i, j);
    forall k | 0 <= k < |p|
      ensures p[k] < |c|
    {
      if k > 0 {
        assert Merges(scorer, c', p[k - 1], p[k - 1 + 1]);
      }
    }
    var q := seq(|p|, k requires 0 <= k < |p| => order[p[k]]);
    forall k | 0 <= k < |q| - 1
      ensures Merges(scorer, c, q[k], q[k + 1])
    {
      assert Merges(scorer, c', p[k], p[k + 1]);
      assert back[q[k]] == p[k] && back[q[k + 1]] == p[k + 1];
    }
    assert MergeWalk(scorer, c, q, order[i], order[j]);
  }

  lemma {:induction false} ReorderedBack(c: seq<Candidate>, order: seq<nat>, back: seq<nat>)
    requires |order| == |c| && Reordering(order, back)
    ensures Reordered(Reordered(c, order), back) == c
  {
  }

  /** Reordering the feed reorders the partition and changes none of its groups, as long as
      no pair of candidates merges in one order only. */
  lemma {:induction false} FeedOrderIrrelevant(
      scorer: Scorer, c: seq<Candidate>, order: seq<nat>, back: seq<nat>,
      clusters: seq<Cluster>, clusters': seq<Cluster>, i: nat, j: nat)
    requires |order| == |c| && Reordering(order, back) && MergesSymmetric(scorer, c)
    requires Partitions(scorer, c, clusters) && Partitions(scorer, Reordered(c, order), clusters')
    requires i < |c| && j < |c|
    ensures Together(clusters', i, j) <==> Together(clusters, order[i], order[j])
  {
    var c' := Reordered(c, order);
    TogetherIffConnected(scorer, c', clusters', i, j);
    TogetherIffConnected(scorer, c, clusters, order[i], order[j]);
    if MergeConnected(scorer, c', i, j) {
      WalkReorders(scorer, c, order, back, i, j);
    }
    if MergeConnected(scorer, c, order[i], order[j]) {
      ReorderedBack(c, order, back);
      WalkReorders(scorer, c', back, order, order[i], order[j]);
    }
  }

  // ----- list order -----

  /** The clusters come back west to east when every start is a number, and clusters
      that start together keep the order of their first members. */
  lemma {:induction false} ReturnedInOrder(c: seq<Candidate>, clusters: seq<Cluster>, start: Float)
    ensures var key, r := StartKey(c), SortByStart(c, clusters);
            && (Sorting.AllKeyed(key, clusters) ==> Sorting.Ascends(key, r))
            && Sorting.WithKey(key, r, start) == Sorting.WithKey(key, clusters, start)
  {
    Sorting.SortOrders(StartKey(c), clusters, start);
  }

  /** The start of a cluster is the smallest of its members' begin measures. */
  lemma {:induction false} StartIsSmallest(c: seq<Candidate>, members: seq<nat>)
    requires members != [] && forall m <- members :: m < |c| && c[m].begin.Num?
    ensures StartOf(c, members).Num?
    ensures forall m <- members :: StartOf(c, members).r <= c[m].begin.r
    ensures exists m <- members :: c[m].begin == StartOf(c, members)
    decreases |members|
  {
    var last := members[|members| - 1];
    assert last in members && last < |c|;
    if |members| > 1 {
      var rest := members[..|members| - 1];
      assert members == rest + [last];
      StartIsSmallest(c, rest);
      assert StartOf(c, members) == Min(StartOf(c, rest), c[last].begin);
    }
  }

  /** Among placed candidates an earlier cluster has a member that begins no further east
      than any member of a later one. */
  lemma {:induction false} ReturnedWestToEast(c: seq<Candidate>, clusters: seq<Cluster>, a: nat, b: nat)
    requires forall k <- clusters :: k.members != [] && forall m <- k.members :: m < |c| && c[m].begin.Num?
    requires a < b < |clusters|
    ensures var r := SortByStart(c, clusters);
            && |r| == |clusters|
            && exists m <- r[a].members :: forall n <- r[b].members ::
                 m < |c| && n < |c| && c[m].begin.Num? && c[n].begin.Num? && c[m].begin.r <= c[n].begin.r
  {
    var key, r := StartKey(c), SortByStart(c, clusters);
    assert |r| == |multiset(r)| == |multiset(clusters)|;
    assert forall k :: k in r <==> k in multiset(r);
    assert forall k :: k in clusters <==> k in multiset(clusters);
    assert r[a] in r && r[b] in r;
    forall k <- clusters
      ensures key(k).Num?
    {
      StartIsSmallest(c, k.members);
    }
    ReturnedInOrder(c, clusters, NaN);
    StartIsSmallest(c, r[a].members);
    StartIsSmallest(c, r[b].members);
    assert !Lt(key(r[b]), key(r[a]));
  }
}
