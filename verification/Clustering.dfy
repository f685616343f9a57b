/** Grouping candidates into events: `cluster_candidates` and `best_match` in
    `core/matcher.py`. The functions describe the result; `ClusterCandidates` computes
    it the way the source does. */
module Clustering {
  import opened Wrappers
  import opened Floats
  import opened Scoring
  import opened UnionFind
  import Sorting

  /** How two candidates are compared. Grouping reads nothing else of a score. */
  type Scorer = (Candidate, Candidate) -> MatchScore

  function ScorerFor(groups: Groups): Scorer {
    (a, b) => ScoreMatch(groups, a, b)
  }

  datatype MatchPair = MatchPair(from: int, to: nat, score: MatchScore)

  datatype Cluster = Cluster(members: seq<nat>, joins: seq<MatchPair>, reviewPairs: seq<MatchPair>)

  // ----- the pairs, in the order they are compared -----

  /** The pairs compared before `(i, j)` is. */
  function Before(n: nat, i: nat, j: nat): seq<Edge>
    requires i <= n && i < j && (j <= n || j == i + 1)
    decreases i, j
  {
    if j > i + 1 then Before(n, i, j - 1) + [(i, j - 1)]
    else if i == 0 then []
    else Before(n, i - 1, n)
  }

  function AllPairs(n: nat): seq<Edge> {
    Before(n, n, n + 1)
  }

  lemma {:induction false} BeforeContains(n: nat, i: nat, j: nat, e: Edge)
    requires i <= n && i < j && (j <= n || j == i + 1)
    ensures e in Before(n, i, j) <==> e.0 < e.1 < n && (e.0 < i || (e.0 == i && e.1 < j))
    decreases i, j
  {
    if j > i + 1 {
      BeforeContains(n, i, j - 1, e);
    } else if i > 0 {
      BeforeContains(n, i - 1, n, e);
    }
  }

  lemma {:induction false} AllPairsContains(n: nat, e: Edge)
    ensures e in AllPairs(n) <==> e.0 < e.1 < n
  {
    BeforeContains(n, n, n + 1, e);
  }

  /** The pairs of `edges` with a given verdict, scored. */
  function Kept(scorer: Scorer, c: seq<Candidate>, edges: seq<Edge>, d: Decision): seq<MatchPair>
    requires InRange(|c|, edges)
    decreases |edges|
  {
    if edges == [] then []
    else
      var e := edges[|edges| - 1];
      assert e in edges;
      var score := scorer(c[e.0], c[e.1]);
      Kept(scorer, c, edges[..|edges| - 1], d)
      + (if score.decision == d then [MatchPair(e.0, e.1, score)] else [])
  }

  /** A pair is kept exactly when it was compared, scored and decided that way. */
  lemma {:induction false} KeptContains(scorer: Scorer, c: seq<Candidate>, edges: seq<Edge>, d: Decision, p: MatchPair)
    requires InRange(|c|, edges)
    ensures p in Kept(scorer, c, edges, d)
      <==> && p.from >= 0 && (p.from as nat, p.to) in edges
           && p.score == scorer(c[p.from], c[p.to]) && p.score.decision == d
    decreases |edges|
  {
    if edges != [] {
      var last := |edges| - 1;
      assert edges == edges[..last] + [edges[last]];
      KeptContains(scorer, c, edges[..last], d, p);
    }
  }

  predicate PairsInRange(n: nat, pairs: seq<MatchPair>) {
    forall p <- pairs :: 0 <= p.from < n && p.to < n
  }

  lemma {:induction false} KeptInRange(scorer: Scorer, c: seq<Candidate>, edges: seq<Edge>, d: Decision)
    requires InRange(|c|, edges)
    ensures PairsInRange(|c|, Kept(scorer, c, edges, d))
  {
    forall p <- Kept(scorer, c, edges, d)
      ensures 0 <= p.from < |c| && p.to < |c|
    {
      KeptContains(scorer, c, edges, d, p);
    }
  }

  function EdgesOf(n: nat, pairs: seq<MatchPair>): (r: seq<Edge>)
    requires PairsInRange(n, pairs)
    ensures |r| == |pairs| && InRange(n, r)
  {
    seq(|pairs|, k requires 0 <= k < |pairs| => (assert pairs[k] in pairs; (pairs[k].from as nat, pairs[k].to)))
  }

  function Joins(scorer: Scorer, c: seq<Candidate>): (r: seq<MatchPair>)
    ensures PairsInRange(|c|, r)
  {
    PairsBeforeInRange(|c|, |c|, |c| + 1);
    KeptInRange(scorer, c, AllPairs(|c|), Merge);
    Kept(scorer, c, AllPairs(|c|), Merge)
  }

  function Reviews(scorer: Scorer, c: seq<Candidate>): (r: seq<MatchPair>)
    ensures PairsInRange(|c|, r)
  {
    PairsBeforeInRange(|c|, |c|, |c| + 1);
    KeptInRange(scorer, c, AllPairs(|c|), Review);
    Kept(scorer, c, AllPairs(|c|), Review)
  }

  lemma {:induction false} PairsBeforeInRange(n: nat, i: nat, j: nat)
    requires i <= n && i < j && (j <= n || j == i + 1)
    ensures InRange(n, Before(n, i, j))
  {
    forall e <- Before(n, i, j)
      ensures e.0 < n && e.1 < n
    {
      BeforeContains(n, i, j, e);
    }
  }

  /** The representative of every candidate once all merging pairs are joined. */
  function RootOf(scorer: Scorer, c: seq<Candidate>): (r: seq<nat>)
    ensures |r| == |c|
  {
    Roots(|c|, EdgesOf(|c|, Joins(scorer, c)))
  }

  // ----- the clusters -----

  function MembersBelow(rep: seq<nat>, root: nat, k: nat): seq<nat>
    requires k <= |rep|
  {
    if k == 0 then []
    else MembersBelow(rep, root, k - 1) + (if rep[k - 1] == root then [k - 1] else [])
  }

  function JoinsAt(rep: seq<nat>, pairs: seq<MatchPair>, root: nat): seq<MatchPair>
    requires PairsInRange(|rep|, pairs)
  {
    if pairs == [] then []
    else
      var p := pairs[|pairs| - 1];
      assert p in pairs;
      JoinsAt(rep, pairs[..|pairs| - 1], root) + (if rep[p.from] == root then [p] else [])
  }

  function ReviewsAt(rep: seq<nat>, pairs: seq<MatchPair>, root: nat): seq<MatchPair>
    requires PairsInRange(|rep|, pairs)
  {
    if pairs == [] then []
    else
      var p := pairs[|pairs| - 1];
      assert p in pairs;
      ReviewsAt(rep, pairs[..|pairs| - 1], root)
      + (if rep[p.from] == root || rep[p.to] == root then [p] else [])
  }

  /** The roots in order of first appearance: the insertion order of `by_root`. */
  function RootsBelow(rep: seq<nat>, k: nat): seq<nat>
    requires k <= |rep|
  {
    if k == 0 then []
    else
      var before := RootsBelow(rep, k - 1);
      if rep[k - 1] in before then before else before + [rep[k - 1]]
  }

  function ClusterAt(rep: seq<nat>, joins: seq<MatchPair>, reviews: seq<MatchPair>, root: nat): Cluster
    requires PairsInRange(|rep|, joins) && PairsInRange(|rep|, reviews)
  {
    Cluster(MembersBelow(rep, root, |rep|), JoinsAt(rep, joins, root), ReviewsAt(rep, reviews, root))
  }

  function ClustersOf(scorer: Scorer, c: seq<Candidate>): (r: seq<Cluster>) {
    var rep := RootOf(scorer, c);
    var roots := RootsBelow(rep, |rep|);
    seq(|roots|, k requires 0 <= k < |roots| =>
      ClusterAt(rep, Joins(scorer, c), Reviews(scorer, c), roots[k]))
  }

  // ----- the final sort -----

  /** `min` over the members' begin measures. */
  function StartOf(c: seq<Candidate>, members: seq<nat>): Float {
    if members == [] then NaN
    else
      var m := members[|members| - 1];
      var here := if m < |c| then c[m].begin else NaN;
      if |members| == 1 then here else Min(StartOf(c, members[..|members| - 1]), here)
  }

  function StartKey(c: seq<Candidate>): Cluster -> Float {
    (x: Cluster) => StartOf(c, x.members)
  }

  function SortByStart(c: seq<Candidate>, clusters: seq<Cluster>): (r: seq<Cluster>)
    ensures multiset(r) == multiset(clusters)
  {
    Sorting.Sort(StartKey(c), clusters)
  }

  // ----- the method -----

  ghost predicate Compared(
      scorer: Scorer, c: seq<Candidate>, edges: seq<Edge>,
      joins: seq<MatchPair>, reviews: seq<MatchPair>, rep: seq<nat>)
  {
    && InRange(|c|, edges)
    && joins == Kept(scorer, c, edges, Merge)
    && reviews == Kept(scorer, c, edges, Review)
    && PairsInRange(|c|, joins)
    && rep == Roots(|c|, EdgesOf(|c|, joins))
  }

  lemma {:induction false} KeptNext(scorer: Scorer, c: seq<Candidate>, edges: seq<Edge>, e: Edge, d: Decision)
    requires InRange(|c|, edges) && e.0 < |c| && e.1 < |c|
    ensures InRange(|c|, edges + [e])
    ensures Kept(scorer, c, edges + [e], d)
         == Kept(scorer, c, edges, d)
            + (if scorer(c[e.0], c[e.1]).decision == d
               then [MatchPair(e.0, e.1, scorer(c[e.0], c[e.1]))] else [])
  {
    assert (edges + [e])[..|edges|] == edges;
  }

  lemma {:induction false} ComparedNext(
      scorer: Scorer, c: seq<Candidate>, edges: seq<Edge>, e: Edge,
      joins: seq<MatchPair>, reviews: seq<MatchPair>, rep: seq<nat>)
    requires Compared(scorer, c, edges, joins, reviews, rep)
    requires e.0 < |c| && e.1 < |c|
    ensures var pair := MatchPair(e.0, e.1, scorer(c[e.0], c[e.1]));
            match scorer(c[e.0], c[e.1]).decision
            case Merge => Compared(scorer, c, edges + [e], joins + [pair], reviews, Absorb(rep, e.0, e.1))
            case Review => Compared(scorer, c, edges + [e], joins, reviews + [pair], rep)
            case Distinct => Compared(scorer, c, edges + [e], joins, reviews, rep)
  {
    KeptNext(scorer, c, edges, e, Merge);
    KeptNext(scorer, c, edges, e, Review);
    var score := scorer(c[e.0], c[e.1]);
    if score.decision == Merge {
      var before := EdgesOf(|c|, joins);
      var after := EdgesOf(|c|, joins + [MatchPair(e.0, e.1, score)]);
      assert after == before + [e];
      assert after[..|before|] == before;
    }
  }

  method CompareOne(
      scorer: Scorer, c: seq<Candidate>, parent: array<nat>, e: Edge, joins: seq<MatchPair>, reviews: seq<MatchPair>,
      ghost edges: seq<Edge>, ghost rep: seq<nat>)
      returns (joins': seq<MatchPair>, reviews': seq<MatchPair>, ghost rep': seq<nat>)
    requires parent.Length == |rep| == |c| && e.0 < |c| && e.1 < |c|
    requires Compared(scorer, c, edges, joins, reviews, rep) && Represents(parent, rep)
    modifies parent
    ensures |rep'| == |c| && Represents(parent, rep')
    ensures Compared(scorer, c, edges + [e], joins', reviews', rep')
  {
    ComparedNext(scorer, c, edges, e, joins, reviews, rep);
    var score := scorer(c[e.0], c[e.1]);
    joins', reviews', rep' := joins, reviews, rep;
    if score.decision == Merge {
      joins' := joins + [MatchPair(e.0, e.1, score)];
      Union(parent, e.0, e.1, rep);
      rep' := Absorb(rep, e.0, e.1);
    } else if score.decision == Review {
      reviews' := reviews + [MatchPair(e.0, e.1, score)];
    }
  }

  method CompareRow(
      scorer: Scorer, c: seq<Candidate>, parent: array<nat>, i: nat, joins: seq<MatchPair>, reviews: seq<MatchPair>,
      ghost rep: seq<nat>)
      returns (joins': seq<MatchPair>, reviews': seq<MatchPair>, ghost rep': seq<nat>)
    requires parent.Length == |rep| == |c| && i < |c|
    requires Compared(scorer, c, Before(|c|, i, i + 1), joins, reviews, rep) && Represents(parent, rep)
    modifies parent
    ensures |rep'| == |c| && Represents(parent, rep')
    ensures Compared(scorer, c, Before(|c|, i, |c|), joins', reviews', rep')
  {
    joins', reviews', rep' := joins, reviews, rep;
    for j := i + 1 to |c|
      invariant |rep'| == |c| && Represents(parent, rep')
      invariant Compared(scorer, c, Before(|c|, i, j), joins', reviews', rep')
    {
      joins', reviews', rep' :=
        CompareOne(scorer, c, parent, (i, j), joins', reviews', Before(|c|, i, j), rep');
    }
  }

  lemma {:induction false} ComparedAll(
      scorer: Scorer, c: seq<Candidate>, joins: seq<MatchPair>, reviews: seq<MatchPair>, rep: seq<nat>)
    requires Compared(scorer, c, AllPairs(|c|), joins, reviews, rep)
    ensures joins == Joins(scorer, c) && reviews == Reviews(scorer, c) && rep == RootOf(scorer, c)
  {
  }

  lemma {:induction false} ComparedNone(scorer: Scorer, c: seq<Candidate>)
    ensures Compared(scorer, c, Before(|c|, 0, 1), [], [], Singletons(|c|))
    ensures Forest(Singletons(|c|), Singletons(|c|), Singletons(|c|))
  {
  }

  method CompareAll(scorer: Scorer, c: seq<Candidate>, parent: array<nat>)
      returns (joins: seq<MatchPair>, reviews: seq<MatchPair>)
    requires parent.Length == |c|
    requires parent[..] == Singletons(|c|)
    modifies parent
    ensures joins == Joins(scorer, c) && reviews == Reviews(scorer, c)
    ensures Represents(parent, RootOf(scorer, c))
  {
    joins, reviews := [], [];
    ghost var rep := Singletons(|c|);
    ComparedNone(scorer, c);
    for i := 0 to |c|
      invariant |rep| == |c| && Represents(parent, rep)
      invariant Compared(scorer, c, Before(|c|, i, i + 1), joins, reviews, rep)
    {
      joins, reviews, rep := CompareRow(scorer, c, parent, i, joins, reviews, rep);
    }
    ComparedAll(scorer, c, joins, reviews, rep);
  }

  /** `by_root` after `grouped` candidates, `joined` joins and `reviewed` reviews. */
  ghost predicate Gathered(
      byRoot: map<nat, Cluster>, order: seq<nat>, rep: seq<nat>, grouped: nat,
      joins: seq<MatchPair>, reviews: seq<MatchPair>)
    requires grouped <= |rep| && PairsInRange(|rep|, joins) && PairsInRange(|rep|, reviews)
  {
    && order == RootsBelow(rep, grouped)
    && (forall root :: root in byRoot <==> root in order)
    && (forall root <- byRoot :: byRoot[root]
          == Cluster(MembersBelow(rep, root, grouped), JoinsAt(rep, joins, root), ReviewsAt(rep, reviews, root)))
  }

  lemma {:induction false} RootsBelowContains(rep: seq<nat>, k: nat, root: nat)
    requires k <= |rep|
    ensures root in RootsBelow(rep, k) <==> exists i :: 0 <= i < k && rep[i] == root
  {
    if k > 0 {
      RootsBelowContains(rep, k - 1, root);
      RootsBelowContains(rep, k - 1, rep[k - 1]);
      assert rep[k - 1] in RootsBelow(rep, k);
    }
  }

  lemma {:induction false} NoMembersYet(rep: seq<nat>, root: nat, k: nat)
    requires k <= |rep| && root !in RootsBelow(rep, k)
    ensures MembersBelow(rep, root, k) == []
  {
    if k > 0 {
      NoMembersYet(rep, root, k - 1);
    }
  }

  function WithMember(byRoot: map<nat, Cluster>, order: seq<nat>, root: nat, i: nat)
      : (map<nat, Cluster>, seq<nat>)
  {
    if root in byRoot
    then (byRoot[root := byRoot[root].(members := byRoot[root].members + [i])], order)
    else (byRoot[root := Cluster([i], [], [])], order + [root])
  }

  lemma {:induction false} GatherMember(byRoot: map<nat, Cluster>, order: seq<nat>, rep: seq<nat>, i: nat)
    requires i < |rep| && Gathered(byRoot, order, rep, i, [], [])
    ensures var (byRoot', order') := WithMember(byRoot, order, rep[i], i);
            Gathered(byRoot', order', rep, i + 1, [], [])
  {
    if rep[i] !in byRoot {
      NoMembersYet(rep, rep[i], i);
    }
  }

  method GroupMembers(parent: array<nat>, ghost rep: seq<nat>)
      returns (byRoot: map<nat, Cluster>, order: seq<nat>)
    requires |rep| == parent.Length && Represents(parent, rep)
    modifies parent
    ensures Represents(parent, rep)
    ensures Gathered(byRoot, order, rep, parent.Length, [], [])
  {
    byRoot, order := map[], [];
    for i := 0 to parent.Length
      invariant Represents(parent, rep)
      invariant Gathered(byRoot, order, rep, i, [], [])
    {
      GatherMember(byRoot, order, rep, i);
      var root := Find(parent, i, rep);
      var (byRoot', order') := WithMember(byRoot, order, root, i);
      byRoot, order := byRoot', order';
    }
  }

  function WithJoin(byRoot: map<nat, Cluster>, root: nat, p: MatchPair): map<nat, Cluster>
    requires root in byRoot
  {
    byRoot[root := byRoot[root].(joins := byRoot[root].joins + [p])]
  }

  function WithReview(byRoot: map<nat, Cluster>, root: nat, p: MatchPair): map<nat, Cluster>
    requires root in byRoot
  {
    byRoot[root := byRoot[root].(reviewPairs := byRoot[root].reviewPairs + [p])]
  }

  lemma {:induction false} EveryRootGathered(
      byRoot: map<nat, Cluster>, order: seq<nat>, rep: seq<nat>,
      joins: seq<MatchPair>, reviews: seq<MatchPair>, i: nat)
    requires PairsInRange(|rep|, joins) && PairsInRange(|rep|, reviews)
    requires Gathered(byRoot, order, rep, |rep|, joins, reviews)
    requires i < |rep|
    ensures rep[i] in byRoot
  {
    RootsBelowContains(rep, |rep|, rep[i]);
  }

  lemma {:induction false} GatherJoin(
      byRoot: map<nat, Cluster>, order: seq<nat>, rep: seq<nat>, joins: seq<MatchPair>, p: MatchPair)
    requires PairsInRange(|rep|, joins) && 0 <= p.from < |rep| && p.to < |rep|
    requires Gathered(byRoot, order, rep, |rep|, joins, [])
    ensures rep[p.from] in byRoot
    ensures Gathered(WithJoin(byRoot, rep[p.from], p), order, rep, |rep|, joins + [p], [])
  {
    EveryRootGathered(byRoot, order, rep, joins, [], p.from);
    assert (joins + [p])[..|joins|] == joins;
  }

  lemma {:induction false} GatherReview(
      byRoot: map<nat, Cluster>, order: seq<nat>, rep: seq<nat>,
      joins: seq<MatchPair>, reviews: seq<MatchPair>, p: MatchPair)
    requires PairsInRange(|rep|, joins) && PairsInRange(|rep|, reviews)
    requires 0 <= p.from < |rep| && p.to < |rep|
    requires Gathered(byRoot, order, rep, |rep|, joins, reviews)
    ensures rep[p.from] in byRoot && rep[p.to] in byRoot
    ensures var once := WithReview(byRoot, rep[p.from], p);
            var both := if rep[p.to] != rep[p.from] then WithReview(once, rep[p.to], p) else once;
            Gathered(both, order, rep, |rep|, joins, reviews + [p])
  {
    EveryRootGathered(byRoot, order, rep, joins, reviews, p.from);
    EveryRootGathered(byRoot, order, rep, joins, reviews, p.to);
    assert (reviews + [p])[..|reviews|] == reviews;
  }

  method AttachJoins(
      parent: array<nat>, joins: seq<MatchPair>, byRoot: map<nat, Cluster>, ghost order: seq<nat>,
      ghost rep: seq<nat>)
      returns (r: map<nat, Cluster>)
    requires |rep| == parent.Length && Represents(parent, rep) && PairsInRange(parent.Length, joins)
    requires Gathered(byRoot, order, rep, parent.Length, [], [])
    modifies parent
    ensures Represents(parent, rep)
    ensures Gathered(r, order, rep, parent.Length, joins, [])
  {
    r := byRoot;
    for k := 0 to |joins|
      invariant Represents(parent, rep)
      invariant PairsInRange(parent.Length, joins[..k])
      invariant Gathered(r, order, rep, parent.Length, joins[..k], [])
    {
      var join := joins[k];
      assert join in joins;
      assert joins[..k + 1] == joins[..k] + [join];
      GatherJoin(r, order, rep, joins[..k], join);
      var root := Find(parent, join.from, rep);
      r := WithJoin(r, root, join);
    }
    assert joins[..|joins|] == joins;
  }

  method AttachReviews(
      parent: array<nat>, reviews: seq<MatchPair>, byRoot: map<nat, Cluster>, ghost order: seq<nat>,
      ghost joins: seq<MatchPair>, ghost rep: seq<nat>)
      returns (r: map<nat, Cluster>)
    requires |rep| == parent.Length && Represents(parent, rep)
    requires PairsInRange(parent.Length, joins) && PairsInRange(parent.Length, reviews)
    requires Gathered(byRoot, order, rep, parent.Length, joins, [])
    modifies parent
    ensures Gathered(r, order, rep, parent.Length, joins, reviews)
  {
    r := byRoot;
    for k := 0 to |reviews|
      invariant Represents(parent, rep)
      invariant PairsInRange(parent.Length, reviews[..k])
      invariant Gathered(r, order, rep, parent.Length, joins, reviews[..k])
    {
      var pair := reviews[k];
      assert pair in reviews;
      assert reviews[..k + 1] == reviews[..k] + [pair];
      GatherReview(r, order, rep, joins, reviews[..k], pair);
      var fromRoot := Find(parent, pair.from, rep);
      r := WithReview(r, fromRoot, pair);
      var toRoot := Find(parent, pair.to, rep);
      if toRoot != fromRoot {
        r := WithReview(r, toRoot, pair);
      }
    }
    assert reviews[..|reviews|] == reviews;
  }

  method ClusterCandidates(groups: Groups, c: seq<Candidate>) returns (clusters: seq<Cluster>)
    ensures clusters == SortByStart(c, ClustersOf(ScorerFor(groups), c))
  {
    var parent := new nat[|c|](i => i);
    assert parent[..] == Singletons(|c|);
    var joins, reviews := CompareAll(ScorerFor(groups), c, parent);
    ghost var rep := RootOf(ScorerFor(groups), c);
    var byRoot, order := GroupMembers(parent, rep);
    byRoot := AttachJoins(parent, joins, byRoot, order, rep);
    byRoot := AttachReviews(parent, reviews, byRoot, order, joins, rep);
    var values := seq(|order|, k requires 0 <= k < |order| && order[k] in byRoot => byRoot[order[k]]);
    assert values == ClustersOf(ScorerFor(groups), c);
    clusters := SortByStart(c, values);
  }

  /** The strongest match that reaches review; the earliest of equals. */
  method BestMatch(scorer: Scorer, candidate: Candidate, others: seq<Candidate>)
      returns (best: Option<MatchPair>)
    ensures best.None? <==> forall k | 0 <= k < |others| :: scorer(candidate, others[k]).decision == Distinct
    ensures best.Some? ==>
      var b := best.value;
      && b.from == -1 && b.to < |others|
      && b.score == scorer(candidate, others[b.to]) && b.score.decision != Distinct
      && forall k | 0 <= k < |others| && scorer(candidate, others[k]).decision != Distinct ::
           var other := scorer(candidate, others[k]);
           && other.value <= b.score.value
           && (k < b.to ==> other.value < b.score.value)
  {
    best := None;
    for index := 0 to |others|
      invariant best.None? <==> forall k | 0 <= k < index :: scorer(candidate, others[k]).decision == Distinct
      invariant best.Some? ==>
        var b := best.value;
        && b.from == -1 && b.to < index
        && b.score == scorer(candidate, others[b.to]) && b.score.decision != Distinct
        && forall k | 0 <= k < index && scorer(candidate, others[k]).decision != Distinct ::
             var other := scorer(candidate, others[k]);
             && other.value <= b.score.value
             && (k < b.to ==> other.value < b.score.value)
    {
      var score := scorer(candidate, others[index]);
      if score.decision == Distinct {
        continue;
      }
      if best.None? || score.value > best.value.score.value {
        best := Some(MatchPair(-1, index, score));
      }
    }
  }
}
