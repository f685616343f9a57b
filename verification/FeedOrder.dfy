/** When the grouping depends on the order of the feed: exactly when a report without a
    place could be merged with a placed one. */
module FeedOrder {
  import opened Wrappers
  import opened Floats
  import opened Scoring
  import opened Clustering
  import opened ClusterLaws
  import opened MergedEvents

  /** The feed in another order is grouped alike. */
  ghost predicate GroupedAlike(groups: Groups, c: seq<Candidate>, order: seq<nat>, back: seq<nat>)
    requires |order| == |c| && Reordering(order, back)
  {
    forall i: nat, j: nat | i < |c| && j < |c| ::
      Together(Returned(groups, Reordered(c, order)), i, j) <==> Together(Returned(groups, c), order[i], order[j])
  }

  ghost predicate OrderFree(groups: Groups, c: seq<Candidate>) {
    forall order, back | |order| == |c| && Reordering(order, back) :: GroupedAlike(groups, c, order, back)
  }

  /** Class, direction and time keep every unplaced report from every placed one. */
  predicate UnplacedStandAlone(groups: Groups, c: seq<Candidate>) {
    forall a, u | 0 <= a < |c| && 0 <= u < |c| && Resolved(c[a]) && Unresolved(c[u]) ::
      !JoinsUnplaced(groups, c[a], c[u])
  }

  lemma {:induction false} TogetherIff(groups: Groups, c: seq<Candidate>, i: nat, j: nat)
    requires i < |c| && j < |c|
    ensures Together(Returned(groups, c), i, j) <==> MergeConnected(ScorerFor(groups), c, i, j)
  {
    ReturnedClustersPartition(ScorerFor(groups), c);
    TogetherIffConnected(ScorerFor(groups), c, Returned(groups, c), i, j);
  }

  // ----- when no unplaced report can merge -----

  lemma {:induction false} StandingAloneIsSymmetric(groups: Groups, c: seq<Candidate>)
    requires AllConflated(c) && UnplacedStandAlone(groups, c)
    ensures MergesSymmetric(ScorerFor(groups), c)
  {
    forall i, j | 0 <= i < |c| && 0 <= j < |c|
      ensures Decide(groups, c[i], c[j]) == Merge <==> Decide(groups, c[j], c[i]) == Merge
    {
      if Resolved(c[i]) == Resolved(c[j]) {
        ScoreSymmetric(groups, c[i], c[j]);
      } else if Resolved(c[i]) {
        UnplacedMergesIff(groups, c[i], c[j]);
      } else {
        UnplacedMergesIff(groups, c[j], c[i]);
      }
    }
  }

  lemma {:induction false} StandingAloneIsOrderFree(groups: Groups, c: seq<Candidate>)
    requires AllConflated(c) && UnplacedStandAlone(groups, c)
    ensures OrderFree(groups, c)
  {
    var scorer := ScorerFor(groups);
    StandingAloneIsSymmetric(groups, c);
    ReturnedClustersPartition(scorer, c);
    forall order, back, i: nat, j: nat | |order| == |c| && Reordering(order, back) && i < |c| && j < |c|
      ensures Together(Returned(groups, Reordered(c, order)), i, j)
        <==> Together(Returned(groups, c), order[i], order[j])
    {
      ReturnedClustersPartition(scorer, Reordered(c, order));
      FeedOrderIrrelevant(scorer, c, order, back, Returned(groups, c), Returned(groups, Reordered(c, order)), i, j);
    }
  }

  // ----- when one can -----

  /** The order that takes candidate `u` to the front, and the way back. */
  function ToFront(n: nat, u: nat): (order: seq<nat>)
    requires u < n
    ensures |order| == n
  {
    seq(n, i requires 0 <= i < n => if i == 0 then u else if i <= u then i - 1 else i)
  }

  function FromFront(n: nat, u: nat): (back: seq<nat>)
    requires u < n
    ensures |back| == n && Reordering(ToFront(n, u), back)
  {
    seq(n, k requires 0 <= k < n => if k == u then 0 else if k < u then k + 1 else k)
  }

  /** The order that takes candidate `u` to the end, and the way back. */
  function ToEnd(n: nat, u: nat): (order: seq<nat>)
    requires u < n
    ensures |order| == n
  {
    seq(n, i requires 0 <= i < n => if i == n - 1 then u else if i < u then i else i + 1)
  }

  function FromEnd(n: nat, u: nat): (back: seq<nat>)
    requires u < n
    ensures |back| == n && Reordering(ToEnd(n, u), back)
  {
    seq(n, k requires 0 <= k < n => if k == u then n - 1 else if k < u then k else k - 1)
  }

  /** An unplaced report at the front of a feed is alone in its event. */
  lemma {:induction false} AloneInFront(groups: Groups, c: seq<Candidate>, j: nat)
    requires AllConflated(c) && 0 < j < |c| && Unresolved(c[0])
    ensures !Together(Returned(groups, c), 0, j)
  {
    var scorer := ScorerFor(groups);
    TogetherIff(groups, c, 0, j);
    forall p
      ensures !MergeWalk(scorer, c, p, 0, j)
    {
      if |p| > 1 && p[0] == 0 && 0 < p[1] < |c| {
        UnplacedMergesIff(groups, c[p[1]], c[0]);
        assert !Merges(scorer, c, p[0], p[0 + 1]);
      }
    }
  }

  /** Behind a placed report it can be merged with it is in one event with it. */
  lemma {:induction false} JoinedBehind(groups: Groups, c: seq<Candidate>, a: nat, u: nat)
    requires a < u < |c| && Resolved(c[a]) && Unresolved(c[u]) && JoinsUnplaced(groups, c[a], c[u])
    ensures Together(Returned(groups, c), a, u)
  {
    var scorer := ScorerFor(groups);
    UnplacedMergesIff(groups, c[a], c[u]);
    assert Merges(scorer, c, a, u);
    assert MergeWalk(scorer, c, [a, u], a, u);
    TogetherIff(groups, c, a, u);
  }

  lemma {:induction false} OrderMatters(groups: Groups, c: seq<Candidate>, a: nat, u: nat)
    requires AllConflated(c) && a < |c| && u < |c|
    requires Resolved(c[a]) && Unresolved(c[u]) && JoinsUnplaced(groups, c[a], c[u])
    ensures !OrderFree(groups, c)
  {
    var n := |c|;
    var front, end := FromFront(n, u), FromEnd(n, u);
    AloneInFront(groups, Reordered(c, ToFront(n, u)), front[a]);
    JoinedBehind(groups, Reordered(c, ToEnd(n, u)), end[a], n - 1);
    if OrderFree(groups, c) {
      assert GroupedAlike(groups, c, ToFront(n, u), front);
      assert GroupedAlike(groups, c, ToEnd(n, u), end);
      Swapped(Returned(groups, c), a, u);
    }
  }

  lemma {:induction false} Swapped(clusters: seq<Cluster>, i: nat, j: nat)
    ensures Together(clusters, i, j) == Together(clusters, j, i)
  {}

  /** The grouping is the same in every feed order exactly when no unplaced report agrees
      with a placed one on class, direction and time closely enough to be merged with it. */
  lemma {:induction false} OrderFreeIff(groups: Groups, c: seq<Candidate>)
    requires AllConflated(c)
    ensures OrderFree(groups, c) <==> UnplacedStandAlone(groups, c)
  {
    if UnplacedStandAlone(groups, c) {
      StandingAloneIsOrderFree(groups, c);
    } else {
      var a, u :|
        && 0 <= a < |c| && 0 <= u < |c| && Resolved(c[a]) && Unresolved(c[u])
        && JoinsUnplaced(groups, c[a], c[u]);
      OrderMatters(groups, c, a, u);
    }
  }

  /** In particular, placed candidates are grouped alike in every order. */
  lemma {:induction false} PlacedFeedOrderIrrelevant(groups: Groups, c: seq<Candidate>)
    requires forall i | 0 <= i < |c| :: Resolved(c[i])
    ensures OrderFree(groups, c)
  {
    StandingAloneIsOrderFree(groups, c);
  }

  function PlacedReport(): Candidate {
    Candidate(Incident, Num(0.0), Num(0.0), EB, Some(0.0), None, "a")
  }

  function UnplacedReport(): Candidate {
    Candidate(Incident, NaN, NaN, EB, Some(0.0), None, "u")
  }

  /** These two are one event in this order and two in the other. */
  lemma {:induction false} UnplacedFeedOrderMatters(groups: Groups)
    ensures Together(Returned(groups, [PlacedReport(), UnplacedReport()]), 0, 1)
    ensures !Together(Returned(groups, [UnplacedReport(), PlacedReport()]), 0, 1)
  {
    JoinedBehind(groups, [PlacedReport(), UnplacedReport()], 0, 1);
    AloneInFront(groups, [UnplacedReport(), PlacedReport()], 1);
  }

  // ----- every verdict, reviews included -----

  predicate VerdictsSymmetric(groups: Groups, c: seq<Candidate>) {
    forall i, j | 0 <= i < |c| && 0 <= j < |c| :: Decide(groups, c[i], c[j]) == Decide(groups, c[j], c[i])
  }

  /** The condition of `DecisionSymmetricIff`, for every pair of a feed. */
  predicate NoPairIsOrderBound(c: seq<Candidate>) {
    forall i, j | 0 <= i < |c| && 0 <= j < |c| ::
      || Resolved(c[i]) == Resolved(c[j])
      || c[i].eventClass != c[j].eventClass
      || ScoreTemporal(c[i], c[j]) == 0.0
      || ScoreDirection(c[i], c[j]) == 0.0
  }

  lemma {:induction false} OrderFreeFeedIsSymmetric(groups: Groups, c: seq<Candidate>)
    requires AllConflated(c)
    ensures NoPairIsOrderBound(c) <==> VerdictsSymmetric(groups, c)
  {
    forall i, j | 0 <= i < |c| && 0 <= j < |c|
      ensures Decide(groups, c[i], c[j]) == Decide(groups, c[j], c[i])
        <==> (|| Resolved(c[i]) == Resolved(c[j])
              || c[i].eventClass != c[j].eventClass
              || ScoreTemporal(c[i], c[j]) == 0.0
              || ScoreDirection(c[i], c[j]) == 0.0)
    {
      DecisionSymmetricIff(groups, c[i], c[j]);
    }
  }
}
