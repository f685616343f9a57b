/** What to apply: `plan` in `core/migrations.py`. A checksum stands for the file's
    contents, which is what an injective hash makes it. */
module MigrationPlan {

  datatype Migration = Migration(filename: string, checksum: string, repeatable: bool)

  datatype Reason = New | Changed

  datatype Pending = Pending(migration: Migration, reason: Reason)

  datatype Drift = Drift(filename: string, applied: string, file: string)

  datatype Plan = Plan(pending: seq<Pending>, settled: seq<string>, drifted: seq<Drift>)

  type Applied = map<string, string>

  datatype Verdict = Apply(reason: Reason) | Leave | Report

  /** What becomes of one file. */
  function VerdictOn(m: Migration, applied: Applied): Verdict {
    if m.filename !in applied then Apply(New)
    else if applied[m.filename] == m.checksum then Leave
    else if m.repeatable then Apply(Changed)
    else Report
  }

  function PendingOf(ms: seq<Migration>, applied: Applied): seq<Pending> {
    if ms == [] then []
    else
      var last := ms[|ms| - 1];
      var v := VerdictOn(last, applied);
      PendingOf(ms[..|ms| - 1], applied) + (if v.Apply? then [Pending(last, v.reason)] else [])
  }

  function SettledOf(ms: seq<Migration>, applied: Applied): seq<string> {
    if ms == [] then []
    else
      var last := ms[|ms| - 1];
      SettledOf(ms[..|ms| - 1], applied) + (if VerdictOn(last, applied).Leave? then [last.filename] else [])
  }

  function DriftOf(ms: seq<Migration>, applied: Applied): seq<Drift> {
    if ms == [] then []
    else
      var last := ms[|ms| - 1];
      DriftOf(ms[..|ms| - 1], applied)
      + (if VerdictOn(last, applied).Report? then [Drift(last.filename, applied[last.filename], last.checksum)] else [])
  }

  function PlanOf(ms: seq<Migration>, applied: Applied): Plan {
    Plan(PendingOf(ms, applied), SettledOf(ms, applied), DriftOf(ms, applied))
  }

  method MakePlan(ms: seq<Migration>, applied: Applied) returns (plan: Plan)
    ensures plan == PlanOf(ms, applied)
  {
    var pending: seq<Pending>, settled: seq<string>, drifted: seq<Drift> := [], [], [];
    for k := 0 to |ms|
      invariant Plan(pending, settled, drifted) == PlanOf(ms[..k], applied)
    {
      var m := ms[k];
      assert ms[..k + 1][..k] == ms[..k];
      if m.filename !in applied {
        pending := pending + [Pending(m, New)];
      } else if applied[m.filename] == m.checksum {
        settled := settled + [m.filename];
      } else if m.repeatable {
        pending := pending + [Pending(m, Changed)];
      } else {
        drifted := drifted + [Drift(m.filename, applied[m.filename], m.checksum)];
      }
    }
    assert ms[..|ms|] == ms;
    return Plan(pending, settled, drifted);
  }

  // ----- what a plan lists -----

  /** Not recorded under any checksum. */
  predicate Unrecorded(m: Migration, applied: Applied) {
    m.filename !in applied
  }

  /** Recorded under a checksum that is not the file's. */
  predicate Edited(m: Migration, applied: Applied) {
    m.filename in applied && applied[m.filename] != m.checksum
  }

  datatype List = ToApply | AsRecorded | Drifted

  /** Where a file belongs. */
  predicate Belongs(m: Migration, applied: Applied, list: List) {
    match list
    case ToApply => Unrecorded(m, applied) || (Edited(m, applied) && m.repeatable)
    case AsRecorded => !Unrecorded(m, applied) && !Edited(m, applied)
    case Drifted => Edited(m, applied) && !m.repeatable
  }

  predicate Ascending(ks: seq<nat>) {
    forall i, j | 0 <= i < j < |ks| :: ks[i] < ks[j]
  }

  /** The positions, in order, of the files that belong in a list. */
  ghost predicate Positions(ks: seq<nat>, ms: seq<Migration>, applied: Applied, list: List) {
    && Ascending(ks)
    && (forall i | 0 <= i < |ks| :: ks[i] < |ms|)
    && forall k | 0 <= k < |ms| :: k in ks <==> Belongs(ms[k], applied, list)
  }

  function OneMore(ks: seq<nat>, ms: seq<Migration>, applied: Applied, list: List): seq<nat>
    requires ms != []
  {
    ks + (if Belongs(ms[|ms| - 1], applied, list) then [|ms| - 1] else [])
  }

  lemma {:induction false} OneMoreFile(ks: seq<nat>, ms: seq<Migration>, applied: Applied, list: List)
    requires ms != [] && Positions(ks, ms[..|ms| - 1], applied, list)
    ensures Positions(OneMore(ks, ms, applied, list), ms, applied, list)
  {
    var last := |ms| - 1;
    forall k | 0 <= k < |ms|
      ensures k in OneMore(ks, ms, applied, list) <==> Belongs(ms[k], applied, list)
    {
      if k < last {
        assert ms[..last][k] == ms[k];
      } else {
        assert last !in ks;
      }
    }
  }

  predicate PendingAt(p: Pending, ms: seq<Migration>, applied: Applied, k: nat) {
    && k < |ms| && p.migration == ms[k]
    && (p.reason == New <==> Unrecorded(ms[k], applied))
  }

  lemma {:induction false} PendingIs(ms: seq<Migration>, applied: Applied) returns (ks: seq<nat>)
    ensures Positions(ks, ms, applied, ToApply)
    ensures var pending := PendingOf(ms, applied);
            |pending| == |ks| && forall i | 0 <= i < |ks| :: PendingAt(pending[i], ms, applied, ks[i])
    decreases |ms|
  {
    ks := [];
    if ms != [] {
      var before := PendingIs(ms[..|ms| - 1], applied);
      OneMoreFile(before, ms, applied, ToApply);
      ks := OneMore(before, ms, applied, ToApply);
      assert forall i | 0 <= i < |before| ::
          PendingAt(PendingOf(ms[..|ms| - 1], applied)[i], ms[..|ms| - 1], applied, before[i]);
    }
  }

  lemma {:induction false} SettledIs(ms: seq<Migration>, applied: Applied) returns (ks: seq<nat>)
    ensures Positions(ks, ms, applied, AsRecorded)
    ensures var settled := SettledOf(ms, applied);
            |settled| == |ks| && forall i | 0 <= i < |ks| :: settled[i] == ms[ks[i]].filename
    decreases |ms|
  {
    ks := [];
    if ms != [] {
      var before := SettledIs(ms[..|ms| - 1], applied);
      OneMoreFile(before, ms, applied, AsRecorded);
      ks := OneMore(before, ms, applied, AsRecorded);
    }
  }

  predicate DriftAt(d: Drift, ms: seq<Migration>, applied: Applied, k: nat) {
    && k < |ms| && ms[k].filename in applied
    && d == Drift(ms[k].filename, applied[ms[k].filename], ms[k].checksum)
  }

  lemma {:induction false} DriftIs(ms: seq<Migration>, applied: Applied) returns (ks: seq<nat>)
    ensures Positions(ks, ms, applied, Drifted)
    ensures var drifted := DriftOf(ms, applied);
            |drifted| == |ks| && forall i | 0 <= i < |ks| :: DriftAt(drifted[i], ms, applied, ks[i])
    decreases |ms|
  {
    ks := [];
    if ms != [] {
      var before := DriftIs(ms[..|ms| - 1], applied);
      OneMoreFile(before, ms, applied, Drifted);
      ks := OneMore(before, ms, applied, Drifted);
      assert forall i | 0 <= i < |before| ::
          DriftAt(DriftOf(ms[..|ms| - 1], applied)[i], ms[..|ms| - 1], applied, before[i]);
    }
  }

  /** The three lists, each in migration order. A file is pending exactly when it is
      unrecorded, or edited and repeatable; drifted when it is edited and not repeatable;
      settled when it is recorded as it is. It is pending as new when unrecorded. */
  lemma {:induction false} PlanIs(ms: seq<Migration>, applied: Applied)
      returns (pending: seq<nat>, settled: seq<nat>, drifted: seq<nat>)
    ensures Positions(pending, ms, applied, ToApply)
    ensures Positions(settled, ms, applied, AsRecorded)
    ensures Positions(drifted, ms, applied, Drifted)
    ensures var plan := PlanOf(ms, applied);
            && |plan.pending| == |pending| && |plan.settled| == |settled| && |plan.drifted| == |drifted|
            && (forall i | 0 <= i < |pending| :: PendingAt(plan.pending[i], ms, applied, pending[i]))
            && (forall i | 0 <= i < |settled| :: plan.settled[i] == ms[settled[i]].filename)
            && (forall i | 0 <= i < |drifted| :: DriftAt(plan.drifted[i], ms, applied, drifted[i]))
  {
    pending := PendingIs(ms, applied);
    settled := SettledIs(ms, applied);
    drifted := DriftIs(ms, applied);
  }

  // ----- applying a plan -----

  /** The record after every pending file ran. */
  function Recorded(pending: seq<Pending>, applied: Applied): Applied {
    if pending == [] then applied
    else
      var last := pending[|pending| - 1].migration;
      Recorded(pending[..|pending| - 1], applied)[last.filename := last.checksum]
  }

  predicate DistinctNames(ms: seq<Migration>) {
    forall i, j | 0 <= i < j < |ms| :: ms[i].filename != ms[j].filename
  }

  lemma {:induction false} RecordedAt(ms: seq<Migration>, applied: Applied, k: nat)
    requires DistinctNames(ms) && k < |ms|
    ensures var after := Recorded(PendingOf(ms, applied), applied);
            if VerdictOn(ms[k], applied).Apply? then ms[k].filename in after && after[ms[k].filename] == ms[k].checksum
            else ms[k].filename in after && after[ms[k].filename] == applied[ms[k].filename]
    decreases |ms|
  {
    var rest, last := ms[..|ms| - 1], ms[|ms| - 1];
    RecordedSplit(rest, last, applied);
    assert ms == rest + [last];
    if k < |rest| {
      RecordedAt(rest, applied, k);
    } else {
      RecordedElsewhere(rest, applied, last.filename);
    }
  }

  lemma {:induction false} RecordedSplit(rest: seq<Migration>, last: Migration, applied: Applied)
    ensures Recorded(PendingOf(rest + [last], applied), applied)
         == if VerdictOn(last, applied).Apply?
            then Recorded(PendingOf(rest, applied), applied)[last.filename := last.checksum]
            else Recorded(PendingOf(rest, applied), applied)
  {
    assert (rest + [last])[..|rest|] == rest;
    var pending := PendingOf(rest, applied);
    if VerdictOn(last, applied).Apply? {
      var p := Pending(last, VerdictOn(last, applied).reason);
      assert (pending + [p])[..|pending|] == pending;
    } else {
      assert pending + [] == pending;
    }
  }

  lemma {:induction false} RecordedElsewhere(ms: seq<Migration>, applied: Applied, name: string)
    requires forall k | 0 <= k < |ms| :: ms[k].filename != name
    ensures var after := Recorded(PendingOf(ms, applied), applied);
            (name in after <==> name in applied) && (name in after ==> after[name] == applied[name])
    decreases |ms|
  {
    if ms != [] {
      var rest, last := ms[..|ms| - 1], ms[|ms| - 1];
      assert ms == rest + [last];
      RecordedSplit(rest, last, applied);
      RecordedElsewhere(rest, applied, name);
    }
  }

  lemma {:induction false} SettledPlan(ms: seq<Migration>, applied: Applied, after: Applied)
    requires forall k | 0 <= k < |ms| ::
               VerdictOn(ms[k], after) == if VerdictOn(ms[k], applied).Apply? then Leave else VerdictOn(ms[k], applied)
    requires forall k | 0 <= k < |ms| && VerdictOn(ms[k], applied).Report? ::
               ms[k].filename in after && after[ms[k].filename] == applied[ms[k].filename]
    ensures PendingOf(ms, after) == [] && DriftOf(ms, after) == DriftOf(ms, applied)
    ensures |SettledOf(ms, after)| == |ms| - |DriftOf(ms, applied)|
    decreases |ms|
  {
    if ms != [] {
      SettledPlan(ms[..|ms| - 1], applied, after);
    }
  }

  /** Applying a plan settles it: planning again finds nothing to apply, reports the same
      drift, and leaves every other file alone. Run-once files that were edited are
      never applied. */
  lemma {:induction false} ApplyingSettles(ms: seq<Migration>, applied: Applied)
    requires DistinctNames(ms)
    ensures var again := PlanOf(ms, Recorded(PlanOf(ms, applied).pending, applied));
            && again.pending == []
            && again.drifted == PlanOf(ms, applied).drifted
            && |again.settled| == |ms| - |again.drifted|
  {
    var after := Recorded(PendingOf(ms, applied), applied);
    forall k | 0 <= k < |ms|
      ensures VerdictOn(ms[k], after) == if VerdictOn(ms[k], applied).Apply? then Leave else VerdictOn(ms[k], applied)
      ensures VerdictOn(ms[k], applied).Report? ==> after[ms[k].filename] == applied[ms[k].filename]
    {
      RecordedAt(ms, applied, k);
    }
    SettledPlan(ms, applied, after);
  }
}
