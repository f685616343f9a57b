/** Runs of interleaved writers against the two stores: the table refines the dict, and
    history is consecutive, complete and never rewritten. */
module StoreRuns {
  import opened Wrappers
  import opened SortKeys
  import opened Stores

  // ----- what every reachable in-memory state satisfies -----

  ghost predicate Consecutive(versions: seq<Event>, id: string) {
    && versions != []
    && forall k | 0 <= k < |versions| ::
         versions[k].id == id && versions[k].version == versions[0].version + k
  }

  ghost predicate GoodEvent(m: Memory, id: string)
    requires id in m.events && id in m.versions && id in m.audit
  {
    && Consecutive(m.versions[id], id)
    && |m.audit[id]| == |m.versions[id]|
    && m.events[id] == m.versions[id][|m.versions[id]| - 1]
  }

  /** Each event's versions are consecutive and end at the current one, and each version
      has exactly one audit record. */
  ghost predicate Good(m: Memory) {
    && m.events.Keys == m.versions.Keys == m.audit.Keys
    && forall id <- m.events :: GoodEvent(m, id)
  }

  /** Why the dict refuses a step: it creates an event that is there, continues one that is
      not there or is at another version, or writes a version that is listed. */
  lemma {:induction false} RefusalIs(m: Memory, step: Step, creating: bool)
    ensures MemoryRefusal(m, step, creating) == Some(ConcurrentModification) <==>
      if step.event.id in m.events then creating || step.event.version != m.events[step.event.id].version + 1
      else !creating
    ensures MemoryRefusal(m, step, creating) == Some(VersionAlreadyExists) <==>
      && MemoryRefusal(m, step, creating) != Some(ConcurrentModification)
      && step.event.id in m.versions && exists e <- m.versions[step.event.id] :: e.version == step.event.version
  {
    var versions := Get(m.versions, step.event.id);
    assert forall k | 0 <= k < |versions| :: versions[k] in versions;
    if e :| e in versions && e.version == step.event.version {
      var k :| 0 <= k < |versions| && versions[k] == e;
      assert versions[k].version == step.event.version;
    }
  }

  /** A version that continues an event's list is not in it yet. */
  lemma {:induction false} NeverAlreadyListed(m: Memory, step: Step, creating: bool)
    requires Good(m)
    ensures MemoryRefusal(m, step, creating) != Some(VersionAlreadyExists)
  {
    var id := step.event.id;
    if id in m.events {
      assert GoodEvent(m, id);
      var versions := m.versions[id];
      assert forall k | 0 <= k < |versions| :: versions[k].version <= m.events[id].version;
    }
  }

  lemma {:induction false} AppendIsConsecutive(versions: seq<Event>, e: Event)
    requires versions == [] || (Consecutive(versions, e.id) && e.version == versions[|versions| - 1].version + 1)
    ensures Consecutive(versions + [e], e.id)
  {}

  lemma {:induction false} ChangedIsGood(m: Memory, step: Step, creating: bool)
    requires Good(m) && MemoryRefusal(m, step, creating).None?
    ensures GoodEvent(MemoryAfter(m, step, creating), step.event.id)
  {
    var id := step.event.id;
    if id in m.events {
      assert GoodEvent(m, id);
    }
    AppendIsConsecutive(Get(m.versions, id), step.event);
  }

  /** Every step keeps the state good, whatever its audit record says; the dict never finds
      a version already listed. */
  lemma {:induction false} StepKeepsGood(m: Memory, step: Step, creating: bool)
    requires Good(m)
    ensures Good(MemoryAfter(m, step, creating))
    ensures MemoryRefusal(m, step, creating) in {None, Some(ConcurrentModification)}
  {
    NeverAlreadyListed(m, step, creating);
    if MemoryRefusal(m, step, creating).None? {
      var m' := MemoryAfter(m, step, creating);
      ChangedIsGood(m, step, creating);
      forall id | id in m'.events && id != step.event.id
        ensures GoodEvent(m', id)
      {
        assert GoodEvent(m, id);
      }
    }
  }

  // ----- numbered audit records -----

  /** The resolver numbers an audit record by the version it explains. */
  predicate Numbered(step: Step) {
    step.audit.sequence == step.event.version
  }

  ghost predicate Audited(audit: seq<Audit>, versions: seq<Event>) {
    |audit| == |versions| && forall k | 0 <= k < |audit| :: audit[k].sequence == versions[k].version
  }

  ghost predicate AllAudited(m: Memory) {
    m.audit.Keys == m.versions.Keys && forall id <- m.audit :: Audited(m.audit[id], m.versions[id])
  }

  lemma {:induction false} StepKeepsAudited(m: Memory, step: Step, creating: bool)
    requires Good(m) && AllAudited(m) && Numbered(step)
    ensures AllAudited(MemoryAfter(m, step, creating))
  {
    NeverAlreadyListed(m, step, creating);
    if MemoryRefusal(m, step, creating).None? {
      var m' := MemoryAfter(m, step, creating);
      forall id <- m'.audit
        ensures Audited(m'.audit[id], m'.versions[id])
      {
        if id in m.audit {
          assert Audited(m.audit[id], m.versions[id]);
        }
      }
    }
  }

  // ----- the table mirrors the dict -----

  /** The lists, in step, reach the given version. */
  predicate Lists(versions: seq<Event>, audit: seq<Audit>, version: nat) {
    && |versions| == |audit| && versions != []
    && versions[0].version <= version < versions[0].version + |versions|
  }

  predicate Holds(m: Memory, id: string, version: nat) {
    id in m.versions && id in m.audit && Lists(m.versions[id], m.audit[id], version)
  }

  function VersionAt(m: Memory, id: string, version: nat): Event
    requires Holds(m, id, version)
  {
    m.versions[id][version - m.versions[id][0].version]
  }

  function AuditAt(m: Memory, id: string, version: nat): Audit
    requires Holds(m, id, version)
  {
    m.audit[id][version - m.versions[id][0].version]
  }

  ghost predicate MirrorsVersion(t: Table, m: Memory, id: string, v: nat) {
    && ((id, VersionSk(v)) in t <==> Holds(m, id, v))
    && ((id, AuditSk(v)) in t <==> Holds(m, id, v))
    && (Holds(m, id, v) ==>
          && t[(id, VersionSk(v))] == VersionItem(VersionAt(m, id, v))
          && t[(id, AuditSk(v))] == AuditItem(AuditAt(m, id, v)))
  }

  ghost predicate MirrorsCurrent(t: Table, m: Memory, id: string) {
    && ((id, CURRENT_SK) in t <==> id in m.events)
    && (id in m.events ==> t[(id, CURRENT_SK)] == CurrentItem(m.events[id]))
  }

  ghost predicate KnownKey(sk: string) {
    sk == CURRENT_SK || exists v: nat :: sk == VersionSk(v) || sk == AuditSk(v)
  }

  /** Same versions, same audit records, same current events, and nothing else. */
  ghost predicate Mirrors(t: Table, m: Memory) {
    && (forall id, v: nat :: MirrorsVersion(t, m, id, v))
    && (forall id :: MirrorsCurrent(t, m, id))
    && (forall key <- t :: KnownKey(key.1))
  }

  lemma {:induction false} HoldsIff(m: Memory, step: Step, creating: bool)
    requires Good(m)
    ensures MemoryRefusal(m, step, creating).None? ==> !Holds(m, step.event.id, step.event.version)
  {
    if step.event.id in m.events {
      assert GoodEvent(m, step.event.id);
    }
  }

  /** From a mirrored state, the table takes a step exactly when the dict does. */
  lemma {:induction false} SameAcceptance(t: Table, m: Memory, step: Step, creating: bool)
    requires Good(m) && Mirrors(t, m) && Numbered(step)
    ensures TableRefusal(t, step, creating).None? <==> MemoryRefusal(m, step, creating).None?
  {
    var e := step.event;
    assert MirrorsVersion(t, m, e.id, e.version) && MirrorsCurrent(t, m, e.id);
    StepKeepsGood(m, step, creating);
    HoldsIff(m, step, creating);
  }

  lemma {:induction false} ListsAfter(versions: seq<Event>, audit: seq<Audit>, e: Event, a: Audit, v: nat)
    requires |versions| == |audit|
    requires versions != [] ==> e.version == versions[0].version + |versions|
    ensures Lists(versions + [e], audit + [a], v) <==> Lists(versions, audit, v) || v == e.version
    ensures var first := if versions == [] then e.version else versions[0].version;
            && (v == e.version ==> (versions + [e])[v - first] == e && (audit + [a])[v - first] == a)
            && (Lists(versions, audit, v) ==>
                  (versions + [e])[v - first] == versions[v - first] && (audit + [a])[v - first] == audit[v - first])
  {
  }

  lemma {:induction false} HoldsAfterSame(m: Memory, step: Step, creating: bool, v: nat)
    requires Good(m) && MemoryRefusal(m, step, creating).None?
    ensures var id := step.event.id;
            var m' := MemoryAfter(m, step, creating);
            && (Holds(m', id, v) <==> Holds(m, id, v) || v == step.event.version)
            && (v == step.event.version ==> VersionAt(m', id, v) == step.event && AuditAt(m', id, v) == step.audit)
            && (Holds(m, id, v) ==>
                  VersionAt(m', id, v) == VersionAt(m, id, v) && AuditAt(m', id, v) == AuditAt(m, id, v))
  {
    var id := step.event.id;
    if id in m.events {
      assert GoodEvent(m, id);
    }
    ListsAfter(Get(m.versions, id), Get(m.audit, id), step.event, step.audit, v);
  }

  lemma {:induction false} HoldsAfter(m: Memory, step: Step, creating: bool, id: string, v: nat)
    requires Good(m) && MemoryRefusal(m, step, creating).None?
    ensures var m' := MemoryAfter(m, step, creating);
            var landed := id == step.event.id && v == step.event.version;
            && (Holds(m', id, v) <==> Holds(m, id, v) || landed)
            && (landed ==> VersionAt(m', id, v) == step.event && AuditAt(m', id, v) == step.audit)
            && (Holds(m, id, v) ==>
                  VersionAt(m', id, v) == VersionAt(m, id, v) && AuditAt(m', id, v) == AuditAt(m, id, v))
  {
    if id == step.event.id {
      HoldsAfterSame(m, step, creating, v);
    }
  }

  /** What an accepted step leaves under one version and one audit key. */
  lemma {:induction false} ItemsAfter(t: Table, step: Step, creating: bool, id: string, v: nat)
    requires TableRefusal(t, step, creating).None? && Numbered(step)
    ensures var t' := TableAfter(t, step, creating);
            var landed := id == step.event.id && v == step.event.version;
            var version, audit := (id, VersionSk(v)), (id, AuditSk(v));
            && (version in t' <==> version in t || landed) && (audit in t' <==> audit in t || landed)
            && (landed ==> t'[version] == VersionItem(step.event) && t'[audit] == AuditItem(step.audit))
            && (!landed && version in t ==> t'[version] == t[version])
            && (!landed && audit in t ==> t'[audit] == t[audit])
  {
    KeysDistinct(v, step.event.version);
    KeysDistinct(step.event.version, v);
  }

  lemma {:induction false} AcceptedStepMirrorsVersion(
      t: Table, m: Memory, step: Step, creating: bool, id: string, v: nat)
    requires Good(m) && Mirrors(t, m) && Numbered(step) && MemoryRefusal(m, step, creating).None?
    ensures MirrorsVersion(TableAfter(t, step, creating), MemoryAfter(m, step, creating), id, v)
  {
    SameAcceptance(t, m, step, creating);
    assert MirrorsVersion(t, m, id, v);
    MirrorsVersionAfter(t, m, step, creating, id, v);
  }

  lemma {:induction false} MirrorsVersionAfter(t: Table, m: Memory, step: Step, creating: bool, id: string, v: nat)
    requires Good(m) && MirrorsVersion(t, m, id, v) && Numbered(step)
    requires MemoryRefusal(m, step, creating).None? && TableRefusal(t, step, creating).None?
    ensures MirrorsVersion(TableAfter(t, step, creating), MemoryAfter(m, step, creating), id, v)
  {
    HoldsAfter(m, step, creating, id, v);
    HoldsIff(m, step, creating);
    ItemsAfter(t, step, creating, id, v);
  }

  lemma {:induction false} AcceptedStepMirrorsCurrent(t: Table, m: Memory, step: Step, creating: bool, id: string)
    requires Good(m) && Mirrors(t, m) && Numbered(step) && MemoryRefusal(m, step, creating).None?
    ensures MirrorsCurrent(TableAfter(t, step, creating), MemoryAfter(m, step, creating), id)
  {
    SameAcceptance(t, m, step, creating);
    KeysDistinct(step.event.version, step.event.version);
    assert MirrorsCurrent(t, m, id);
  }

  lemma {:induction false} StepKeepsKeysKnown(t: Table, step: Step, creating: bool)
    requires forall key <- t :: KnownKey(key.1)
    ensures forall key <- TableAfter(t, step, creating) :: KnownKey(key.1)
  {
    forall key <- TableAfter(t, step, creating)
      ensures KnownKey(key.1)
    {
      if key !in t {
        assert key.1 in {CURRENT_SK, VersionSk(step.event.version), AuditSk(step.audit.sequence)};
      }
    }
  }

  /** A step leaves mirrored states mirrored, accepted or refused. */
  lemma {:induction false} StepMirrors(t: Table, m: Memory, step: Step, creating: bool)
    requires Good(m) && Mirrors(t, m) && Numbered(step)
    ensures Mirrors(TableAfter(t, step, creating), MemoryAfter(m, step, creating))
  {
    SameAcceptance(t, m, step, creating);
    NeverAlreadyListed(m, step, creating);
    if MemoryRefusal(m, step, creating).None? {
      var t', m' := TableAfter(t, step, creating), MemoryAfter(m, step, creating);
      forall id, v: nat
        ensures MirrorsVersion(t', m', id, v)
      {
        AcceptedStepMirrorsVersion(t, m, step, creating, id, v);
      }
      forall id
        ensures MirrorsCurrent(t', m', id)
      {
        AcceptedStepMirrorsCurrent(t, m, step, creating, id);
      }
      StepKeepsKeysKnown(t, step, creating);
    }
  }

  /** Without the numbering, the table also needs the audit key to be free, and that is
      the whole difference. */
  lemma {:induction false} AcceptanceWithAnySequence(t: Table, m: Memory, step: Step, creating: bool)
    requires Good(m) && Mirrors(t, m)
    ensures TableRefusal(t, step, creating).None?
      <==> MemoryRefusal(m, step, creating).None? && !Holds(m, step.event.id, step.audit.sequence)
  {
    var e := step.event;
    var numbered := step.(audit := step.audit.(sequence := e.version));
    SameAcceptance(t, m, numbered, creating);
    assert MirrorsVersion(t, m, e.id, e.version) && MirrorsVersion(t, m, e.id, step.audit.sequence);
    assert MemoryRefusal(m, step, creating) == MemoryRefusal(m, numbered, creating);
    StepKeepsGood(m, numbered, creating);
    HoldsIff(m, numbered, creating);
  }

  /** Every refusal is named differently: the dict always reports a concurrent
      modification, the table always a version that already exists. */
  lemma {:induction false} RefusalsAlwaysDiffer(t: Table, m: Memory, step: Step, creating: bool)
    requires Good(m) && Mirrors(t, m) && Numbered(step)
    requires MemoryRefusal(m, step, creating).Some?
    ensures MemoryRefusal(m, step, creating) == Some(ConcurrentModification)
    ensures TableRefusal(t, step, creating) == Some(VersionAlreadyExists)
  {
    StepKeepsGood(m, step, creating);
    SameAcceptance(t, m, step, creating);
  }

  // ----- interleaved writers -----

  /** A `write_change` call in progress. */
  datatype Writer = Writer(change: Change, next: nat, refused: bool)

  predicate Running(w: Writer) {
    !w.refused && w.next < |w.change.steps|
  }

  function CurrentStep(w: Writer): Step
    requires Running(w)
  {
    w.change.steps[w.next]
  }

  predicate Creating(w: Writer) {
    w.change.created && w.next == 0
  }

  function Advanced(w: Writer, accepted: bool): Writer {
    if accepted then w.(next := w.next + 1) else w.(refused := true)
  }

  datatype System<S> = System(store: S, writers: seq<Writer>)

  /** The `turn`-th writer writes its next step; a finished writer does nothing. */
  function MemoryTurn(s: System<Memory>, turn: nat): System<Memory>
    requires turn < |s.writers|
  {
    var w := s.writers[turn];
    if !Running(w) then s
    else
      var accepted := MemoryRefusal(s.store, CurrentStep(w), Creating(w)).None?;
      System(MemoryAfter(s.store, CurrentStep(w), Creating(w)), s.writers[turn := Advanced(w, accepted)])
  }

  function TableTurn(s: System<Table>, turn: nat): System<Table>
    requires turn < |s.writers|
  {
    var w := s.writers[turn];
    if !Running(w) then s
    else
      var accepted := TableRefusal(s.store, CurrentStep(w), Creating(w)).None?;
      System(TableAfter(s.store, CurrentStep(w), Creating(w)), s.writers[turn := Advanced(w, accepted)])
  }

  predicate Schedule(n: nat, turns: seq<nat>) {
    forall k | 0 <= k < |turns| :: turns[k] < n
  }

  function MemoryRun(s: System<Memory>, turns: seq<nat>): (r: System<Memory>)
    requires Schedule(|s.writers|, turns)
    ensures |r.writers| == |s.writers|
    decreases |turns|
  {
    if turns == [] then s
    else
      var before := MemoryRun(s, turns[..|turns| - 1]);
      MemoryTurn(before, turns[|turns| - 1])
  }

  function TableRun(s: System<Table>, turns: seq<nat>): (r: System<Table>)
    requires Schedule(|s.writers|, turns)
    ensures |r.writers| == |s.writers|
    decreases |turns|
  {
    if turns == [] then s
    else
      var before := TableRun(s, turns[..|turns| - 1]);
      TableTurn(before, turns[|turns| - 1])
  }

  predicate AllNumbered(writers: seq<Writer>) {
    forall i, k | 0 <= i < |writers| && 0 <= k < |writers[i].change.steps| :: Numbered(writers[i].change.steps[k])
  }

  ghost predicate Refines(t: System<Table>, m: System<Memory>) {
    && Good(m.store) && AllAudited(m.store) && Mirrors(t.store, m.store)
    && t.writers == m.writers && AllNumbered(m.writers)
  }

  lemma {:induction false} TurnRefines(t: System<Table>, m: System<Memory>, turn: nat)
    requires Refines(t, m) && turn < |m.writers|
    ensures Refines(TableTurn(t, turn), MemoryTurn(m, turn))
  {
    var w := m.writers[turn];
    if Running(w) {
      assert Numbered(CurrentStep(w));
      SameAcceptance(t.store, m.store, CurrentStep(w), Creating(w));
      StepMirrors(t.store, m.store, CurrentStep(w), Creating(w));
      StepKeepsGood(m.store, CurrentStep(w), Creating(w));
      StepKeepsAudited(m.store, CurrentStep(w), Creating(w));
    }
  }

  lemma {:induction false} RunsRefineFrom(t: System<Table>, m: System<Memory>, turns: seq<nat>)
    requires Refines(t, m) && Schedule(|m.writers|, turns)
    ensures Refines(TableRun(t, turns), MemoryRun(m, turns))
    decreases |turns|
  {
    if turns != [] {
      var earlier, turn := turns[..|turns| - 1], turns[|turns| - 1];
      RunsRefineFrom(t, m, earlier);
      TurnRefines(TableRun(t, earlier), MemoryRun(m, earlier), turn);
    }
  }

  lemma {:induction false} EmptyMirrors()
    ensures Good(EMPTY_MEMORY) && AllAudited(EMPTY_MEMORY) && Mirrors(map[], EMPTY_MEMORY)
  {
  }

  /** In every run of interleaved writers, chains that fail half-way included, both
      stores take and refuse the same steps and hold the same versions, audit records
      and current events. */
  lemma {:induction false} RunsRefine(writers: seq<Writer>, turns: seq<nat>)
    requires AllNumbered(writers) && Schedule(|writers|, turns)
    ensures Refines(TableRun(System(map[], writers), turns), MemoryRun(System(EMPTY_MEMORY, writers), turns))
  {
    EmptyMirrors();
    RunsRefineFrom(System(map[], writers), System(EMPTY_MEMORY, writers), turns);
  }

  // ----- history -----

  /** Over every run, from any good state and whatever the audit records say: versions stay
      consecutive up to the current one, with one audit record each. */
  lemma {:induction false} RunKeepsGood(s: System<Memory>, turns: seq<nat>)
    requires Good(s.store) && Schedule(|s.writers|, turns)
    ensures Good(MemoryRun(s, turns).store)
    decreases |turns|
  {
    if turns != [] {
      var earlier := turns[..|turns| - 1];
      RunKeepsGood(s, earlier);
      var before := MemoryRun(s, earlier);
      var w := before.writers[turns[|turns| - 1]];
      if Running(w) {
        StepKeepsGood(before.store, CurrentStep(w), Creating(w));
      }
    }
  }

  /** `later` extends `earlier`: no version or audit record gone, changed or moved. */
  ghost predicate Appends(earlier: Memory, later: Memory) {
    && (forall id <- earlier.versions :: id in later.versions && earlier.versions[id] <= later.versions[id])
    && (forall id <- earlier.audit :: id in later.audit && earlier.audit[id] <= later.audit[id])
  }

  lemma {:induction false} RunAppends(s: System<Memory>, turns: seq<nat>)
    requires Schedule(|s.writers|, turns)
    ensures Appends(s.store, MemoryRun(s, turns).store)
    decreases |turns|
  {
    if turns != [] {
      RunAppends(s, turns[..|turns| - 1]);
    }
  }

  /** The table keeps its history from any state at all, whatever the steps say: an item
      that is not a current pointer is never overwritten and never removed. */
  lemma {:induction false} TableAppends(s: System<Table>, turns: seq<nat>, key: (string, string))
    requires Schedule(|s.writers|, turns) && key in s.store && key.1 != CURRENT_SK
    ensures key in TableRun(s, turns).store && TableRun(s, turns).store[key] == s.store[key]
    decreases |turns|
  {
    if turns != [] {
      TableAppends(s, turns[..|turns| - 1], key);
    }
  }

  /** The steps a run accepted, in order. */
  datatype Landing = Landing(writer: nat, id: string, version: nat)

  function Landed(s: System<Memory>, turns: seq<nat>): seq<Landing>
    requires Schedule(|s.writers|, turns)
    decreases |turns|
  {
    if turns == [] then []
    else
      var earlier, turn := turns[..|turns| - 1], turns[|turns| - 1];
      var before := MemoryRun(s, earlier);
      var w := before.writers[turn];
      Landed(s, earlier)
      + (if Running(w) && MemoryRefusal(before.store, CurrentStep(w), Creating(w)).None?
         then [Landing(turn, CurrentStep(w).event.id, CurrentStep(w).event.version)] else [])
  }

  lemma {:induction false} LandedIsHeld(s: System<Memory>, turns: seq<nat>)
    requires Good(s.store) && Schedule(|s.writers|, turns)
    ensures forall l <- Landed(s, turns) :: Holds(MemoryRun(s, turns).store, l.id, l.version)
    decreases |turns|
  {
    if turns != [] {
      var earlier, turn := turns[..|turns| - 1], turns[|turns| - 1];
      LandedIsHeld(s, earlier);
      RunKeepsGood(s, earlier);
      var before := MemoryRun(s, earlier);
      var w := before.writers[turn];
      if Running(w) {
        StepKeepsGood(before.store, CurrentStep(w), Creating(w));
        if MemoryRefusal(before.store, CurrentStep(w), Creating(w)).None? {
          forall l <- Landed(s, turns)
            ensures Holds(MemoryRun(s, turns).store, l.id, l.version)
          {
            HoldsAfter(before.store, CurrentStep(w), Creating(w), l.id, l.version);
          }
        }
      }
    }
  }

  /** At most one writer lands a given version, and lands it once: in every run from any
      good state. */
  lemma {:induction false} VersionsLandOnce(s: System<Memory>, turns: seq<nat>, a: nat, b: nat)
    requires Good(s.store) && Schedule(|s.writers|, turns) && a < b < |Landed(s, turns)|
    ensures var landed := Landed(s, turns);
            landed[a].id != landed[b].id || landed[a].version != landed[b].version
    decreases |turns|
  {
    var earlier, turn := turns[..|turns| - 1], turns[|turns| - 1];
    var before := MemoryRun(s, earlier);
    var w := before.writers[turn];
    if b < |Landed(s, earlier)| {
      VersionsLandOnce(s, earlier, a, b);
    } else {
      LandedIsHeld(s, earlier);
      RunKeepsGood(s, earlier);
      HoldsIff(before.store, CurrentStep(w), Creating(w));
      assert Landed(s, earlier)[a] in Landed(s, earlier);
    }
  }

  /** The same for the table. */
  function TableLanded(s: System<Table>, turns: seq<nat>): seq<Landing>
    requires Schedule(|s.writers|, turns)
    decreases |turns|
  {
    if turns == [] then []
    else
      var earlier, turn := turns[..|turns| - 1], turns[|turns| - 1];
      var before := TableRun(s, earlier);
      var w := before.writers[turn];
      TableLanded(s, earlier)
      + (if Running(w) && TableRefusal(before.store, CurrentStep(w), Creating(w)).None?
         then [Landing(turn, CurrentStep(w).event.id, CurrentStep(w).event.version)] else [])
  }

  lemma {:induction false} TableLandedIsHeld(s: System<Table>, turns: seq<nat>)
    requires Schedule(|s.writers|, turns)
    ensures forall l <- TableLanded(s, turns) :: (l.id, VersionSk(l.version)) in TableRun(s, turns).store
    decreases |turns|
  {
    if turns != [] {
      var earlier := turns[..|turns| - 1];
      TableLandedIsHeld(s, earlier);
      forall l <- TableLanded(s, earlier)
        ensures (l.id, VersionSk(l.version)) in TableRun(s, turns).store
      {
        assert (l.id, VersionSk(l.version)) in TableRun(s, earlier).store;
      }
    }
  }

  /** In the table a version lands at most once whatever the writers write, audit numbers
      included, and from any table. */
  lemma {:induction false} TableLandsOnce(s: System<Table>, turns: seq<nat>, a: nat, b: nat)
    requires Schedule(|s.writers|, turns) && a < b < |TableLanded(s, turns)|
    ensures var landed := TableLanded(s, turns);
            landed[a].id != landed[b].id || landed[a].version != landed[b].version
    decreases |turns|
  {
    var earlier := turns[..|turns| - 1];
    if b < |TableLanded(s, earlier)| {
      TableLandsOnce(s, earlier, a, b);
    } else {
      TableLandedIsHeld(s, earlier);
      assert TableLanded(s, earlier)[a] in TableLanded(s, earlier);
    }
  }

  /** Runs of numbered steps land the same versions, by the same writers, in both stores. */
  lemma {:induction false} SameLandings(writers: seq<Writer>, turns: seq<nat>)
    requires AllNumbered(writers) && Schedule(|writers|, turns)
    ensures TableLanded(System(map[], writers), turns) == Landed(System(EMPTY_MEMORY, writers), turns)
    decreases |turns|
  {
    if turns != [] {
      var earlier, turn := turns[..|turns| - 1], turns[|turns| - 1];
      SameLandings(writers, earlier);
      RunsRefine(writers, earlier);
      var t, m := TableRun(System(map[], writers), earlier), MemoryRun(System(EMPTY_MEMORY, writers), earlier);
      var w := m.writers[turn];
      if Running(w) {
        assert Numbered(CurrentStep(w));
        SameAcceptance(t.store, m.store, CurrentStep(w), Creating(w));
      }
    }
  }

  // ----- one write_change call is a run of one writer -----

  function Zeros(n: nat): (r: seq<nat>)
    ensures |r| == n && Schedule(1, r)
  {
    seq(n, _ => 0)
  }

  /** What is left of the only writer's call. */
  function Finish(s: System<Table>): (Table, bool)
    requires |s.writers| == 1 && s.writers[0].next <= |s.writers[0].change.steps|
  {
    var w := s.writers[0];
    if w.refused then (s.store, true)
    else
      var (t, refusal) := TableWrite(s.store, w.change, w.next);
      (t, refusal.Some?)
  }

  lemma {:induction false} TurnsKeepFinish(t: Table, change: Change, n: nat)
    requires n <= |change.steps|
    ensures var s := TableRun(System(t, [Writer(change, 0, false)]), Zeros(n));
            && s.writers[0].change == change && s.writers[0].next <= n
            && (!s.writers[0].refused ==> s.writers[0].next == n)
            && Finish(s) == Finish(System(t, [Writer(change, 0, false)]))
    decreases n
  {
    if n > 0 {
      assert Zeros(n)[..n - 1] == Zeros(n - 1);
      TurnsKeepFinish(t, change, n - 1);
    }
  }

  /** Left alone, a writer's turns do what `WriteChange` does to the table. */
  lemma {:induction false} WriteChangeIsARun(t: Table, change: Change)
    ensures var s := TableRun(System(t, [Writer(change, 0, false)]), Zeros(|change.steps|));
            var (after, refusal) := TableWrite(t, change, 0);
            s.store == after && s.writers[0].refused == refusal.Some?
  {
    TurnsKeepFinish(t, change, |change.steps|);
  }

  /** What is left of the only writer's call to the dict. */
  function MemoryFinish(s: System<Memory>): (Memory, bool)
    requires |s.writers| == 1 && s.writers[0].next <= |s.writers[0].change.steps|
  {
    var w := s.writers[0];
    if w.refused then (s.store, true)
    else
      var (m, refusal) := MemoryWrite(s.store, w.change, w.next);
      (m, refusal.Some?)
  }

  lemma {:induction false} TurnsKeepMemoryFinish(m: Memory, change: Change, n: nat)
    requires n <= |change.steps|
    ensures var s := MemoryRun(System(m, [Writer(change, 0, false)]), Zeros(n));
            && s.writers[0].change == change && s.writers[0].next <= n
            && (!s.writers[0].refused ==> s.writers[0].next == n)
            && MemoryFinish(s) == MemoryFinish(System(m, [Writer(change, 0, false)]))
    decreases n
  {
    if n > 0 {
      assert Zeros(n)[..n - 1] == Zeros(n - 1);
      TurnsKeepMemoryFinish(m, change, n - 1);
    }
  }

  /** The same for the dict. */
  lemma {:induction false} MemoryWriteIsARun(m: Memory, change: Change)
    ensures var s := MemoryRun(System(m, [Writer(change, 0, false)]), Zeros(|change.steps|));
            var (after, refusal) := MemoryWrite(m, change, 0);
            s.store == after && s.writers[0].refused == refusal.Some?
  {
    TurnsKeepMemoryFinish(m, change, |change.steps|);
  }

  /** One `write_change` call on matching states leaves matching states, and both stores
      take it or refuse it together. */
  lemma {:induction false} WritesRefine(t: Table, m: Memory, change: Change)
    requires Good(m) && AllAudited(m) && Mirrors(t, m)
    requires forall j | 0 <= j < |change.steps| :: Numbered(change.steps[j])
    ensures TableWrite(t, change, 0).1.None? <==> MemoryWrite(m, change, 0).1.None?
    ensures Good(MemoryWrite(m, change, 0).0) && AllAudited(MemoryWrite(m, change, 0).0)
    ensures Mirrors(TableWrite(t, change, 0).0, MemoryWrite(m, change, 0).0)
  {
    var writers, turns := [Writer(change, 0, false)], Zeros(|change.steps|);
    RunsRefineFrom(System(t, writers), System(m, writers), turns);
    WriteChangeIsARun(t, change);
    MemoryWriteIsARun(m, change);
  }

  // ----- what lands of a change -----

  function EventsOf(steps: seq<Step>): seq<Event> {
    seq(|steps|, k requires 0 <= k < |steps| => steps[k].event)
  }

  function AuditsOf(steps: seq<Step>): seq<Audit> {
    seq(|steps|, k requires 0 <= k < |steps| => steps[k].audit)
  }

  /** The state with some steps for one event appended, the last one current. */
  function Added(m: Memory, id: string, steps: seq<Step>): Memory {
    if steps == [] then m
    else
      Memory(
        m.events[id := steps[|steps| - 1].event],
        m.versions[id := Get(m.versions, id) + EventsOf(steps)],
        m.audit[id := Get(m.audit, id) + AuditsOf(steps)])
  }

  predicate AllFor(id: string, steps: seq<Step>) {
    forall k | 0 <= k < |steps| :: steps[k].event.id == id
  }

  /** How many of the first steps have consecutive versions from the given one on. */
  function Consecutives(steps: seq<Step>, version: int): (n: nat)
    ensures n <= |steps|
    decreases |steps|
  {
    if steps != [] && steps[0].event.version == version then 1 + Consecutives(steps[1..], version + 1) else 0
  }

  lemma {:induction false} ConsecutivesIff(steps: seq<Step>, version: int, n: nat)
    requires n <= |steps|
    ensures Consecutives(steps, version) == n <==>
      && (forall k | 0 <= k < n :: steps[k].event.version == version + k)
      && (n < |steps| ==> steps[n].event.version != version + n)
    decreases n
  {
    if n > 0 {
      var rest := steps[1..];
      ConsecutivesIff(rest, version + 1, n - 1);
      assert forall k | 1 <= k < |steps| :: steps[k] == rest[k - 1];
    }
  }

  lemma {:induction false} AddedFirst(m: Memory, id: string, first: Step, rest: seq<Step>)
    ensures Added(m, id, [first] + rest) == Added(Added(m, id, [first]), id, rest)
  {
    var steps, m' := [first] + rest, Added(m, id, [first]);
    if rest == [] {
      assert steps == [first];
    } else {
      assert EventsOf(steps) == EventsOf([first]) + EventsOf(rest);
      assert AuditsOf(steps) == AuditsOf([first]) + AuditsOf(rest);
      AddedTwice(m.versions, id, EventsOf([first]), EventsOf(rest));
      AddedTwice(m.audit, id, AuditsOf([first]), AuditsOf(rest));
      assert m.events[id := first.event][id := rest[|rest| - 1].event] == m.events[id := rest[|rest| - 1].event];
    }
  }

  lemma {:induction false} AddedTwice<T>(m: map<string, seq<T>>, id: string, first: seq<T>, rest: seq<T>)
    ensures var m' := m[id := Get(m, id) + first];
            m'[id := Get(m', id) + rest] == m[id := Get(m, id) + (first + rest)]
  {
    assert (Get(m, id) + first) + rest == Get(m, id) + (first + rest);
  }

  lemma {:induction false} StepAdds(m: Memory, step: Step, creating: bool)
    requires MemoryRefusal(m, step, creating).None?
    ensures MemoryAfter(m, step, creating) == Added(m, step.event.id, [step])
  {
    assert EventsOf([step]) == [step.event] && AuditsOf([step]) == [step.audit];
  }

  /** Adding on to a first step. */
  lemma {:induction false} StepThenRest(m: Memory, step: Step, creating: bool, rest: seq<Step>, n: nat)
    requires MemoryRefusal(m, step, creating).None? && n <= |rest|
    ensures Added(MemoryAfter(m, step, creating), step.event.id, rest[..n])
         == Added(m, step.event.id, ([step] + rest)[..n + 1])
  {
    assert ([step] + rest)[..n + 1] == [step] + rest[..n];
    StepAdds(m, step, creating);
    AddedFirst(m, step.event.id, step, rest[..n]);
  }

  /** From its `k`-th step on, a change lands its next `n` steps, and is refused if any are
      left over. */
  predicate Lands(m: Memory, change: Change, id: string, k: nat, n: nat)
    requires k <= |change.steps|
  {
    && k + n <= |change.steps|
    && MemoryWrite(m, change, k)
    == (Added(m, id, change.steps[k..k + n]),
        if k + n == |change.steps| then None else Some(ConcurrentModification))
  }

  /** No version of the event is ahead of its current one. */
  predicate NoneAhead(m: Memory, id: string) {
    forall k | 0 <= k < |Get(m.versions, id)| ::
      id in m.events && Get(m.versions, id)[k].version <= m.events[id].version
  }

  lemma {:induction false} GoodIsNotAhead(m: Memory, id: string)
    requires Good(m)
    ensures NoneAhead(m, id)
  {
    if id in m.events {
      assert GoodEvent(m, id);
    }
  }

  lemma {:induction false} StepTaken(m: Memory, step: Step, creating: bool)
    requires NoneAhead(m, step.event.id)
    ensures var id := step.event.id;
            var m' := MemoryAfter(m, step, creating);
            if creating != (id in m.events)
               && (creating || step.event.version == m.events[id].version + 1) then
              && MemoryRefusal(m, step, creating).None?
              && NoneAhead(m', id) && id in m'.events && m'.events[id] == step.event
            else MemoryRefusal(m, step, creating) == Some(ConcurrentModification)
  {
  }

  /** An accepted step adds itself to what the rest of its change lands. */
  lemma {:induction false} FirstLands(m: Memory, change: Change, k: nat, n: nat)
    requires k < |change.steps|
    requires var step, creating := change.steps[k], change.created && k == 0;
             && MemoryRefusal(m, step, creating).None?
             && Lands(MemoryAfter(m, step, creating), change, step.event.id, k + 1, n)
    ensures Lands(m, change, change.steps[k].event.id, k, n + 1)
  {
    var step, rest := change.steps[k], change.steps[k + 1..];
    assert change.steps[k + 1..k + 1 + n] == rest[..n];
    assert change.steps[k..k + n + 1] == ([step] + rest)[..n + 1];
    StepThenRest(m, step, change.created && k == 0, rest, n);
  }

  lemma {:induction false} NoneLands(m: Memory, change: Change, id: string, k: nat)
    requires k <= |change.steps|
    requires k < |change.steps| ==>
      var step, creating := change.steps[k], change.created && k == 0;
      MemoryRefusal(m, step, creating) == Some(ConcurrentModification)
    ensures Lands(m, change, id, k, 0)
  {
  }

  lemma {:induction false} ConsecutivesAfter(steps: seq<Step>, k: nat, version: int)
    requires k < |steps| && steps[k].event.version == version
    ensures Consecutives(steps[k..], version) == 1 + Consecutives(steps[k + 1..], version + 1)
  {
    assert steps[k..][1..] == steps[k + 1..];
  }

  /** The steps after the first land as far as they continue the event. */
  lemma {:induction false} RestLands(m: Memory, change: Change, id: string, k: nat, n: nat)
    requires NoneAhead(m, id) && k <= |change.steps| && AllFor(id, change.steps) && id in m.events
    requires k > 0 || !change.created
    requires n == Consecutives(change.steps[k..], m.events[id].version + 1)
    ensures Lands(m, change, id, k, n)
    decreases |change.steps| - k
  {
    if n == 0 {
      if k < |change.steps| {
        StepTaken(m, change.steps[k], false);
      }
      NoneLands(m, change, id, k);
    } else {
      var step := change.steps[k];
      StepTaken(m, step, false);
      ConsecutivesAfter(change.steps, k, step.event.version);
      RestLands(MemoryAfter(m, step, false), change, id, k + 1, n - 1);
      FirstLands(m, change, k, n - 1);
    }
  }

  /** A change that does not create its event lands the steps whose versions continue the
      current one without a gap; one that does needs the event to be new, and lands its
      first step and those that continue that one. */
  function LandedSteps(m: Memory, change: Change): nat
    requires change.steps != []
  {
    var first := change.steps[0].event;
    if change.created == (first.id in m.events) then 0
    else Consecutives(change.steps, if change.created then first.version else m.events[first.id].version + 1)
  }

  lemma {:induction false} CreatedLands(m: Memory, change: Change, id: string)
    requires NoneAhead(m, id) && change.steps != [] && AllFor(id, change.steps)
    requires change.created && id !in m.events
    ensures Lands(m, change, id, 0, LandedSteps(m, change))
  {
    var n, step := LandedSteps(m, change), change.steps[0];
    assert step.event.id == id && change.steps[0..] == change.steps;
    StepTaken(m, step, true);
    ConsecutivesAfter(change.steps, 0, step.event.version);
    RestLands(MemoryAfter(m, step, true), change, id, 1, n - 1);
    FirstLands(m, change, 0, n - 1);
  }

  /** What one `write_change` call for one event does. */
  lemma {:induction false} ChangeLands(m: Memory, change: Change, id: string)
    requires Good(m) && change.steps != [] && AllFor(id, change.steps)
    ensures Lands(m, change, id, 0, LandedSteps(m, change))
  {
    GoodIsNotAhead(m, id);
    assert change.steps[0].event.id == id && change.steps[0..] == change.steps;
    if change.created == (id in m.events) {
      StepTaken(m, change.steps[0], change.created);
      NoneLands(m, change, id, 0);
    } else if change.created {
      CreatedLands(m, change, id);
    } else {
      RestLands(m, change, id, 0, LandedSteps(m, change));
    }
  }
}
