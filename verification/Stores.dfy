/** The two event stores of `core/eventstore.py`: the dict and the DynamoDB table.

    A transaction is taken as atomic: its three conditions are tested against one table
    and its three writes happen together or not at all. */
module Stores {
  import opened Wrappers
  import opened Floats
  import opened SortKeys

  datatype Extent = Extent(route: string, begin: Float, end: Float)

  /** An event; `rest` stands for the fields that storing does not look at. */
  datatype Event = Event(id: string, version: nat, state: LifecycleState, extent: Extent, rest: string)

  datatype Audit = Audit(sequence: nat, rest: string)

  datatype Step = Step(event: Event, audit: Audit)

  datatype Change = Change(steps: seq<Step>, created: bool)

  datatype Refusal = ConcurrentModification | VersionAlreadyExists

  // ----- in memory -----

  datatype Memory = Memory(
    events: map<string, Event>, versions: map<string, seq<Event>>, audit: map<string, seq<Audit>>)

  const EMPTY_MEMORY := Memory(map[], map[], map[])

  function Get<T>(m: map<string, seq<T>>, id: string): seq<T> {
    if id in m then m[id] else []
  }

  function MemoryRefusal(m: Memory, step: Step, creating: bool): Option<Refusal> {
    var e := step.event;
    if creating && e.id in m.events then Some(ConcurrentModification)
    else if !creating && (e.id !in m.events || m.events[e.id].version != e.version - 1) then
      Some(ConcurrentModification)
    else if exists k | 0 <= k < |Get(m.versions, e.id)| :: Get(m.versions, e.id)[k].version == e.version then
      Some(VersionAlreadyExists)
    else None
  }

  /** The state after one step: appended and advanced, or as it was. A version that is
      already listed is found out only after its list was set up. */
  function MemoryAfter(m: Memory, step: Step, creating: bool): Memory {
    var e := step.event;
    match MemoryRefusal(m, step, creating)
    case None =>
      Memory(m.events[e.id := e],
             m.versions[e.id := Get(m.versions, e.id) + [e]],
             m.audit[e.id := Get(m.audit, e.id) + [step.audit]])
    case Some(ConcurrentModification) => m
    case Some(VersionAlreadyExists) => m.(versions := m.versions[e.id := Get(m.versions, e.id)])
  }

  /** A whole change from its `k`-th step on: it stops at the first refusal. */
  function MemoryWrite(m: Memory, change: Change, k: nat): (Memory, Option<Refusal>)
    requires k <= |change.steps|
    decreases |change.steps| - k
  {
    if k == |change.steps| then (m, None)
    else
      var step, creating := change.steps[k], change.created && k == 0;
      var refusal := MemoryRefusal(m, step, creating);
      if refusal.Some? then (MemoryAfter(m, step, creating), refusal)
      else MemoryWrite(MemoryAfter(m, step, creating), change, k + 1)
  }

  class InMemoryEventStore {
    var events: map<string, Event>
    var versions: map<string, seq<Event>>
    var audit: map<string, seq<Audit>>

    function State(): Memory
      reads this
    {
      Memory(events, versions, audit)
    }

    constructor ()
      ensures State() == EMPTY_MEMORY
    {
      events, versions, audit := map[], map[], map[];
    }

    function GetCurrent(id: string): Option<Event>
      reads this
    {
      if id in events then Some(events[id]) else None
    }

    method WriteChange(change: Change) returns (refusal: Option<Refusal>)
      modifies this
      ensures (State(), refusal) == MemoryWrite(old(State()), change, 0)
    {
      for k := 0 to |change.steps|
        invariant MemoryWrite(old(State()), change, 0) == MemoryWrite(State(), change, k)
      {
        refusal := WriteStep(change.steps[k], change.created && k == 0);
        if refusal.Some? {
          return;
        }
      }
      return None;
    }

    method WriteStep(step: Step, creating: bool) returns (refusal: Option<Refusal>)
      modifies this
      ensures refusal == MemoryRefusal(old(State()), step, creating)
      ensures State() == MemoryAfter(old(State()), step, creating)
    {
      var event := step.event;
      var existing := GetCurrent(event.id);
      if creating {
        if existing.Some? {
          return Some(ConcurrentModification);
        }
      } else if existing.None? || existing.value.version != event.version - 1 {
        return Some(ConcurrentModification);
      }
      var history := Get(versions, event.id);
      versions := versions[event.id := history];
      if exists k | 0 <= k < |history| :: history[k].version == event.version {
        return Some(VersionAlreadyExists);
      }
      versions := versions[event.id := history + [event]];
      audit := audit[event.id := Get(audit, event.id) + [step.audit]];
      events := events[event.id := event];
      return None;
    }
  }

  // ----- DynamoDB -----

  /** An item: what it holds, and the two index keys, which only `current` items of
      placed events carry. */
  datatype Item =
    | EventItem(event: Event, version: nat, gsi: Option<(string, real)>)
    | AuditItem(audit: Audit)

  type Table = map<(string, string), Item>

  function VersionItem(e: Event): Item {
    EventItem(e, e.version, None)
  }

  function CurrentItem(e: Event): Item {
    EventItem(e, e.version,
      match e.extent.begin
      case Num(begin) => Some((GsiPartition(e.state, e.extent.route), begin))
      case NaN => None)
  }

  datatype Code = Passed | ConditionalCheckFailed

  function Check(ok: bool): Code {
    if ok then Passed else ConditionalCheckFailed
  }

  /** The outcome of the three condition expressions of one transaction. */
  function Reasons(t: Table, step: Step, creating: bool): seq<Code> {
    var e := step.event;
    var current := (e.id, CURRENT_SK);
    [Check((e.id, VersionSk(e.version)) !in t),
     Check((e.id, AuditSk(step.audit.sequence)) !in t),
     Check(if creating then current !in t
           else current in t && t[current].EventItem? && t[current].version == e.version - 1)]
  }

  /** `_reraise`: no code ever contains the text that would make a failed condition a
      concurrent modification. */
  function Reraise(reasons: seq<Code>): Refusal {
    if ConditionalCheckFailed in reasons then VersionAlreadyExists else ConcurrentModification
  }

  function TableRefusal(t: Table, step: Step, creating: bool): Option<Refusal> {
    var reasons := Reasons(t, step, creating);
    if reasons == [Passed, Passed, Passed] then None else Some(Reraise(reasons))
  }

  function TableAfter(t: Table, step: Step, creating: bool): Table {
    var e := step.event;
    if TableRefusal(t, step, creating).None? then
      t[(e.id, VersionSk(e.version)) := VersionItem(e)]
       [(e.id, AuditSk(step.audit.sequence)) := AuditItem(step.audit)]
       [(e.id, CURRENT_SK) := CurrentItem(e)]
    else t
  }

  function TableWrite(t: Table, change: Change, k: nat): (Table, Option<Refusal>)
    requires k <= |change.steps|
    decreases |change.steps| - k
  {
    if k == |change.steps| then (t, None)
    else
      var step, creating := change.steps[k], change.created && k == 0;
      var refusal := TableRefusal(t, step, creating);
      if refusal.Some? then (t, refusal)
      else TableWrite(TableAfter(t, step, creating), change, k + 1)
  }

  class DynamoEventStore {
    var table: Table

    constructor ()
      ensures table == map[]
    {
      table := map[];
    }

    method WriteChange(change: Change) returns (refusal: Option<Refusal>)
      modifies this
      ensures (table, refusal) == TableWrite(old(table), change, 0)
    {
      for k := 0 to |change.steps|
        invariant TableWrite(old(table), change, 0) == TableWrite(table, change, k)
      {
        refusal := TransactWriteItems(change.steps[k], change.created && k == 0);
        if refusal.Some? {
          return;
        }
      }
      return None;
    }

    method TransactWriteItems(step: Step, creating: bool) returns (refusal: Option<Refusal>)
      modifies this
      ensures refusal == TableRefusal(old(table), step, creating)
      ensures table == TableAfter(old(table), step, creating)
    {
      var event := step.event;
      var reasons := Reasons(table, step, creating);
      if reasons != [Passed, Passed, Passed] {
        return Some(Reraise(reasons));
      }
      table := table[(event.id, VersionSk(event.version)) := VersionItem(event)];
      table := table[(event.id, AuditSk(step.audit.sequence)) := AuditItem(step.audit)];
      table := table[(event.id, CURRENT_SK) := CurrentItem(event)];
      return None;
    }
  }
}
