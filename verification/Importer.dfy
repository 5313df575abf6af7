/** The importer table: rows, reports and the single statements that change them. */
module ImporterTable {
  import opened Results
  import Labels

  /** A revision in its canonical text, which is how callers pass it back. */
  type Uuid = string

  type Time = int

  /** An importer configuration, by the parts the service looks at and the rest. */
  datatype Configuration = Configuration(labels: Labels.Map, disabled: bool, rest: string)

  datatype State = Waiting | Running

  datatype Row = Row(
    revision: Uuid,
    state: State,
    lastChange: Time,
    lastSuccess: Option<Time>,
    lastRun: Option<Time>,
    lastError: Option<string>,
    progressCurrent: Option<int>,
    progressTotal: Option<int>,
    progressMessage: Option<string>,
    continuation: Option<string>,
    configuration: Configuration,
    heartbeat: Option<int>)

  datatype Report = Report(id: Uuid, importer: string, creation: Time, error: Option<string>, report: string)

  /** `issued` remembers every random identifier handed out so far. */
  datatype Db = Db(importers: map<string, Row>, reports: seq<Report>, issued: set<Uuid>)

  /** `Missed` stands for the not-found and collision errors, told apart by a second read. */
  datatype Error = AlreadyExists | NotFound | MidAirCollision | Missed | Invalid(Labels.Error) | Transform(string)

  // ------------------------------------------------- column updates

  datatype Assignment =
    | Revision(revision: Uuid)
    | SetState(state: State)
    | LastChange(time: Time)
    | LastSuccess(success: Option<Time>)
    | LastRun(run: Option<Time>)
    | LastError(error: Option<string>)
    | ProgressCurrent(current: Option<int>)
    | ProgressTotal(total: Option<int>)
    | ProgressMessage(message: Option<string>)
    | Continuation(continuation: Option<string>)
    | SetConfiguration(configuration: Configuration)

  function Assign(row: Row, a: Assignment): Row {
    match a
    case Revision(r) => row.(revision := r)
    case SetState(s) => row.(state := s)
    case LastChange(t) => row.(lastChange := t)
    case LastSuccess(t) => row.(lastSuccess := t)
    case LastRun(t) => row.(lastRun := t)
    case LastError(e) => row.(lastError := e)
    case ProgressCurrent(n) => row.(progressCurrent := n)
    case ProgressTotal(n) => row.(progressTotal := n)
    case ProgressMessage(m) => row.(progressMessage := m)
    case Continuation(c) => row.(continuation := c)
    case SetConfiguration(c) => row.(configuration := c)
  }

  function AssignAll(row: Row, updates: seq<Assignment>): Row
    decreases updates
  {
    if updates == [] then row else AssignAll(Assign(row, updates[0]), updates[1..])
  }

  /** The filter of a conditional statement: the name and, when given, the revision. */
  predicate Selects(db: Db, name: string, expected: Option<Uuid>) {
    name in db.importers && (expected.None? || db.importers[name].revision == expected.value)
  }

  /** The conditional update: `None` when no row is affected. */
  function UpdateRow(db: Db, name: string, expected: Option<Uuid>, uuid: Uuid, updates: seq<Assignment>): Option<Db> {
    if !Selects(db, name, expected) then None
    else
      var row := AssignAll(db.importers[name], [Revision(uuid)] + updates);
      Some(db.(importers := db.importers[name := row], issued := db.issued + {uuid}))
  }

  // ------------------------------------------------- what each operation stores

  function Validated(c: Configuration, order: seq<string>): Result<Configuration, Error>
    requires Labels.Covers(order, c.labels)
  {
    match Labels.Validate(c.labels, order)
    case Ok(labels) => Ok(c.(labels := labels))
    case Err(e) => Err(Invalid(e))
  }

  function NewRow(c: Configuration, uuid: Uuid, now: Time): Row {
    Row(uuid, Waiting, now, None, None, None, None, None, None, None, c, None)
  }

  function CreateRow(
    db: Db, name: string, c: Configuration, order: seq<string>, uuid: Uuid, now: Time): Result<Db, Error>
    requires Labels.Covers(order, c.labels)
  {
    match Validated(c, order)
    case Err(e) => Err(e)
    case Ok(valid) =>
      if name in db.importers then Err(AlreadyExists)
      else Ok(db.(importers := db.importers[name := NewRow(valid, uuid, now)], issued := db.issued + {uuid}))
  }

  function StartUpdates(now: Time): seq<Assignment> {
    [LastChange(now), SetState(Running)]
  }

  function ResetUpdates(): seq<Assignment> {
    [LastRun(None), ProgressCurrent(None), ProgressTotal(None), ProgressMessage(None), Continuation(None)]
  }

  function ProgressUpdates(current: int, total: int): seq<Assignment> {
    [ProgressCurrent(Some(current)), ProgressTotal(Some(total)), ProgressMessage(None)]
  }

  function FinishUpdates(start: Time, now: Time, error: Option<string>, continuation: Option<string>): seq<Assignment> {
    [LastError(error), LastRun(Some(start)), SetState(Waiting), ProgressCurrent(None), ProgressTotal(None),
     ProgressMessage(None), LastChange(now), Continuation(continuation)]
    + if error.None? then [LastSuccess(Some(start))] else []
  }

  /** One transaction: the update and, if a report came with it, its insertion. */
  function FinishRow(db: Db, name: string, expected: Option<Uuid>, uuid: Uuid, updates: seq<Assignment>,
                     report: Option<Report>): Option<Db> {
    match UpdateRow(db, name, expected, uuid, updates)
    case None => None
    case Some(d) =>
      match report
      case None => Some(d)
      case Some(r) => Some(d.(reports := d.reports + [r], issued := d.issued + {r.id}))
  }

  function Without(reports: seq<Report>, name: string): seq<Report> {
    if reports == [] then []
    else (if reports[0].importer == name then [] else [reports[0]]) + Without(reports[1..], name)
  }

  /** Deleting an importer deletes its reports with it (the foreign key cascades). */
  function DeleteRow(db: Db, name: string, expected: Option<Uuid>): Option<Db> {
    if Selects(db, name, expected)
    then Some(db.(importers := db.importers - {name}, reports := Without(db.reports, name)))
    else None
  }

  /** The heartbeat is compared and set on its own; the revision stays as it is. */
  function BeatRow(db: Db, name: string, seen: Option<int>, now: int): Option<Db> {
    if name in db.importers && db.importers[name].heartbeat == seen
    then Some(db.(importers := db.importers[name := db.importers[name].(heartbeat := Some(now))]))
    else None
  }

  // ------------------------------------------------- what the column lists mean

  lemma AssignCons(row: Row, a: Assignment, rest: seq<Assignment>)
    ensures AssignAll(row, [a] + rest) == AssignAll(Assign(row, a), rest)
  {
    assert ([a] + rest)[1..] == rest;
  }

  lemma Assign2(row: Row, a: Assignment, b: Assignment, rest: seq<Assignment>)
    ensures AssignAll(row, [a, b] + rest) == AssignAll(Assign(Assign(row, a), b), rest)
  {
    assert [a, b] + rest == [a] + ([b] + rest);
    AssignCons(row, a, [b] + rest);
    AssignCons(Assign(row, a), b, rest);
  }

  lemma Assign4(row: Row, a: Assignment, b: Assignment, c: Assignment, d: Assignment, rest: seq<Assignment>)
    ensures AssignAll(row, [a, b, c, d] + rest) == AssignAll(Assign(Assign(Assign(Assign(row, a), b), c), d), rest)
  {
    assert [a, b, c, d] + rest == [a, b] + ([c, d] + rest);
    Assign2(row, a, b, [c, d] + rest);
    Assign2(Assign(Assign(row, a), b), c, d, rest);
  }

  lemma StartMeaning(row: Row, uuid: Uuid, now: Time)
    ensures AssignAll(row, [Revision(uuid)] + StartUpdates(now))
         == row.(revision := uuid, lastChange := now, state := Running)
  {
    var r := Assign(row, Revision(uuid));
    AssignCons(row, Revision(uuid), StartUpdates(now));
    assert StartUpdates(now) == [LastChange(now), SetState(Running)] + [];
    Assign2(r, LastChange(now), SetState(Running), []);
  }

  lemma ConfigurationMeaning(row: Row, uuid: Uuid, c: Configuration)
    ensures AssignAll(row, [Revision(uuid)] + [SetConfiguration(c)]) == row.(revision := uuid, configuration := c)
  {
    assert [Revision(uuid)] + [SetConfiguration(c)] == [Revision(uuid), SetConfiguration(c)] + [];
    Assign2(row, Revision(uuid), SetConfiguration(c), []);
  }

  lemma MessageMeaning(row: Row, uuid: Uuid, m: Option<string>)
    ensures AssignAll(row, [Revision(uuid)] + [ProgressMessage(m)]) == row.(revision := uuid, progressMessage := m)
  {
    assert [Revision(uuid)] + [ProgressMessage(m)] == [Revision(uuid), ProgressMessage(m)] + [];
    Assign2(row, Revision(uuid), ProgressMessage(m), []);
  }

  lemma ProgressMeaning(row: Row, uuid: Uuid, current: int, total: int)
    ensures AssignAll(row, [Revision(uuid)] + ProgressUpdates(current, total))
         == row.(revision := uuid, progressCurrent := Some(current), progressTotal := Some(total),
                 progressMessage := None)
  {
    assert [Revision(uuid)] + ProgressUpdates(current, total)
        == [Revision(uuid), ProgressCurrent(Some(current)), ProgressTotal(Some(total)), ProgressMessage(None)] + [];
    Assign4(row, Revision(uuid), ProgressCurrent(Some(current)), ProgressTotal(Some(total)), ProgressMessage(None), []);
  }

  lemma ResetMeaning(row: Row, uuid: Uuid)
    ensures AssignAll(row, [Revision(uuid)] + ResetUpdates())
         == row.(revision := uuid, lastRun := None, progressCurrent := None, progressTotal := None,
                 progressMessage := None, continuation := None)
  {
  }

  /** A finished run: `last_success` moves only when there was no error. */
  lemma FinishMeaning(row: Row, uuid: Uuid, start: Time, now: Time, error: Option<string>, continuation: Option<string>)
    ensures AssignAll(row, [Revision(uuid)] + FinishUpdates(start, now, error, continuation))
         == row.(revision := uuid, lastError := error, lastRun := Some(start), state := Waiting,
                 progressCurrent := None, progressTotal := None, progressMessage := None,
                 lastChange := now, continuation := continuation,
                 lastSuccess := if error.None? then Some(start) else row.lastSuccess)
  {
    var last := if error.None? then [LastSuccess(Some(start))] else [];
    var head := [LastError(error), LastRun(Some(start)), SetState(Waiting), ProgressCurrent(None)];
    var mid := [ProgressTotal(None), ProgressMessage(None)];
    var tail := [LastChange(now), Continuation(continuation)];
    assert FinishUpdates(start, now, error, continuation) == head + (mid + (tail + last));
    AssignCons(row, Revision(uuid), head + (mid + (tail + last)));
    var r0 := row.(revision := uuid);
    var r1 := r0.(lastError := error, lastRun := Some(start), state := Waiting, progressCurrent := None);
    assert AssignAll(r0, head + (mid + (tail + last))) == AssignAll(r1, mid + (tail + last)) by {
      Assign4(r0, LastError(error), LastRun(Some(start)), SetState(Waiting), ProgressCurrent(None),
              mid + (tail + last));
    }
    var r2 := r1.(progressTotal := None, progressMessage := None);
    assert AssignAll(r1, mid + (tail + last)) == AssignAll(r2, tail + last) by {
      Assign2(r1, ProgressTotal(None), ProgressMessage(None), tail + last);
    }
    var r3 := r2.(lastChange := now, continuation := continuation);
    assert AssignAll(r2, tail + last) == AssignAll(r3, last) by {
      Assign2(r2, LastChange(now), Continuation(continuation), last);
    }
    if error.None? {
      AssignCons(r3, LastSuccess(Some(start)), []);
      assert last == [LastSuccess(Some(start))] + [];
    }
  }
}

/** The service itself: each method is one statement or one transaction on the table. */
module ImporterService {
  import opened Results
  import opened ImporterTable
  import Labels

  type Transform = Configuration -> Result<Configuration, string>

  /** A patch between its read and its write. */
  datatype Pending = Pending(name: string, revision: Uuid, configuration: Configuration, f: Transform)

  function Read(db: Db, name: string, expected: Option<Uuid>, f: Transform): Result<Pending, Error> {
    if name !in db.importers then Err(NotFound)
    else
      var row := db.importers[name];
      if expected.Some? && expected.value != row.revision then Err(MidAirCollision)
      else Ok(Pending(name, row.revision, row.configuration, f))
  }

  /** The order in which the labels of the transformed configuration are visited, if it comes to that. */
  ghost predicate Visits(order: seq<string>, p: Pending) {
    match p.f(p.configuration) case Ok(c) => Labels.IsOrder(order, c.labels) case Err(_) => true
  }

  /** What a patch wants to store, computed from what it read. */
  ghost function Patched(p: Pending, order: seq<string>): Result<Configuration, Error>
    requires Visits(order, p)
  {
    match p.f(p.configuration)
    case Err(e) => Err(Transform(e))
    case Ok(c) => Validated(c, order)
  }

  class Service {
    var importers: map<string, Row>
    var reports: seq<Report>
    ghost var issued: set<Uuid>

    ghost function Snapshot(): Db
      reads this
    {
      Db(importers, reports, issued)
    }

    /** The statement took effect as `effect` says, or changed nothing at all. */
    twostate predicate Took(effect: Option<Db>, ok: bool)
      reads this
    {
      match effect
      case Some(db) => ok && Snapshot() == db
      case None => !ok && Snapshot() == old(Snapshot())
    }

    constructor ()
      ensures Snapshot() == Db(map[], [], {})
    {
      importers, reports, issued := map[], [], {};
    }

    method Update(name: string, expected: Option<Uuid>, uuid: Uuid, updates: seq<Assignment>) returns (ok: bool)
      modifies this
      ensures Took(UpdateRow(old(Snapshot()), name, expected, uuid, updates), ok)
    {
      var statement := [Revision(uuid)];
      for i := 0 to |updates|
        invariant statement == [Revision(uuid)] + updates[..i]
        invariant Snapshot() == old(Snapshot())
      {
        statement := statement + [updates[i]];
      }
      assert updates[..|updates|] == updates;
      ok := name in importers && (expected.None? || importers[name].revision == expected.value);
      if ok {
        importers := importers[name := AssignAll(importers[name], statement)];
        issued := issued + {uuid};
      }
    }

    /** Validates a configuration in place, as the callers below do before they store it. */
    method ValidateConfiguration(c: Configuration, order: seq<string>) returns (r: Result<Configuration, Error>)
      requires Labels.IsOrder(order, c.labels)
      ensures r == Validated(c, order)
    {
      var labels := new Labels.LabelSet(c.labels);
      var valid := labels.ValidateMut(order);
      match valid {
        case Ok(_) => r := Ok(c.(labels := labels.entries));
        case Err(e) => r := Err(Invalid(e));
      }
    }

    method Create(name: string, c: Configuration, order: seq<string>, uuid: Uuid, now: Time)
      returns (r: Result<(), Error>)
      requires Labels.IsOrder(order, c.labels)
      modifies this
      ensures match CreateRow(old(Snapshot()), name, c, order, uuid, now)
              case Ok(db) => r == Ok(()) && Snapshot() == db
              case Err(e) => r == Err(e) && Snapshot() == old(Snapshot())
    {
      var valid := ValidateConfiguration(c, order);
      if valid.Err? {
        return Err(valid.error);
      }
      if name in importers {
        return Err(AlreadyExists);
      }
      importers := importers[name := NewRow(valid.value, uuid, now)];
      issued := issued + {uuid};
      r := Ok(());
    }

    /** First half of a patch: the read and the check of the caller's revision. */
    method PatchRead(name: string, expected: Option<Uuid>, f: Transform) returns (r: Result<Pending, Error>)
      ensures r == Read(Snapshot(), name, expected, f)
    {
      if name !in importers {
        return Err(NotFound);
      }
      var row := importers[name];
      if expected.Some? && expected.value != row.revision {
        return Err(MidAirCollision);
      }
      r := Ok(Pending(name, row.revision, row.configuration, f));
    }

    /** Second half: transform and validate what was read, then write it if the revision still stands. */
    method PatchWrite(p: Pending, order: seq<string>, uuid: Uuid) returns (r: Result<(), Error>)
      requires Visits(order, p)
      modifies this
      ensures match Patched(p, order)
              case Err(e) => r == Err(e) && Snapshot() == old(Snapshot())
              case Ok(c) =>
                && Took(UpdateRow(old(Snapshot()), p.name, Some(p.revision), uuid, [SetConfiguration(c)]), r.Ok?)
                && (r.Err? ==> r.error == Missed)
    {
      var mutated := p.f(p.configuration);
      if mutated.Err? {
        return Err(Transform(mutated.error));
      }
      var valid := ValidateConfiguration(mutated.value, order);
      if valid.Err? {
        return Err(valid.error);
      }
      var ok := Update(p.name, Some(p.revision), uuid, [SetConfiguration(valid.value)]);
      r := if ok then Ok(()) else Err(Missed);
    }

    method UpdateConfiguration(name: string, expected: Option<Uuid>, c: Configuration, order: seq<string>, uuid: Uuid)
      returns (r: Result<(), Error>)
      requires Labels.IsOrder(order, c.labels)
      modifies this
      ensures match Validated(c, order)
              case Err(e) => r == Err(e) && Snapshot() == old(Snapshot())
              case Ok(valid) =>
                && Took(UpdateRow(old(Snapshot()), name, expected, uuid, [SetConfiguration(valid)]), r.Ok?)
                && (r.Err? ==> r.error == Missed)
    {
      var valid := ValidateConfiguration(c, order);
      if valid.Err? {
        return Err(valid.error);
      }
      var ok := Update(name, expected, uuid, [SetConfiguration(valid.value)]);
      r := if ok then Ok(()) else Err(Missed);
    }

    method UpdateStart(name: string, expected: Option<Uuid>, uuid: Uuid, now: Time) returns (ok: bool)
      modifies this
      ensures Took(UpdateRow(old(Snapshot()), name, expected, uuid, StartUpdates(now)), ok)
    {
      ok := Update(name, expected, uuid, [LastChange(now), SetState(Running)]);
    }

    /** `created` is the time at which the report is made, a little after `now`. */
    method UpdateFinish(name: string, expected: Option<Uuid>, uuid: Uuid, start: Time, now: Time, created: Time,
                        error: Option<string>, continuation: Option<string>, report: Option<string>, reportId: Uuid)
      returns (ok: bool)
      modifies this
      ensures Took(FinishRow(old(Snapshot()), name, expected, uuid, FinishUpdates(start, now, error, continuation),
                             ReportOf(name, created, error, report, reportId)), ok)
    {
      var updates := [
        LastError(error), LastRun(Some(start)), SetState(Waiting), ProgressCurrent(None), ProgressTotal(None),
        ProgressMessage(None), LastChange(now), Continuation(continuation)];
      if error.None? {
        updates := updates + [LastSuccess(Some(start))];
      }
      assert updates == FinishUpdates(start, now, error, continuation);
      ok := Update(name, expected, uuid, updates);
      if ok && report.Some? {
        reports := reports + [Report(reportId, name, created, error, report.value)];
        issued := issued + {reportId};
      }
    }

    method Reset(name: string, expected: Option<Uuid>, uuid: Uuid) returns (ok: bool)
      modifies this
      ensures Took(UpdateRow(old(Snapshot()), name, expected, uuid, ResetUpdates()), ok)
    {
      ok := Update(name, expected, uuid, ResetUpdates());
    }

    method UpdateProgress(name: string, expected: Option<Uuid>, uuid: Uuid, current: int, total: int) returns (ok: bool)
      modifies this
      ensures Took(UpdateRow(old(Snapshot()), name, expected, uuid, ProgressUpdates(current, total)), ok)
    {
      ok := Update(name, expected, uuid,
                   [ProgressCurrent(Some(current)), ProgressTotal(Some(total)), ProgressMessage(None)]);
    }

    method SetProgressMessage(name: string, expected: Option<Uuid>, uuid: Uuid, message: string) returns (ok: bool)
      modifies this
      ensures Took(UpdateRow(old(Snapshot()), name, expected, uuid, [ProgressMessage(Some(message))]), ok)
    {
      ok := Update(name, expected, uuid, [ProgressMessage(Some(message))]);
    }

    method Delete(name: string, expected: Option<Uuid>) returns (ok: bool)
      modifies this
      ensures Took(DeleteRow(old(Snapshot()), name, expected), ok)
    {
      ok := name in importers && (expected.None? || importers[name].revision == expected.value);
      if ok {
        importers := importers - {name};
        reports := Without(reports, name);
      }
    }

    /** The runner's heartbeat: a second compare-and-set on the same row. */
    method Beat(name: string, seen: Option<int>, now: int) returns (ok: bool)
      modifies this
      ensures Took(BeatRow(old(Snapshot()), name, seen, now), ok)
    {
      ok := name in importers && importers[name].heartbeat == seen;
      if ok {
        importers := importers[name := importers[name].(heartbeat := Some(now))];
      }
    }
  }

  function ReportOf(
    name: string, created: Time, error: Option<string>, report: Option<string>, id: Uuid): Option<Report>
  {
    match report case None => None case Some(text) => Some(Report(id, name, created, error, text))
  }
}
