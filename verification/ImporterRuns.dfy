/** Clients of the importer service interleaving their statements in every possible way. */
module ImporterRuns {
  import opened Results
  import opened ImporterTable
  import opened ImporterService
  import Labels

  /** The table, and the patches that have read but not yet written, by client. */
  datatype System = System(db: Db, pending: map<nat, Pending>)

  datatype Action =
    | Create(name: string, configuration: Configuration, order: seq<string>, uuid: Uuid, now: Time)
    | BeginPatch(client: nat, name: string, expected: Option<Uuid>, f: Transform)
    | EndPatch(client: nat, order: seq<string>, uuid: Uuid)
    | Replace(name: string, expected: Option<Uuid>, configuration: Configuration, order: seq<string>, uuid: Uuid)
    | Start(name: string, expected: Option<Uuid>, uuid: Uuid, now: Time)
    | Finish(name: string, expected: Option<Uuid>, uuid: Uuid, start: Time, now: Time, created: Time,
             error: Option<string>, continuation: Option<string>, report: Option<string>, reportId: Uuid)
    | Reset(name: string, expected: Option<Uuid>, uuid: Uuid)
    | Progress(name: string, expected: Option<Uuid>, uuid: Uuid, current: int, total: int)
    | Message(name: string, expected: Option<Uuid>, uuid: Uuid, message: string)
    | Delete(name: string, expected: Option<Uuid>)
    | Beat(name: string, seen: Option<int>, now: int)

  /** Random identifiers never repeat; label maps are visited in some order of their keys. */
  ghost predicate Enabled(s: System, a: Action) {
    match a
    case Create(_, c, order, uuid, _) => uuid !in s.db.issued && Labels.IsOrder(order, c.labels)
    case BeginPatch(_, _, _, _) => true
    case EndPatch(client, order, uuid) =>
      client in s.pending && uuid !in s.db.issued && Visits(order, s.pending[client])
    case Replace(_, _, c, order, uuid) => uuid !in s.db.issued && Labels.IsOrder(order, c.labels)
    case Start(_, _, uuid, _) => uuid !in s.db.issued
    case Finish(_, _, uuid, _, _, _, _, _, _, reportId) =>
      uuid !in s.db.issued && reportId !in s.db.issued && uuid != reportId
    case Reset(_, _, uuid) => uuid !in s.db.issued
    case Progress(_, _, uuid, _, _) => uuid !in s.db.issued
    case Message(_, _, uuid, _) => uuid !in s.db.issued
    case Delete(_, _) => true
    case Beat(_, _, _) => true
  }

  /** What the action writes, or `None` when it fails or only reads. */
  ghost function Effect(s: System, a: Action): Option<Db>
    requires Enabled(s, a)
  {
    match a
    case Create(name, c, order, uuid, now) =>
      (match CreateRow(s.db, name, c, order, uuid, now) case Ok(d) => Some(d) case Err(_) => None)
    case BeginPatch(_, _, _, _) => None
    case EndPatch(client, order, uuid) =>
      var p := s.pending[client];
      (match Patched(p, order)
       case Ok(c) => UpdateRow(s.db, p.name, Some(p.revision), uuid, [SetConfiguration(c)])
       case Err(_) => None)
    case Replace(name, expected, c, order, uuid) =>
      (match Validated(c, order)
       case Ok(valid) => UpdateRow(s.db, name, expected, uuid, [SetConfiguration(valid)])
       case Err(_) => None)
    case Start(name, expected, uuid, now) => UpdateRow(s.db, name, expected, uuid, StartUpdates(now))
    case Finish(name, expected, uuid, start, now, created, error, continuation, report, reportId) =>
      FinishRow(s.db, name, expected, uuid, FinishUpdates(start, now, error, continuation),
                ReportOf(name, created, error, report, reportId))
    case Reset(name, expected, uuid) => UpdateRow(s.db, name, expected, uuid, ResetUpdates())
    case Progress(name, expected, uuid, current, total) =>
      UpdateRow(s.db, name, expected, uuid, ProgressUpdates(current, total))
    case Message(name, expected, uuid, message) =>
      UpdateRow(s.db, name, expected, uuid, [ProgressMessage(Some(message))])
    case Delete(name, expected) => DeleteRow(s.db, name, expected)
    case Beat(name, seen, now) => BeatRow(s.db, name, seen, now)
  }

  ghost function Step(s: System, a: Action): System
    requires Enabled(s, a)
  {
    var db := match Effect(s, a) case Some(d) => d case None => s.db;
    var pending :=
      match a
      case BeginPatch(client, name, expected, f) =>
        (match Read(s.db, name, expected, f)
         case Ok(p) => s.pending[client := p]
         case Err(_) => s.pending - {client})
      case EndPatch(client, _, _) => s.pending - {client}
      case _ => s.pending;
    System(db, pending)
  }

  ghost predicate Admissible(s: System, run: seq<Action>)
    decreases run
  {
    run == [] || (Enabled(s, run[0]) && Admissible(Step(s, run[0]), run[1..]))
  }

  ghost function Run(s: System, run: seq<Action>): System
    requires Admissible(s, run)
    decreases run
  {
    if run == [] then s else Run(Step(s, run[0]), run[1..])
  }

  const INITIAL := System(Db(map[], [], {}), map[])

  // ------------------------------------------------- what one statement does

  predicate SameButHeartbeat(a: Row, b: Row) {
    a == b.(heartbeat := a.heartbeat)
  }

  /** Progress is known in full or not at all; stored labels have nothing left to validate. */
  predicate RowOk(row: Row) {
    (row.progressCurrent.Some? <==> row.progressTotal.Some?) && Labels.Clean(row.configuration.labels)
  }

  predicate RowsOk(db: Db) {
    forall n :: n in db.importers ==> RowOk(db.importers[n])
  }

  /**
   * Every row afterwards is an old one up to its heartbeat, or the single one that got
   * a revision never seen before.
   */
  ghost predicate StepFacts(db: Db, d: Db) {
    && db.issued <= d.issued
    && (forall n :: n in d.importers ==>
         || (n in db.importers && SameButHeartbeat(d.importers[n], db.importers[n]))
         || (d.importers[n].revision !in db.issued && d.importers[n].revision in d.issued))
    && (forall m, n :: (m in d.importers && n in d.importers
                        && d.importers[m].revision !in db.issued && d.importers[n].revision !in db.issued) ==> m == n)
    && (RowsOk(db) ==> RowsOk(d))
  }

  lemma UpdateFacts(db: Db, name: string, expected: Option<Uuid>, uuid: Uuid, updates: seq<Assignment>)
    requires uuid !in db.issued && Selects(db, name, expected)
    requires forall n :: n in db.importers ==> db.importers[n].revision in db.issued
    requires var row := AssignAll(db.importers[name], [Revision(uuid)] + updates);
             row.revision == uuid && (RowOk(db.importers[name]) ==> RowOk(row))
    ensures StepFacts(db, UpdateRow(db, name, expected, uuid, updates).value)
  {
  }

  lemma ValidatedIsClean(c: Configuration, order: seq<string>)
    requires Labels.IsOrder(order, c.labels) && Validated(c, order).Ok?
    ensures Labels.Clean(Validated(c, order).value.labels)
  {
    Labels.ValidateFromFacts(c.labels, order, map[]);
  }

  ghost predicate RevisionsIssued(db: Db) {
    forall n :: n in db.importers ==> db.importers[n].revision in db.issued
  }

  lemma ConfigurationFacts(db: Db, name: string, expected: Option<Uuid>, uuid: Uuid, c: Configuration)
    requires uuid !in db.issued && RevisionsIssued(db) && Selects(db, name, expected) && Labels.Clean(c.labels)
    ensures StepFacts(db, UpdateRow(db, name, expected, uuid, [SetConfiguration(c)]).value)
  {
    ConfigurationMeaning(db.importers[name], uuid, c);
    UpdateFacts(db, name, expected, uuid, [SetConfiguration(c)]);
  }

  lemma FinishFacts(s: System, a: Action)
    requires a.Finish? && Enabled(s, a) && Effect(s, a).Some? && RevisionsIssued(s.db)
    ensures StepFacts(s.db, Effect(s, a).value)
  {
    var updates := FinishUpdates(a.start, a.now, a.error, a.continuation);
    FinishMeaning(s.db.importers[a.name], a.uuid, a.start, a.now, a.error, a.continuation);
    UpdateFacts(s.db, a.name, a.expected, a.uuid, updates);
  }

  lemma EffectFacts(s: System, a: Action)
    requires Enabled(s, a) && Effect(s, a).Some? && RevisionsIssued(s.db)
    ensures StepFacts(s.db, Effect(s, a).value)
  {
    match a
    case Create(name, c, order, uuid, now) =>
      ValidatedIsClean(c, order);
    case EndPatch(client, order, uuid) =>
      var p := s.pending[client];
      ValidatedIsClean(p.f(p.configuration).value, order);
      ConfigurationFacts(s.db, p.name, Some(p.revision), uuid, Patched(p, order).value);
    case Replace(name, expected, c, order, uuid) =>
      ValidatedIsClean(c, order);
      ConfigurationFacts(s.db, name, expected, uuid, Validated(c, order).value);
    case Start(name, expected, uuid, now) =>
      StartMeaning(s.db.importers[name], uuid, now);
      UpdateFacts(s.db, name, expected, uuid, StartUpdates(now));
    case Finish(_, _, _, _, _, _, _, _, _, _) =>
      FinishFacts(s, a);
    case Reset(name, expected, uuid) =>
      ResetMeaning(s.db.importers[name], uuid);
      UpdateFacts(s.db, name, expected, uuid, ResetUpdates());
    case Progress(name, expected, uuid, current, total) =>
      ProgressMeaning(s.db.importers[name], uuid, current, total);
      UpdateFacts(s.db, name, expected, uuid, ProgressUpdates(current, total));
    case Message(name, expected, uuid, message) =>
      MessageMeaning(s.db.importers[name], uuid, Some(message));
      UpdateFacts(s.db, name, expected, uuid, [ProgressMessage(Some(message))]);
    case Delete(name, expected) =>
    case Beat(name, seen, now) =>
  }

  // ------------------------------------------------- the invariant

  /** Wherever the revision is found, it is on this row, unchanged but for the heartbeat. */
  ghost predicate Frozen(db: Db, name: string, row: Row) {
    && row.revision in db.issued
    && forall n :: n in db.importers && db.importers[n].revision == row.revision ==>
         n == name && SameButHeartbeat(db.importers[n], row)
  }

  /** What was read still stands wherever the revision that came with it does. */
  ghost predicate PendingOk(db: Db, p: Pending) {
    && p.revision in db.issued
    && forall n :: n in db.importers && db.importers[n].revision == p.revision ==>
         n == p.name && db.importers[n].configuration == p.configuration
  }

  ghost predicate Distinct(db: Db) {
    forall m, n :: m in db.importers && n in db.importers && m != n ==>
      db.importers[m].revision != db.importers[n].revision
  }

  ghost predicate ReportsOk(db: Db) {
    forall r :: r in db.reports ==> r.importer in db.importers
  }

  ghost predicate Inv(s: System) {
    && RevisionsIssued(s.db)
    && Distinct(s.db)
    && RowsOk(s.db)
    && ReportsOk(s.db)
    && forall c :: c in s.pending ==> PendingOk(s.db, s.pending[c])
  }

  lemma FactsKeepFrozen(db: Db, d: Db, name: string, row: Row)
    requires StepFacts(db, d) && Frozen(db, name, row)
    ensures Frozen(d, name, row)
  {
  }

  lemma FactsKeepPending(db: Db, d: Db, p: Pending)
    requires StepFacts(db, d) && PendingOk(db, p)
    ensures PendingOk(d, p)
  {
  }

  lemma FactsKeepRows(db: Db, d: Db)
    requires StepFacts(db, d) && RevisionsIssued(db) && Distinct(db)
    ensures RevisionsIssued(d) && Distinct(d)
  {
  }

  lemma {:induction false} WithoutFacts(reports: seq<Report>, name: string)
    ensures forall r :: r in Without(reports, name) <==> r in reports && r.importer != name
  {
    if reports != [] {
      WithoutFacts(reports[1..], name);
      assert reports == [reports[0]] + reports[1..];
    }
  }

  /** The reports that stay keep their order. */
  lemma {:induction false} WithoutAppend(a: seq<Report>, b: seq<Report>, name: string)
    ensures Without(a + b, name) == Without(a, name) + Without(b, name)
  {
    if a == [] {
      assert a + b == b;
    } else {
      WithoutAppend(a[1..], b, name);
      assert (a + b)[1..] == a[1..] + b;
      var first := if a[0].importer == name then [] else [a[0]];
      assert first + (Without(a[1..], name) + Without(b, name)) == first + Without(a[1..], name) + Without(b, name);
    }
  }

  lemma EffectKeepsReports(s: System, a: Action)
    requires Enabled(s, a) && Effect(s, a).Some? && ReportsOk(s.db)
    ensures ReportsOk(Effect(s, a).value)
  {
    if a.Delete? {
      WithoutFacts(s.db.reports, a.name);
    }
  }

  lemma StepKeepsInv(s: System, a: Action)
    requires Inv(s) && Enabled(s, a)
    ensures Inv(Step(s, a))
  {
    var t := Step(s, a);
    if Effect(s, a).Some? {
      EffectFacts(s, a);
      EffectKeepsReports(s, a);
      FactsKeepRows(s.db, t.db);
    }
    forall c | c in t.pending ensures PendingOk(t.db, t.pending[c]) {
      if c in s.pending && t.pending[c] == s.pending[c] {
        if Effect(s, a).Some? {
          FactsKeepPending(s.db, t.db, s.pending[c]);
        }
      }
    }
  }

  lemma {:induction false} RunKeepsInv(s: System, run: seq<Action>)
    requires Inv(s) && Admissible(s, run)
    ensures Inv(Run(s, run))
    decreases run
  {
    if run != [] {
      StepKeepsInv(s, run[0]);
      RunKeepsInv(Step(s, run[0]), run[1..]);
    }
  }

  /** The invariant holds in every state the service can reach. */
  lemma Reachable(run: seq<Action>)
    requires Admissible(INITIAL, run)
    ensures Inv(Run(INITIAL, run))
  {
    RunKeepsInv(INITIAL, run);
  }

  // ------------------------------------------------- revisions identify row contents

  lemma {:induction false} RunKeepsFrozen(s: System, run: seq<Action>, name: string, row: Row)
    requires Inv(s) && Admissible(s, run) && Frozen(s.db, name, row)
    ensures Frozen(Run(s, run).db, name, row)
    decreases run
  {
    if run != [] {
      var t := Step(s, run[0]);
      if Effect(s, run[0]).Some? {
        EffectFacts(s, run[0]);
        FactsKeepFrozen(s.db, t.db, name, row);
      }
      StepKeepsInv(s, run[0]);
      RunKeepsFrozen(t, run[1..], name, row);
    }
  }

  /**
   * A revision seen at two moments of any run belongs to the same importer, with the same
   * contents but for the heartbeat: no delete and re-create, no pair of writes can bring it back.
   */
  lemma RevisionIdentifiesRow(s: System, run: seq<Action>, m: string, n: string)
    requires Inv(s) && Admissible(s, run)
    requires m in s.db.importers && n in Run(s, run).db.importers
    requires s.db.importers[m].revision == Run(s, run).db.importers[n].revision
    ensures m == n && SameButHeartbeat(Run(s, run).db.importers[n], s.db.importers[m])
  {
    RunKeepsFrozen(s, run, m, s.db.importers[m]);
  }

  // ------------------------------------------------- what a revision does not show

  lemma {:induction false} RevisionKept(row: Row, updates: seq<Assignment>)
    requires forall u :: u in updates ==> !u.Revision?
    ensures AssignAll(row, updates).revision == row.revision
    decreases updates
  {
    if updates != [] {
      assert updates[0] in updates && forall u :: u in updates[1..] ==> u in updates;
      RevisionKept(Assign(row, updates[0]), updates[1..]);
    }
  }

  lemma UpdateShows(db: Db, name: string, expected: Option<Uuid>, uuid: Uuid, updates: seq<Assignment>, n: string)
    requires forall u :: u in updates ==> !u.Revision?
    requires RevisionsIssued(db) && uuid !in db.issued && n in db.importers
    requires Selects(db, name, expected)
    ensures var d := UpdateRow(db, name, expected, uuid, updates).value;
      && n in d.importers
      && (d.importers[n] == db.importers[n] || d.importers[n].revision != db.importers[n].revision)
  {
    AssignCons(db.importers[name], Revision(uuid), updates);
    RevisionKept(Assign(db.importers[name], Revision(uuid)), updates);
  }

  predicate Shown(db: Db, d: Db, n: string)
    requires n in db.importers && n in d.importers
  {
    d.importers[n] == db.importers[n] || d.importers[n].revision != db.importers[n].revision
  }

  lemma ConfigurationShows(s: System, a: Action, n: string)
    requires Inv(s) && Enabled(s, a) && (a.EndPatch? || a.Replace?) && Effect(s, a).Some?
    requires n in s.db.importers && n in Step(s, a).db.importers
    ensures Shown(s.db, Step(s, a).db, n)
  {
    match a
    case EndPatch(client, order, uuid) =>
      var p := s.pending[client];
      UpdateShows(s.db, p.name, Some(p.revision), uuid, [SetConfiguration(Patched(p, order).value)], n);
    case Replace(name, expected, c, order, uuid) =>
      UpdateShows(s.db, name, expected, uuid, [SetConfiguration(Validated(c, order).value)], n);
  }

  lemma ProgressShows(s: System, a: Action, n: string)
    requires Inv(s) && Enabled(s, a) && (a.Progress? || a.Message?) && Effect(s, a).Some?
    requires n in s.db.importers && n in Step(s, a).db.importers
    ensures Shown(s.db, Step(s, a).db, n)
  {
    match a
    case Progress(name, expected, uuid, current, total) =>
      UpdateShows(s.db, name, expected, uuid, ProgressUpdates(current, total), n);
    case Message(name, expected, uuid, message) =>
      UpdateShows(s.db, name, expected, uuid, [ProgressMessage(Some(message))], n);
  }

  lemma EffectShows(s: System, a: Action, n: string)
    requires Inv(s) && Enabled(s, a) && !a.Beat? && n in s.db.importers && n in Step(s, a).db.importers
    ensures Shown(s.db, Step(s, a).db, n)
  {
    if Effect(s, a).Some? {
      match a
      case EndPatch(_, _, _) => ConfigurationShows(s, a, n);
      case Replace(_, _, _, _, _) => ConfigurationShows(s, a, n);
      case Progress(_, _, _, _, _) => ProgressShows(s, a, n);
      case Message(_, _, _, _) => ProgressShows(s, a, n);
      case Start(name, expected, uuid, now) => UpdateShows(s.db, name, expected, uuid, StartUpdates(now), n);
      case Finish(name, expected, uuid, start, now, _, error, continuation, _, _) =>
        UpdateShows(s.db, name, expected, uuid, FinishUpdates(start, now, error, continuation), n);
      case Reset(name, expected, uuid) => UpdateShows(s.db, name, expected, uuid, ResetUpdates(), n);
      case _ =>
    }
  }

  /** A step changes a row without changing its revision exactly when it is a heartbeat that takes effect. */
  lemma OnlyBeatsAreHidden(s: System, a: Action, n: string)
    requires Inv(s) && Enabled(s, a) && n in s.db.importers && n in Step(s, a).db.importers
    ensures var before, after := s.db.importers[n], Step(s, a).db.importers[n];
      before != after && before.revision == after.revision
      <==> a.Beat? && a.name == n && a.seen == before.heartbeat && Some(a.now) != before.heartbeat
  {
    if !a.Beat? {
      EffectShows(s, a, n);
    }
  }

  /** After any creation that succeeds, a first heartbeat gives one revision two rows. */
  lemma BeatAfterCreate(name: string, c: Configuration, order: seq<string>, uuid: Uuid, now: Time, beat: int)
    requires Labels.IsOrder(order, c.labels) && Validated(c, order).Ok?
    ensures var created := Step(INITIAL, Create(name, c, order, uuid, now));
      && Admissible(INITIAL, [Create(name, c, order, uuid, now), Beat(name, None, beat)])
      && var beaten := Run(INITIAL, [Create(name, c, order, uuid, now), Beat(name, None, beat)]);
      && name in created.db.importers && name in beaten.db.importers
      && created.db.importers[name].revision == beaten.db.importers[name].revision
      && created.db.importers[name] != beaten.db.importers[name]
  {
    var first, second: Action := Create(name, c, order, uuid, now), Beat(name, None, beat);
    var created := Step(INITIAL, first);
    assert [first, second][1..] == [second] && [second][1..] == [];
    assert Admissible(created, [second]);
    assert Run(created, [second]) == Step(created, second);
  }

  lemma {:induction false} RunAppend(s: System, a: seq<Action>, b: seq<Action>)
    requires Admissible(s, a + b)
    ensures Admissible(s, a) && Admissible(Run(s, a), b) && Run(s, a + b) == Run(Run(s, a), b)
    decreases a
  {
    if a == [] {
      assert a + b == b;
    } else {
      assert (a + b)[1..] == a[1..] + b;
      RunAppend(Step(s, a[0]), a[1..], b);
    }
  }

  /** A revision that is on no row any more never comes back. */
  ghost predicate Gone(db: Db, revision: Uuid) {
    revision in db.issued && forall n :: n in db.importers ==> db.importers[n].revision != revision
  }

  lemma {:induction false} RunKeepsGone(s: System, run: seq<Action>, revision: Uuid)
    requires Inv(s) && Admissible(s, run) && Gone(s.db, revision)
    ensures Gone(Run(s, run).db, revision)
    decreases run
  {
    if run != [] {
      var t := Step(s, run[0]);
      if Effect(s, run[0]).Some? {
        EffectFacts(s, run[0]);
      }
      assert Gone(t.db, revision);
      StepKeepsInv(s, run[0]);
      RunKeepsGone(t, run[1..], revision);
    }
  }

  /**
   * If an importer has the same revision before and after `a + b`, it had that row in between
   * too: a conditional write that succeeds was not merely lucky to find equal contents.
   */
  lemma UndisturbedBetween(s: System, a: seq<Action>, b: seq<Action>, name: string)
    requires Inv(s) && Admissible(s, a + b)
    requires name in s.db.importers && name in Run(s, a + b).db.importers
    requires s.db.importers[name].revision == Run(s, a + b).db.importers[name].revision
    ensures Admissible(s, a)
    ensures name in Run(s, a).db.importers
    ensures SameButHeartbeat(Run(s, a).db.importers[name], s.db.importers[name])
  {
    RunAppend(s, a, b);
    var mid := Run(s, a);
    var r := s.db.importers[name].revision;
    RunKeepsInv(s, a);
    RunKeepsFrozen(s, a, name, s.db.importers[name]);
    if Gone(mid.db, r) {
      RunKeepsGone(mid, b, r);
    }
  }

  // ------------------------------------------------- what every action does, in terms of the table alone

  /** The compare of compare-and-set: the importer exists and has the revision expected, if any is. */
  predicate Current(db: Db, name: string, expected: Option<Uuid>) {
    name in db.importers && (expected == None || expected == Some(db.importers[name].revision))
  }

  predicate Storable(c: Configuration) {
    forall k :: k in c.labels ==> Labels.Acceptable(k, c.labels[k])
  }

  /** The action takes effect. */
  ghost predicate Succeeds(s: System, a: Action)
    requires Enabled(s, a)
  {
    match a
    case Create(name, c, _, _, _) => name !in s.db.importers && Storable(c)
    case BeginPatch(_, _, _, _) => false
    case EndPatch(client, _, _) =>
      var p := s.pending[client];
      var mutated := p.f(p.configuration);
      mutated.Ok? && Storable(mutated.value) && Current(s.db, p.name, Some(p.revision))
    case Replace(name, expected, c, _, _) => Storable(c) && Current(s.db, name, expected)
    case Beat(name, seen, _) => name in s.db.importers && s.db.importers[name].heartbeat == seen
    case _ => Current(s.db, a.name, a.expected)
  }

  lemma ValidatedWhenStorable(c: Configuration, order: seq<string>)
    requires Labels.IsOrder(order, c.labels)
    ensures Validated(c, order).Ok? <==> Storable(c)
  {
    Labels.ValidateSucceeds(c.labels, order);
  }

  /** An action takes effect exactly when the table allows it, and otherwise changes nothing in it. */
  lemma TakesEffect(s: System, a: Action)
    requires Enabled(s, a)
    ensures Effect(s, a).Some? <==> Succeeds(s, a)
    ensures !Succeeds(s, a) ==> Step(s, a).db == s.db
  {
    match a
    case Create(_, c, order, _, _) => ValidatedWhenStorable(c, order);
    case Replace(_, _, c, order, _) => ValidatedWhenStorable(c, order);
    case EndPatch(client, order, _) =>
      var mutated := s.pending[client].f(s.pending[client].configuration);
      if mutated.Ok? {
        ValidatedWhenStorable(mutated.value, order);
      }
    case _ =>
  }

  /** The row as the action leaves it. */
  function Written(row: Row, a: Action): Row {
    match a
    case Start(_, _, uuid, now) => row.(revision := uuid, lastChange := now, state := Running)
    case Finish(_, _, uuid, start, now, _, error, continuation, _, _) =>
      row.(revision := uuid, lastChange := now, state := Waiting, lastRun := Some(start), lastError := error,
           lastSuccess := if error.None? then Some(start) else row.lastSuccess, continuation := continuation,
           progressCurrent := None, progressTotal := None, progressMessage := None)
    case Reset(_, _, uuid) =>
      row.(revision := uuid, lastRun := None, continuation := None,
           progressCurrent := None, progressTotal := None, progressMessage := None)
    case Progress(_, _, uuid, current, total) =>
      row.(revision := uuid, progressCurrent := Some(current), progressTotal := Some(total), progressMessage := None)
    case Message(_, _, uuid, message) => row.(revision := uuid, progressMessage := Some(message))
    case Beat(_, _, now) => row.(heartbeat := Some(now))
    case _ => row
  }

  /** The runs, the progress and the heartbeat of an importer touch one row, in these columns. */
  lemma RowIsWritten(s: System, a: Action)
    requires a.Start? || a.Finish? || a.Reset? || a.Progress? || a.Message? || a.Beat?
    requires Enabled(s, a) && Succeeds(s, a)
    ensures a.name in s.db.importers
    ensures Step(s, a).db.importers == s.db.importers[a.name := Written(s.db.importers[a.name], a)]
  {
    var row := s.db.importers[a.name];
    match a
    case Start(_, _, uuid, now) => StartMeaning(row, uuid, now);
    case Finish(_, _, uuid, start, now, _, error, continuation, _, _) =>
      FinishMeaning(row, uuid, start, now, error, continuation);
    case Reset(_, _, uuid) => ResetMeaning(row, uuid);
    case Progress(_, _, uuid, current, total) => ProgressMeaning(row, uuid, current, total);
    case Message(_, _, uuid, message) => MessageMeaning(row, uuid, Some(message));
    case Beat(_, _, _) =>
  }

  /** Creating and replacing store what validation makes of the configuration, and nothing else. */
  lemma ConfigurationIsStored(s: System, a: Action)
    requires (a.Create? || a.Replace?) && Enabled(s, a) && Succeeds(s, a)
    ensures Labels.Validate(a.configuration.labels, a.order).Ok?
    ensures var c := a.configuration.(labels := Labels.Validate(a.configuration.labels, a.order).value);
      var importers := Step(s, a).db.importers;
      if a.Replace? then
        a.name in s.db.importers
        && importers == s.db.importers[a.name := s.db.importers[a.name].(revision := a.uuid, configuration := c)]
      else
        && a.name in importers && importers == s.db.importers[a.name := importers[a.name]]
        && var row := importers[a.name];
        && row.revision == a.uuid && row.state == Waiting && row.lastChange == a.now && row.configuration == c
        && row.lastSuccess == None && row.lastRun == None && row.lastError == None && row.continuation == None
        && row.progressCurrent == None && row.progressTotal == None && row.progressMessage == None
        && row.heartbeat == None
  {
    ValidatedWhenStorable(a.configuration, a.order);
    if a.Replace? {
      ConfigurationMeaning(s.db.importers[a.name], a.uuid, Validated(a.configuration, a.order).value);
    }
  }

  /** A creation fails with the labels' own error or, with acceptable labels, because the name is taken. */
  lemma CreationErrors(s: System, a: Action)
    requires a.Create? && Enabled(s, a)
    ensures var r := CreateRow(s.db, a.name, a.configuration, a.order, a.uuid, a.now);
      && (r.Ok? <==> Succeeds(s, a))
      && (r == Err(AlreadyExists) <==> Storable(a.configuration) && a.name in s.db.importers)
      && forall e :: r == Err(Invalid(e)) <==> Labels.Validate(a.configuration.labels, a.order) == Err(e)
  {
    ValidatedWhenStorable(a.configuration, a.order);
  }

  /** A deletion removes that importer and no other. */
  lemma ImporterIsRemoved(s: System, a: Action)
    requires a.Delete? && Enabled(s, a) && Succeeds(s, a)
    ensures Step(s, a).db.importers == s.db.importers - {a.name}
  {
  }

  /** A patch remembers the row it read exactly when the caller's revision, if any, is that of the row. */
  lemma PatchRemembers(s: System, client: nat, name: string, expected: Option<Uuid>, f: Transform)
    ensures Step(s, BeginPatch(client, name, expected, f)).pending ==
      if Current(s.db, name, expected) then
        s.pending[client := Pending(name, s.db.importers[name].revision, s.db.importers[name].configuration, f)]
      else s.pending - {client}
    ensures Read(s.db, name, expected, f) == Err(NotFound) <==> name !in s.db.importers
    ensures Read(s.db, name, expected, f) == Err(MidAirCollision)
       <==> name in s.db.importers && !Current(s.db, name, expected)
  {
  }

  // ------------------------------------------------- what becomes of reports

  /** The action files the report. */
  ghost predicate Files(s: System, a: Action, r: Report) {
    && a.Finish? && Enabled(s, a) && Succeeds(s, a) && a.report == Some(r.report)
    && r.id == a.reportId && r.importer == a.name && r.creation == a.created && r.error == a.error
  }

  /** The action deletes the importer and its reports. */
  ghost predicate Drops(s: System, a: Action, r: Report) {
    a.Delete? && Enabled(s, a) && Succeeds(s, a) && a.name == r.importer
  }

  /** One step: a report is there afterwards if it was filed now, or was there and is not dropped. */
  lemma ReportsAfter(s: System, a: Action, r: Report)
    requires Enabled(s, a)
    ensures r in Step(s, a).db.reports <==> Files(s, a, r) || (r in s.db.reports && !Drops(s, a, r))
  {
    TakesEffect(s, a);
    if a.Delete? {
      WithoutFacts(s.db.reports, a.name);
    }
  }

  /** The state after the first `n` actions. */
  ghost function At(s: System, run: seq<Action>, n: nat): System
    requires Admissible(s, run) && n <= |run|
  {
    PrefixAdmissible(s, run, n);
    Run(s, run[..n])
  }

  lemma PrefixAdmissible(s: System, run: seq<Action>, n: nat)
    requires Admissible(s, run) && n <= |run|
    ensures Admissible(s, run[..n])
  {
    assert run[..n] + run[n..] == run;
    RunAppend(s, run[..n], run[n..]);
  }

  lemma RunOne(s: System, a: Action)
    requires Admissible(s, [a])
    ensures Enabled(s, a) && Run(s, [a]) == Step(s, a)
  {
    assert [a][1..] == [];
  }

  lemma OneMore(s: System, run: seq<Action>, a: Action)
    requires Admissible(s, run + [a])
    ensures Admissible(s, run) && Enabled(Run(s, run), a) && Run(s, run + [a]) == Step(Run(s, run), a)
  {
    RunAppend(s, run, [a]);
    RunOne(Run(s, run), a);
  }

  lemma AtNext(s: System, run: seq<Action>, n: nat)
    requires Admissible(s, run) && n < |run|
    ensures Enabled(At(s, run, n), run[n]) && At(s, run, n + 1) == Step(At(s, run, n), run[n])
  {
    PrefixAdmissible(s, run, n);
    PrefixAdmissible(s, run, n + 1);
    var init := run[..n];
    assert run[..n + 1] == init + [run[n]];
    OneMore(s, init, run[n]);
  }

  /** Action `k` filed the report, and none from there to the `n`-th dropped it. */
  ghost predicate FiledAt(s: System, run: seq<Action>, k: nat, n: nat, r: Report)
    requires Admissible(s, run) && k < n <= |run|
  {
    Files(At(s, run, k), run[k], r) && forall l :: k < l < n ==> !Drops(At(s, run, l), run[l], r)
  }

  ghost predicate FiledAndKept(s: System, run: seq<Action>, n: nat, r: Report)
    requires Admissible(s, run) && n <= |run|
  {
    exists k :: 0 <= k < n && FiledAt(s, run, k, n, r)
  }

  lemma FiledAndKeptNext(s: System, run: seq<Action>, n: nat, r: Report)
    requires Admissible(s, run) && n < |run|
    ensures FiledAndKept(s, run, n + 1, r)
       <==> Files(At(s, run, n), run[n], r) || (FiledAndKept(s, run, n, r) && !Drops(At(s, run, n), run[n], r))
  {
    forall k | 0 <= k < n
      ensures FiledAt(s, run, k, n + 1, r) <==> FiledAt(s, run, k, n, r) && !Drops(At(s, run, n), run[n], r)
    {
      FiledAtNext(s, run, k, n, r);
    }
    assert FiledAt(s, run, n, n + 1, r) <==> Files(At(s, run, n), run[n], r);
    if FiledAndKept(s, run, n + 1, r) {
      var k :| 0 <= k < n + 1 && FiledAt(s, run, k, n + 1, r);
      assert k < n ==> FiledAt(s, run, k, n, r);
    }
    if FiledAndKept(s, run, n, r) && !Drops(At(s, run, n), run[n], r) {
      var k :| 0 <= k < n && FiledAt(s, run, k, n, r);
      assert FiledAt(s, run, k, n + 1, r);
    }
  }

  lemma FiledAtNext(s: System, run: seq<Action>, k: nat, n: nat, r: Report)
    requires Admissible(s, run) && k < n < |run|
    ensures FiledAt(s, run, k, n + 1, r) <==> FiledAt(s, run, k, n, r) && !Drops(At(s, run, n), run[n], r)
  {
  }

  lemma {:induction false} ReportsUpTo(run: seq<Action>, n: nat, r: Report)
    requires Admissible(INITIAL, run) && n <= |run|
    ensures r in At(INITIAL, run, n).db.reports <==> FiledAndKept(INITIAL, run, n, r)
  {
    if n > 0 {
      ReportsUpTo(run, n - 1, r);
      AtNext(INITIAL, run, n - 1);
      ReportsAfter(At(INITIAL, run, n - 1), run[n - 1], r);
      FiledAndKeptNext(INITIAL, run, n - 1, r);
    }
  }

  ghost predicate DistinctIds(reports: seq<Report>) {
    forall i, j :: 0 <= i < j < |reports| ==> reports[i].id != reports[j].id
  }

  /** No identifier was used for two reports. */
  ghost predicate IdsOnce(db: Db) {
    && (forall r :: r in db.reports ==> r.id in db.issued)
    && DistinctIds(db.reports)
  }

  lemma OneIdBefore(first: Report, rest: seq<Report>)
    requires DistinctIds(rest) && forall r :: r in rest ==> r.id != first.id
    ensures DistinctIds([first] + rest)
  {
    assert forall i :: 0 <= i < |rest| ==> rest[i] in rest;
  }

  lemma FirstIdOnce(reports: seq<Report>)
    requires reports != [] && DistinctIds(reports)
    ensures DistinctIds(reports[1..]) && forall r :: r in reports[1..] ==> r.id != reports[0].id
  {
    forall r | r in reports[1..] ensures r.id != reports[0].id {
      var i :| 0 <= i < |reports[1..]| && reports[1..][i] == r;
      assert reports[i + 1] == r;
    }
  }

  lemma {:induction false} WithoutKeepsOnce(reports: seq<Report>, name: string)
    requires DistinctIds(reports)
    ensures DistinctIds(Without(reports, name))
  {
    if reports != [] {
      var rest := Without(reports[1..], name);
      FirstIdOnce(reports);
      WithoutKeepsOnce(reports[1..], name);
      WithoutFacts(reports[1..], name);
      OneIdBefore(reports[0], rest);
      assert [] + rest == rest;
    }
  }

  lemma OneMoreId(reports: seq<Report>, r: Report)
    requires DistinctIds(reports) && forall q :: q in reports ==> q.id != r.id
    ensures DistinctIds(reports + [r])
  {
    assert forall i :: 0 <= i < |reports| ==> reports[i] in reports;
  }

  lemma StepKeepsOnce(s: System, a: Action)
    requires Enabled(s, a) && IdsOnce(s.db)
    ensures IdsOnce(Step(s, a).db)
  {
    if a.Delete? {
      WithoutKeepsOnce(s.db.reports, a.name);
      WithoutFacts(s.db.reports, a.name);
    } else if a.Finish? && a.report.Some? {
      OneMoreId(s.db.reports, Report(a.reportId, a.name, a.created, a.error, a.report.value));
    }
  }

  /** Every report that is kept is kept once. */
  lemma {:induction false} ReportsAreKeptOnce(s: System, run: seq<Action>)
    requires IdsOnce(s.db) && Admissible(s, run)
    ensures IdsOnce(Run(s, run).db)
    decreases run
  {
    if run != [] {
      StepKeepsOnce(s, run[0]);
      ReportsAreKeptOnce(Step(s, run[0]), run[1..]);
    }
  }

  /**
   * After any run the reports are those that came with a finish that took effect and whose importer
   * has not been deleted since.
   */
  lemma ReportsAreKept(run: seq<Action>, r: Report)
    requires Admissible(INITIAL, run)
    ensures r in Run(INITIAL, run).db.reports <==> FiledAndKept(INITIAL, run, |run|, r)
    ensures DistinctIds(Run(INITIAL, run).db.reports)
  {
    ReportsAreKeptOnce(INITIAL, run);
    ReportsUpTo(run, |run|, r);
    assert run[..|run|] == run;
  }

  // ------------------------------------------------- no lost update

  /** The validated transformation of a configuration, visiting its labels in the given order. */
  ghost function Mutated(f: Transform, order: seq<string>, c: Configuration): Option<Configuration> {
    match f(c)
    case Err(_) => None
    case Ok(m) =>
      if !Labels.IsOrder(order, m.labels) then None
      else match Validated(m, order) case Ok(valid) => Some(valid) case Err(_) => None
  }

  /** Reading, transforming and storing in one indivisible step; the pending read plays no part. */
  ghost function AtomicPatch(db: Db, p: Pending, order: seq<string>, uuid: Uuid): Option<Db> {
    if p.name !in db.importers then None
    else
      var row := db.importers[p.name];
      match Mutated(p.f, order, row.configuration)
      case None => None
      case Some(c) =>
        Some(Db(db.importers[p.name := row.(revision := uuid, configuration := c)], db.reports, db.issued + {uuid}))
  }

  /**
   * A patch that succeeds stores the validated transformation of the configuration the row holds
   * at that very moment, although it was computed from an earlier read; nothing else of the row
   * changes but its revision, and no other row or report changes.
   */
  lemma PatchIsAtomic(s: System, client: nat, order: seq<string>, uuid: Uuid)
    requires Inv(s) && Enabled(s, EndPatch(client, order, uuid))
    requires Effect(s, EndPatch(client, order, uuid)).Some?
    ensures AtomicPatch(s.db, s.pending[client], order, uuid) == Some(Step(s, EndPatch(client, order, uuid)).db)
  {
    var p := s.pending[client];
    assert PendingOk(s.db, p);
    ConfigurationMeaning(s.db.importers[p.name], uuid, Patched(p, order).value);
  }

  predicate StillThere(db: Db, name: string, row: Row) {
    name in db.importers && SameButHeartbeat(db.importers[name], row)
  }

  /** A patch fails for the table exactly when the row it read has been written or deleted since. */
  lemma PatchFailsOnlyOnConflict(s: System, run: seq<Action>, client: nat, order: seq<string>, uuid: Uuid)
    requires Inv(s) && client in s.pending && s.pending[client].name in s.db.importers
    requires s.db.importers[s.pending[client].name].revision == s.pending[client].revision
    requires Admissible(s, run) && client in Run(s, run).pending && Run(s, run).pending[client] == s.pending[client]
    requires Enabled(Run(s, run), EndPatch(client, order, uuid))
    requires Patched(s.pending[client], order).Ok?
    ensures Effect(Run(s, run), EndPatch(client, order, uuid)).Some?
       <==> StillThere(Run(s, run).db, s.pending[client].name, s.db.importers[s.pending[client].name])
  {
    var p := s.pending[client];
    RunKeepsFrozen(s, run, p.name, s.db.importers[p.name]);
  }

  // ------------------------------------------------- refinement of an atomic service

  /** What callers rely on: the configurations and the reports. */
  datatype Ledger = Ledger(configurations: map<string, Configuration>, reports: seq<Report>)

  /** The writes that succeeded, each as one indivisible operation. */
  datatype Event =
    | Stored(name: string, configuration: Configuration)
    | Transformed(name: string, f: Transform, order: seq<string>)
    | Reported(report: Report)
    | Removed(name: string)

  ghost function LedgerOf(s: System): Ledger {
    Ledger(map n | n in s.db.importers :: s.db.importers[n].configuration, s.db.reports)
  }

  /** One atomic operation: a transformation reads and writes the current configuration at once. */
  ghost function Replay(l: Ledger, e: Event): Ledger {
    match e
    case Stored(name, c) => l.(configurations := l.configurations[name := c])
    case Transformed(name, f, order) =>
      if name !in l.configurations then l
      else
        (match Mutated(f, order, l.configurations[name])
         case Some(c) => l.(configurations := l.configurations[name := c])
         case None => l)
    case Reported(r) => l.(reports := l.reports + [r])
    case Removed(name) => Ledger(l.configurations - {name}, Without(l.reports, name))
  }

  ghost function ReplayAll(l: Ledger, events: seq<Event>): Ledger
    decreases events
  {
    if events == [] then l else ReplayAll(Replay(l, events[0]), events[1..])
  }

  /** The event of a successful action; the others leave no trace in the ledger. */
  ghost function EventOf(s: System, a: Action): Option<Event>
    requires Enabled(s, a)
  {
    if Effect(s, a) == None then None
    else
      match a
      case Create(name, c, order, _, _) =>
        (match Validated(c, order) case Ok(valid) => Some(Stored(name, valid)) case Err(_) => None)
      case Replace(name, _, c, order, _) =>
        (match Validated(c, order) case Ok(valid) => Some(Stored(name, valid)) case Err(_) => None)
      case EndPatch(client, order, _) => Some(Transformed(s.pending[client].name, s.pending[client].f, order))
      case Finish(name, _, _, _, _, created, error, _, report, reportId) =>
        (match ReportOf(name, created, error, report, reportId) case Some(r) => Some(Reported(r)) case None => None)
      case Delete(name, _) => Some(Removed(name))
      case _ => None
  }

  ghost function Events(s: System, run: seq<Action>): seq<Event>
    requires Admissible(s, run)
    decreases run
  {
    if run == [] then []
    else (match EventOf(s, run[0]) case Some(e) => [e] case None => []) + Events(Step(s, run[0]), run[1..])
  }

  ghost function After(l: Ledger, e: Option<Event>): Ledger {
    match e case Some(event) => Replay(l, event) case None => l
  }

  /** An update that leaves the configuration alone leaves the ledger alone. */
  lemma QuietUpdate(s: System, a: Action, name: string, row: Row)
    requires Enabled(s, a) && name in s.db.importers
    requires !a.BeginPatch? && !a.EndPatch?
    requires row.configuration == s.db.importers[name].configuration
    requires Step(s, a).db.importers == s.db.importers[name := row] && Step(s, a).db.reports == s.db.reports
    ensures LedgerOf(Step(s, a)) == LedgerOf(s)
  {
    assert LedgerOf(Step(s, a)).configurations == LedgerOf(s).configurations;
  }

  lemma StoredInLedger(s: System, t: System, name: string, row: Row)
    requires t.db.importers == s.db.importers[name := row] && t.db.reports == s.db.reports
    ensures LedgerOf(t) == Replay(LedgerOf(s), Stored(name, row.configuration))
  {
    assert LedgerOf(t).configurations == LedgerOf(s).configurations[name := row.configuration];
  }

  lemma PatchInLedger(s: System, a: Action)
    requires Inv(s) && a.EndPatch? && Enabled(s, a) && Effect(s, a).Some?
    ensures LedgerOf(Step(s, a)) == After(LedgerOf(s), EventOf(s, a))
  {
    PatchIsAtomic(s, a.client, a.order, a.uuid);
    var p := s.pending[a.client];
    var t := Step(s, a);
    StoredInLedger(s, t, p.name, t.db.importers[p.name]);
  }

  lemma FinishInLedger(s: System, a: Action)
    requires a.Finish? && Enabled(s, a) && Effect(s, a).Some?
    ensures LedgerOf(Step(s, a)) == After(LedgerOf(s), EventOf(s, a))
  {
    FinishMeaning(s.db.importers[a.name], a.uuid, a.start, a.now, a.error, a.continuation);
    assert LedgerOf(Step(s, a)).configurations == LedgerOf(s).configurations;
  }

  lemma ReplaceInLedger(s: System, a: Action)
    requires a.Replace? && Enabled(s, a) && Effect(s, a).Some?
    ensures LedgerOf(Step(s, a)) == After(LedgerOf(s), EventOf(s, a))
  {
    var c := Validated(a.configuration, a.order).value;
    ConfigurationMeaning(s.db.importers[a.name], a.uuid, c);
    StoredInLedger(s, Step(s, a), a.name, Step(s, a).db.importers[a.name]);
  }

  lemma QuietInLedger(s: System, a: Action)
    requires a.Start? || a.Reset? || a.Progress? || a.Message? || a.Beat?
    requires Enabled(s, a) && Effect(s, a).Some?
    ensures LedgerOf(Step(s, a)) == LedgerOf(s)
  {
    var row := s.db.importers[a.name];
    match a {
      case Start(_, _, uuid, now) => StartMeaning(row, uuid, now);
      case Reset(_, _, uuid) => ResetMeaning(row, uuid);
      case Progress(_, _, uuid, current, total) => ProgressMeaning(row, uuid, current, total);
      case Message(_, _, uuid, message) => MessageMeaning(row, uuid, Some(message));
      case Beat(_, _, _) =>
    }
    QuietUpdate(s, a, a.name, Step(s, a).db.importers[a.name]);
  }

  lemma DeleteInLedger(s: System, a: Action)
    requires a.Delete? && Enabled(s, a) && Effect(s, a).Some?
    ensures LedgerOf(Step(s, a)) == After(LedgerOf(s), EventOf(s, a))
  {
    assert LedgerOf(Step(s, a)).configurations == LedgerOf(s).configurations - {a.name};
  }

  lemma CreateInLedger(s: System, a: Action)
    requires a.Create? && Enabled(s, a) && Effect(s, a).Some?
    ensures LedgerOf(Step(s, a)) == After(LedgerOf(s), EventOf(s, a))
  {
    StoredInLedger(s, Step(s, a), a.name, Step(s, a).db.importers[a.name]);
  }

  lemma StepRefines(s: System, a: Action)
    requires Inv(s) && Enabled(s, a)
    ensures LedgerOf(Step(s, a)) == After(LedgerOf(s), EventOf(s, a))
  {
    if Effect(s, a).Some? {
      match a
      case Create(_, _, _, _, _) => CreateInLedger(s, a);
      case EndPatch(_, _, _) => PatchInLedger(s, a);
      case Replace(_, _, _, _, _) => ReplaceInLedger(s, a);
      case Finish(_, _, _, _, _, _, _, _, _, _) => FinishInLedger(s, a);
      case Delete(_, _) => DeleteInLedger(s, a);
      case _ => QuietInLedger(s, a);
    }
  }

  lemma {:induction false} RunRefinesFrom(s: System, run: seq<Action>)
    requires Inv(s) && Admissible(s, run)
    ensures LedgerOf(Run(s, run)) == ReplayAll(LedgerOf(s), Events(s, run))
    decreases run
  {
    if run != [] {
      StepRefines(s, run[0]);
      StepKeepsInv(s, run[0]);
      RunRefinesFrom(Step(s, run[0]), run[1..]);
      var rest := Events(Step(s, run[0]), run[1..]);
      match EventOf(s, run[0]) {
        case Some(e) => assert ([e] + rest)[1..] == rest;
        case None => assert [] + rest == rest;
      }
    }
  }

  /**
   * Main result. However clients interleave, the configurations and reports are those of executing
   * the successful operations one at a time, in the order of their writes, with every patch
   * reading and writing in one indivisible step.
   */
  lemma RunRefinesAtomicService(run: seq<Action>)
    requires Admissible(INITIAL, run)
    ensures LedgerOf(Run(INITIAL, run)) == ReplayAll(Ledger(map[], []), Events(INITIAL, run))
  {
    RunRefinesFrom(INITIAL, run);
    assert LedgerOf(INITIAL).configurations == map[];
  }
}
