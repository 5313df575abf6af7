/** Data migrations: partitioned runners, one transaction per document, abort on the first error. */
module Migration {
  import opened Results

  type Id = nat

  type Process = nat

  /** The rows derived from one document. */
  type Row = string

  /** "X of Y": a runner processes the documents whose hashed id is `current` modulo `total`. */
  datatype Partition = Partition(current: nat, total: nat)

  /** The handler: given a document's id and its present rows, the new rows or an error. */
  type Handler = (Id, Row) -> Option<Row>

  /** A run in progress: the documents not yet started, and the new rows of open transactions. */
  datatype Run = Run(partition: Partition, queue: seq<Id>, open: map<Id, Option<Row>>)

  /** The database, the runs in progress, and the partitions some run has completed. */
  datatype State = State(rows: map<Id, Row>, runs: map<Process, Run>, completed: set<Partition>)

  datatype Action =
    | Launch(p: Process, partition: Partition, all: seq<Id>)
    | Begin(p: Process)
    | Commit(p: Process, id: Id)
    | LoseCommit(p: Process, id: Id)
    | Abort(p: Process)
    | Finish(p: Process)

  predicate IsSelected(partition: Partition, hash: nat)
    requires partition.total > 0
  {
    hash % partition.total == partition.current
  }

  function Selected(partition: Partition, all: seq<Id>, hash: Id -> nat): seq<Id>
    requires partition.total > 0
  {
    if all == [] then []
    else (if IsSelected(partition, hash(all[0])) then [all[0]] else []) + Selected(partition, all[1..], hash)
  }

  /**
   * Documents are listed in any order. Any number of transactions may be open, and a run may abort at
   * any time: its open transactions roll back, except one whose commit got through unacknowledged.
   */
  ghost predicate Enabled(s: State, a: Action) {
    match a
    case Launch(p, partition, all) => p !in s.runs && partition.total > 0 && forall id :: id in all <==> id in s.rows
    case Begin(p) => p in s.runs && s.runs[p].queue != [] && s.runs[p].queue[0] in s.rows
    case Commit(p, id) => p in s.runs && id in s.runs[p].open && s.runs[p].open[id].Some?
    case LoseCommit(p, id) => p in s.runs && id in s.runs[p].open && s.runs[p].open[id].Some?
    case Abort(p) => p in s.runs
    case Finish(p) => p in s.runs && s.runs[p].queue == [] && s.runs[p].open == map[]
  }

  ghost function Next(s: State, a: Action, hash: Id -> nat, handler: Handler): State
    requires Enabled(s, a)
  {
    match a
    case Launch(p, partition, all) =>
      s.(runs := s.runs[p := Run(partition, Selected(partition, all, hash), map[])])
    case Begin(p) =>
      var run := s.runs[p];
      var id := run.queue[0];
      s.(runs := s.runs[p := run.(queue := run.queue[1..], open := run.open[id := handler(id, s.rows[id])])])
    case Commit(p, id) =>
      var run := s.runs[p];
      s.(rows := s.rows[id := run.open[id].value], runs := s.runs[p := run.(open := run.open - {id})])
    case LoseCommit(p, id) => s.(rows := s.rows[id := s.runs[p].open[id].value], runs := s.runs - {p})
    case Abort(p) => s.(runs := s.runs - {p})
    case Finish(p) => s.(runs := s.runs - {p}, completed := s.completed + {s.runs[p].partition})
  }

  /** The database as the processes change it; every method is one atomic step. */
  class Database {
    const hash: Id -> nat
    const handler: Handler
    var rows: map<Id, Row>
    var runs: map<Process, Run>
    var completed: set<Partition>

    ghost function Snapshot(): State
      reads this
    {
      State(rows, runs, completed)
    }

    constructor (rows: map<Id, Row>, hash: Id -> nat, handler: Handler)
      ensures Snapshot() == State(rows, map[], {}) && this.hash == hash && this.handler == handler
    {
      this.rows, this.hash, this.handler := rows, hash, handler;
      runs, completed := map[], {};
    }

    /** Lists the documents, keeping those of this partition. */
    method LaunchRun(p: Process, partition: Partition, all: seq<Id>)
      requires Enabled(Snapshot(), Launch(p, partition, all))
      modifies this
      ensures Snapshot() == Next(old(Snapshot()), Launch(p, partition, all), hash, handler)
    {
      var queue := [];
      for i := |all| downto 0
        invariant queue == Selected(partition, all[i..], hash)
      {
        if hash(all[i]) % partition.total == partition.current {
          queue := [all[i]] + queue;
        }
      }
      runs := runs[p := Run(partition, queue, map[])];
    }

    /** Opens the transaction of the next document and calls the handler in it. */
    method BeginDocument(p: Process)
      requires Enabled(Snapshot(), Begin(p))
      modifies this
      ensures Snapshot() == Next(old(Snapshot()), Begin(p), hash, handler)
    {
      var run := runs[p];
      var id := run.queue[0];
      var result := handler(id, rows[id]);
      runs := runs[p := run.(queue := run.queue[1..], open := run.open[id := result])];
    }

    method CommitDocument(p: Process, id: Id)
      requires Enabled(Snapshot(), Commit(p, id))
      modifies this
      ensures Snapshot() == Next(old(Snapshot()), Commit(p, id), hash, handler)
    {
      var run := runs[p];
      rows := rows[id := run.open[id].value];
      runs := runs[p := run.(open := run.open - {id})];
    }

    method AbortRun(p: Process)
      requires Enabled(Snapshot(), Abort(p))
      modifies this
      ensures Snapshot() == Next(old(Snapshot()), Abort(p), hash, handler)
    {
      runs := runs - {p};
    }

    method AbortAfterCommit(p: Process, id: Id)
      requires Enabled(Snapshot(), LoseCommit(p, id))
      modifies this
      ensures Snapshot() == Next(old(Snapshot()), LoseCommit(p, id), hash, handler)
    {
      rows := rows[id := runs[p].open[id].value];
      runs := runs - {p};
    }

    method FinishRun(p: Process)
      requires Enabled(Snapshot(), Finish(p))
      modifies this
      ensures Snapshot() == Next(old(Snapshot()), Finish(p), hash, handler)
    {
      completed := completed + {runs[p].partition};
      runs := runs - {p};
    }

    /** The reference: every document once, one after the other, with nothing else going on. */
    method ProcessAll(all: seq<Id>) returns (ok: bool)
      requires runs == map[] && forall id :: id in all <==> id in rows
      requires forall i, j :: 0 <= i < j < |all| ==> all[i] != all[j]
      modifies this`rows
      ensures ok <==> Migrates(old(rows), handler)
      ensures ok ==> rows == Migrated(old(rows), handler)
    {
      ghost var before := rows;
      for i := 0 to |all|
        invariant rows.Keys == before.Keys
        invariant forall k :: 0 <= k < i ==>
          handler(all[k], before[all[k]]).Some? && rows[all[k]] == handler(all[k], before[all[k]]).value
        invariant forall k :: i <= k < |all| ==> rows[all[k]] == before[all[k]]
      {
        var result := handler(all[i], rows[all[i]]);
        if result == None {
          return false;
        }
        rows := rows[all[i] := result.value];
      }
      forall id | id in before ensures handler(id, before[id]).Some? && rows[id] == handler(id, before[id]).value {
        var k :| 0 <= k < |all| && all[k] == id;
      }
      return true;
    }
  }

  /** The handler accepts every document. */
  ghost predicate Migrates(rows: map<Id, Row>, handler: Handler) {
    forall id :: id in rows ==> handler(id, rows[id]).Some?
  }

  /** Every document processed once. */
  ghost function Migrated(rows: map<Id, Row>, handler: Handler): map<Id, Row>
    requires Migrates(rows, handler)
  {
    map id | id in rows :: handler(id, rows[id]).value
  }

  // ---------------------------------------------------------------------------------------------
  // Partitions.

  /** Partitions of one total select disjoint sets of documents. */
  lemma Disjoint(a: Partition, b: Partition, hash: nat)
    requires a.total == b.total > 0 && IsSelected(a, hash) && IsSelected(b, hash)
    ensures a == b
  {
  }

  ghost predicate Covers(partitions: set<Partition>, hash: nat)
    requires forall p :: p in partitions ==> p.total > 0
  {
    exists p :: p in partitions && IsSelected(p, hash)
  }

  /** Runners of one total leave no document out exactly when every number below it is running. */
  lemma Complete(partitions: set<Partition>, total: nat)
    requires total > 0 && forall p :: p in partitions ==> p.total == total
    ensures (forall hash: nat :: Covers(partitions, hash))
       <==> (forall k: nat :: k < total ==> Partition(k, total) in partitions)
  {
    if forall k: nat :: k < total ==> Partition(k, total) in partitions {
      forall hash: nat ensures Covers(partitions, hash) {
        assert Partition(hash % total, total) in partitions;
        assert IsSelected(Partition(hash % total, total), hash);
      }
    }
    if forall hash: nat :: Covers(partitions, hash) {
      forall k: nat | k < total ensures Partition(k, total) in partitions {
        assert Covers(partitions, k);
        var p :| p in partitions && IsSelected(p, k);
        SmallModulus(k, total);
        assert p == Partition(k, total);
      }
    }
  }

  lemma SmallModulus(k: nat, total: nat)
    requires k < total
    ensures k % total == k
  {
  }

  /** A runner numbered at or beyond the total selects nothing and still completes. */
  lemma {:induction false} BeyondTotal(partition: Partition, all: seq<Id>, hash: Id -> nat)
    requires partition.total > 0
    ensures partition.current >= partition.total ==> Selected(partition, all, hash) == []
  {
    if all != [] {
      BeyondTotal(partition, all[1..], hash);
    }
  }

  lemma {:induction false} SelectedMembers(partition: Partition, all: seq<Id>, hash: Id -> nat, id: Id)
    requires partition.total > 0
    ensures id in Selected(partition, all, hash) <==> id in all && IsSelected(partition, hash(id))
  {
    if all != [] {
      SelectedMembers(partition, all[1..], hash, id);
      assert all == [all[0]] + all[1..];
    }
  }

  /** A runner takes the documents whose hash is its own number and a multiple of the total. */
  lemma SelectedExactly(partition: Partition, all: seq<Id>, hash: Id -> nat, id: Id)
    requires partition.total > 0
    ensures id in Selected(partition, all, hash)
       <==> && id in all && partition.current < partition.total
            && exists q: nat :: hash(id) == q * partition.total + partition.current
  {
    SelectedMembers(partition, all, hash, id);
    var q := hash(id) / partition.total;
    assert hash(id) == q * partition.total + hash(id) % partition.total;
    if exists q: nat :: hash(id) == q * partition.total + partition.current {
      var k: nat :| hash(id) == k * partition.total + partition.current;
      if partition.current < partition.total {
        SameRemainder(q, k, partition.total, hash(id) % partition.total, partition.current);
      }
    }
  }

  lemma Multiples(a: nat, b: nat, total: nat)
    ensures a < b ==> a * total + total <= b * total
  {
    if a < b {
      assert b * total == (a + 1) * total + (b - a - 1) * total;
    }
  }

  lemma SameRemainder(q: nat, k: nat, total: nat, r: nat, c: nat)
    requires q * total + r == k * total + c && r < total && c < total
    ensures r == c
  {
    Multiples(q, k, total);
    Multiples(k, q, total);
  }

  // ---------------------------------------------------------------------------------------------
  // Convergence.

  /** Processing a document again changes nothing. */
  ghost predicate Idempotent(rows: map<Id, Row>, handler: Handler) {
    forall id :: id in rows && handler(id, rows[id]).Some? ==>
      handler(id, handler(id, rows[id]).value) == handler(id, rows[id])
  }

  ghost predicate Untouched(rows: map<Id, Row>, s: State, id: Id)
    requires id in rows && id in s.rows
  {
    s.rows[id] == rows[id]
  }

  ghost predicate Processed(rows: map<Id, Row>, s: State, handler: Handler, id: Id)
    requires id in rows && id in s.rows
  {
    handler(id, rows[id]) == Some(s.rows[id])
  }

  ghost predicate RunOk(rows: map<Id, Row>, s: State, run: Run, hash: Id -> nat, handler: Handler) {
    && run.partition.total > 0
    && (forall id :: id in run.queue || id in run.open ==> id in rows)
    && (forall id :: id in run.open ==> run.open[id] == handler(id, rows[id]))
    && (forall id :: id in rows && id in s.rows && IsSelected(run.partition, hash(id)) ==>
          id in run.queue || id in run.open || Processed(rows, s, handler, id))
  }

  ghost predicate CompletedOk(rows: map<Id, Row>, s: State, partition: Partition, hash: Id -> nat, handler: Handler) {
    && partition.total > 0
    && forall id :: id in rows && id in s.rows && IsSelected(partition, hash(id)) ==> Processed(rows, s, handler, id)
  }

  /** `rows` is the database before any run. */
  ghost predicate Inv(rows: map<Id, Row>, s: State, hash: Id -> nat, handler: Handler) {
    && s.rows.Keys == rows.Keys
    && (forall id :: id in rows ==> Untouched(rows, s, id) || Processed(rows, s, handler, id))
    && (forall p :: p in s.runs ==> RunOk(rows, s, s.runs[p], hash, handler))
    && (forall partition :: partition in s.completed ==> CompletedOk(rows, s, partition, hash, handler))
  }

  /** Once processed, a document stays processed. */
  ghost predicate Progress(rows: map<Id, Row>, s: State, s': State, handler: Handler) {
    && s.rows.Keys == s'.rows.Keys == rows.Keys
    && forall id :: id in rows && Processed(rows, s, handler, id) ==> Processed(rows, s', handler, id)
  }

  lemma OthersKeep(rows: map<Id, Row>, s: State, s': State, run: Run, hash: Id -> nat, handler: Handler)
    requires RunOk(rows, s, run, hash, handler) && Progress(rows, s, s', handler)
    ensures RunOk(rows, s', run, hash, handler)
  {
    forall id | id in rows && id in s'.rows && IsSelected(run.partition, hash(id))
      ensures id in run.queue || id in run.open || Processed(rows, s', handler, id)
    {
      assert Processed(rows, s, handler, id) ==> Processed(rows, s', handler, id);
    }
  }

  lemma CompletedKeeps(
    rows: map<Id, Row>, s: State, s': State, partition: Partition, hash: Id -> nat, handler: Handler)
    requires CompletedOk(rows, s, partition, hash, handler) && Progress(rows, s, s', handler)
    ensures CompletedOk(rows, s', partition, hash, handler)
  {
    forall id | id in rows && id in s'.rows && IsSelected(partition, hash(id))
      ensures Processed(rows, s', handler, id)
    {
      assert Processed(rows, s, handler, id);
    }
  }

  lemma StepProgress(rows: map<Id, Row>, s: State, a: Action, hash: Id -> nat, handler: Handler)
    requires Inv(rows, s, hash, handler) && Enabled(s, a)
    ensures Progress(rows, s, Next(s, a, hash, handler), handler)
    ensures forall id :: id in rows ==>
      Untouched(rows, Next(s, a, hash, handler), id) || Processed(rows, Next(s, a, hash, handler), handler, id)
  {
    var s' := Next(s, a, hash, handler);
    if a.Commit? || a.LoseCommit? {
      assert RunOk(rows, s, s.runs[a.p], hash, handler);
      assert a.id in rows;
      assert Processed(rows, s', handler, a.id);
      forall id | id in rows && id != a.id ensures s'.rows[id] == s.rows[id] {
      }
      assert forall id :: id in rows && Processed(rows, s, handler, id) ==> Processed(rows, s', handler, id);
      assert forall id :: id in rows && Untouched(rows, s, id) && id != a.id ==> Untouched(rows, s', id);
    } else {
      assert s'.rows == s.rows;
      assert forall id :: id in rows && Processed(rows, s, handler, id) ==> Processed(rows, s', handler, id);
      assert forall id :: id in rows && Untouched(rows, s, id) ==> Untouched(rows, s', id);
    }
  }

  lemma LaunchedRun(rows: map<Id, Row>, s: State, a: Action, hash: Id -> nat, handler: Handler)
    requires Inv(rows, s, hash, handler) && Enabled(s, a) && a.Launch?
    ensures RunOk(rows, Next(s, a, hash, handler), Next(s, a, hash, handler).runs[a.p], hash, handler)
  {
    forall id ensures id in Selected(a.partition, a.all, hash)
                 <==> id in a.all && IsSelected(a.partition, hash(id)) {
      SelectedMembers(a.partition, a.all, hash, id);
    }
  }

  lemma BegunRun(rows: map<Id, Row>, s: State, a: Action, hash: Id -> nat, handler: Handler)
    requires Inv(rows, s, hash, handler) && Enabled(s, a) && a.Begin? && Idempotent(rows, handler)
    ensures RunOk(rows, Next(s, a, hash, handler), Next(s, a, hash, handler).runs[a.p], hash, handler)
  {
    var run, s' := s.runs[a.p], Next(s, a, hash, handler);
    var id := run.queue[0];
    assert RunOk(rows, s, run, hash, handler);
    assert run.queue == [id] + run.queue[1..];
    assert Untouched(rows, s, id) || Processed(rows, s, handler, id);
    assert handler(id, s.rows[id]) == handler(id, rows[id]);
    OthersKeep(rows, s, s', run, hash, handler);
  }

  lemma CommittedRun(rows: map<Id, Row>, s: State, a: Action, hash: Id -> nat, handler: Handler)
    requires Inv(rows, s, hash, handler) && Enabled(s, a) && a.Commit?
    requires Progress(rows, s, Next(s, a, hash, handler), handler)
    ensures RunOk(rows, Next(s, a, hash, handler), Next(s, a, hash, handler).runs[a.p], hash, handler)
  {
    var s' := Next(s, a, hash, handler);
    assert RunOk(rows, s, s.runs[a.p], hash, handler);
    OthersKeep(rows, s, s', s.runs[a.p], hash, handler);
    assert Processed(rows, s', handler, a.id);
  }

  lemma StepKeepsInv(rows: map<Id, Row>, s: State, a: Action, hash: Id -> nat, handler: Handler)
    requires Inv(rows, s, hash, handler) && Enabled(s, a) && Idempotent(rows, handler)
    ensures Inv(rows, Next(s, a, hash, handler), hash, handler)
  {
    var s' := Next(s, a, hash, handler);
    StepProgress(rows, s, a, hash, handler);
    forall p | p in s'.runs ensures RunOk(rows, s', s'.runs[p], hash, handler) {
      if p != a.p {
        assert RunOk(rows, s, s.runs[p], hash, handler);
        OthersKeep(rows, s, s', s.runs[p], hash, handler);
      } else if a.Launch? {
        LaunchedRun(rows, s, a, hash, handler);
      } else if a.Begin? {
        BegunRun(rows, s, a, hash, handler);
      } else {
        CommittedRun(rows, s, a, hash, handler);
      }
    }
    forall partition | partition in s'.completed ensures CompletedOk(rows, s', partition, hash, handler) {
      if partition in s.completed {
        assert CompletedOk(rows, s, partition, hash, handler);
        CompletedKeeps(rows, s, s', partition, hash, handler);
      } else {
        assert RunOk(rows, s, s.runs[a.p], hash, handler);
        OthersKeep(rows, s, s', s.runs[a.p], hash, handler);
      }
    }
  }

  ghost predicate Possible(s: State, history: seq<Action>, hash: Id -> nat, handler: Handler)
    decreases |history|
  {
    history != [] ==>
      Enabled(s, history[0]) && Possible(Next(s, history[0], hash, handler), history[1..], hash, handler)
  }

  ghost function After(s: State, history: seq<Action>, hash: Id -> nat, handler: Handler): State
    requires Possible(s, history, hash, handler)
    decreases |history|
  {
    if history == [] then s else After(Next(s, history[0], hash, handler), history[1..], hash, handler)
  }

  lemma {:induction false} HistoryKeepsInv(
    rows: map<Id, Row>, s: State, history: seq<Action>, hash: Id -> nat, handler: Handler)
    requires Inv(rows, s, hash, handler) && Possible(s, history, hash, handler) && Idempotent(rows, handler)
    ensures Inv(rows, After(s, history, hash, handler), hash, handler)
    decreases |history|
  {
    if history != [] {
      StepKeepsInv(rows, s, history[0], hash, handler);
      HistoryKeepsInv(rows, Next(s, history[0], hash, handler), history[1..], hash, handler);
    }
  }

  /**
   * Whatever the interleaving, and however many runs aborted on the way: once each partition of some
   * total has had one complete run, the database is as if every document had been processed once.
   */
  lemma RunsConverge(rows: map<Id, Row>, history: seq<Action>, hash: Id -> nat, handler: Handler, total: nat)
    requires Idempotent(rows, handler) && total > 0
    requires Possible(State(rows, map[], {}), history, hash, handler)
    requires forall k: nat :: k < total ==>
      Partition(k, total) in After(State(rows, map[], {}), history, hash, handler).completed
    ensures Migrates(rows, handler)
    ensures After(State(rows, map[], {}), history, hash, handler).rows == Migrated(rows, handler)
  {
    var start := State(rows, map[], {});
    var end := After(start, history, hash, handler);
    HistoryKeepsInv(rows, start, history, hash, handler);
    forall id | id in rows ensures Processed(rows, end, handler, id) {
      var partition := Partition(hash(id) % total, total);
      assert CompletedOk(rows, end, partition, hash, handler);
      assert IsSelected(partition, hash(id));
    }
    assert forall id :: id in rows ==> handler(id, rows[id]) == Some(end.rows[id]);
  }

  /** At every moment each document is either untouched or fully processed. */
  lemma NeverHalfProcessed(rows: map<Id, Row>, history: seq<Action>, hash: Id -> nat, handler: Handler, id: Id)
    requires Idempotent(rows, handler) && id in rows
    requires Possible(State(rows, map[], {}), history, hash, handler)
    ensures var end := After(State(rows, map[], {}), history, hash, handler);
      id in end.rows && (Untouched(rows, end, id) || Processed(rows, end, handler, id))
  {
    HistoryKeepsInv(rows, State(rows, map[], {}), history, hash, handler);
  }

  /** What a run has yet to do, and what it has open, is all of its own partition. */
  ghost predicate OwnDocuments(run: Run, hash: Id -> nat) {
    run.partition.total > 0
    && forall id :: id in run.queue || id in run.open ==> hash(id) % run.partition.total == run.partition.current
  }

  ghost predicate AllOwn(s: State, hash: Id -> nat) {
    forall p :: p in s.runs ==> OwnDocuments(s.runs[p], hash)
  }

  lemma StepKeepsOwn(s: State, a: Action, hash: Id -> nat, handler: Handler)
    requires AllOwn(s, hash) && Enabled(s, a)
    ensures AllOwn(Next(s, a, hash, handler), hash)
  {
    if a.Launch? {
      forall id | id in Selected(a.partition, a.all, hash)
        ensures hash(id) % a.partition.total == a.partition.current
      {
        SelectedMembers(a.partition, a.all, hash, id);
      }
    }
  }

  lemma {:induction false} HistoryKeepsOwn(s: State, history: seq<Action>, hash: Id -> nat, handler: Handler)
    requires AllOwn(s, hash) && Possible(s, history, hash, handler)
    ensures AllOwn(After(s, history, hash, handler), hash)
    decreases |history|
  {
    if history != [] {
      StepKeepsOwn(s, history[0], hash, handler);
      HistoryKeepsOwn(Next(s, history[0], hash, handler), history[1..], hash, handler);
    }
  }

  /** Runs of different partitions of one total never have a document in common, open or waiting. */
  lemma NeverShared(rows: map<Id, Row>, history: seq<Action>, hash: Id -> nat, handler: Handler, p: Process, q: Process)
    requires Possible(State(rows, map[], {}), history, hash, handler)
    requires var runs := After(State(rows, map[], {}), history, hash, handler).runs;
      p in runs && q in runs && runs[p].partition != runs[q].partition
      && runs[p].partition.total == runs[q].partition.total
    ensures var runs := After(State(rows, map[], {}), history, hash, handler).runs;
      forall id :: !((id in runs[p].queue || id in runs[p].open) && (id in runs[q].queue || id in runs[q].open))
  {
    HistoryKeepsOwn(State(rows, map[], {}), history, hash, handler);
  }

  // ---------------------------------------------------------------------------------------------
  // What convergence needs.

  lemma {:induction false} HistoryAppend(s: State, a: seq<Action>, b: seq<Action>, hash: Id -> nat, handler: Handler)
    requires Possible(s, a, hash, handler) && Possible(After(s, a, hash, handler), b, hash, handler)
    ensures Possible(s, a + b, hash, handler)
    ensures After(s, a + b, hash, handler) == After(After(s, a, hash, handler), b, hash, handler)
    decreases |a|
  {
    if a == [] {
      assert a + b == b;
    } else {
      HistoryAppend(Next(s, a[0], hash, handler), a[1..], b, hash, handler);
      assert (a + b)[1..] == a[1..] + b;
    }
  }

  lemma SingleStep(s: State, a: Action, hash: Id -> nat, handler: Handler)
    requires Enabled(s, a)
    ensures Possible(s, [a], hash, handler) && After(s, [a], hash, handler) == Next(s, a, hash, handler)
  {
    assert [a][1..] == [];
  }

  /** The steps that take the documents one after the other. */
  function EachDocument(ids: seq<Id>): seq<Action> {
    if ids == [] then [] else [Begin(0), Commit(0, ids[0])] + EachDocument(ids[1..])
  }

  /** A complete run of the only runner, with one transaction open at a time. */
  function OneRun(all: seq<Id>): seq<Action> {
    [Launch(0, Partition(0, 1), all)] + EachDocument(all) + [Finish(0)]
  }

  function Draining(rows: map<Id, Row>, queue: seq<Id>, completed: set<Partition>): State {
    State(rows, map[0 := Run(Partition(0, 1), queue, map[])], completed)
  }

  ghost predicate Listing(rows: map<Id, Row>, all: seq<Id>) {
    && (forall id :: id in all <==> id in rows)
    && forall i, j :: 0 <= i < j < |all| ==> all[i] != all[j]
  }

  /** The documents of the queue processed, the others as they are. */
  ghost function Drained(rows: map<Id, Row>, queue: seq<Id>, handler: Handler): map<Id, Row>
    requires forall id :: id in queue ==> id in rows && handler(id, rows[id]).Some?
  {
    map id | id in rows :: if id in queue then handler(id, rows[id]).value else rows[id]
  }

  lemma OneDocument(rows: map<Id, Row>, queue: seq<Id>, completed: set<Partition>, hash: Id -> nat, handler: Handler)
    requires queue != [] && queue[0] in rows && handler(queue[0], rows[queue[0]]).Some?
    ensures var id := queue[0];
      var s, more := Draining(rows, queue, completed), rows[id := handler(id, rows[id]).value];
      && Possible(s, [Begin(0), Commit(0, id)], hash, handler)
      && After(s, [Begin(0), Commit(0, id)], hash, handler) == Draining(more, queue[1..], completed)
  {
    var id := queue[0];
    var s, more := Draining(rows, queue, completed), rows[id := handler(id, rows[id]).value];
    var begun := State(rows, map[0 := Run(Partition(0, 1), queue[1..], map[id := handler(id, rows[id])])], completed);
    assert Next(s, Begin(0), hash, handler) == begun;
    assert map[id := handler(id, rows[id])] - {id} == map[];
    assert Next(begun, Commit(0, id), hash, handler) == Draining(more, queue[1..], completed);
    SingleStep(s, Begin(0), hash, handler);
    SingleStep(begun, Commit(0, id), hash, handler);
    HistoryAppend(s, [Begin(0)], [Commit(0, id)], hash, handler);
    assert [Begin(0)] + [Commit(0, id)] == [Begin(0), Commit(0, id)];
  }

  lemma DrainedCons(rows: map<Id, Row>, queue: seq<Id>, handler: Handler)
    requires queue != [] && forall i, j :: 0 <= i < j < |queue| ==> queue[i] != queue[j]
    requires forall id :: id in queue ==> id in rows && handler(id, rows[id]).Some?
    ensures var more := rows[queue[0] := handler(queue[0], rows[queue[0]]).value];
      && (forall id :: id in queue[1..] ==> id in more && id != queue[0] && more[id] == rows[id])
      && (forall id :: id in queue[1..] ==> id in more && handler(id, more[id]).Some?)
      && Drained(more, queue[1..], handler) == Drained(rows, queue, handler)
  {
    var more := rows[queue[0] := handler(queue[0], rows[queue[0]]).value];
    assert queue == [queue[0]] + queue[1..];
    forall id | id in queue[1..] ensures id != queue[0] && id in queue && more[id] == rows[id] {
      var k :| 0 <= k < |queue[1..]| && queue[1..][k] == id;
      assert queue[k + 1] == id;
    }
    assert queue[0] in queue;
    assert Drained(more, queue[1..], handler).Keys == Drained(rows, queue, handler).Keys;
    forall id | id in rows ensures Drained(more, queue[1..], handler)[id] == Drained(rows, queue, handler)[id] {
      assert id in queue <==> id == queue[0] || id in queue[1..];
    }
  }

  lemma {:induction false} DrainQueue(
    rows: map<Id, Row>, queue: seq<Id>, completed: set<Partition>, hash: Id -> nat, handler: Handler)
    requires forall i, j :: 0 <= i < j < |queue| ==> queue[i] != queue[j]
    requires forall id :: id in queue ==> id in rows && handler(id, rows[id]).Some?
    ensures var s := Draining(rows, queue, completed);
      && Possible(s, EachDocument(queue), hash, handler)
      && After(s, EachDocument(queue), hash, handler) == Draining(Drained(rows, queue, handler), [], completed)
  {
    if queue == [] {
      assert Drained(rows, queue, handler) == rows;
    } else {
      var more := rows[queue[0] := handler(queue[0], rows[queue[0]]).value];
      DrainedCons(rows, queue, handler);
      OneDocument(rows, queue, completed, hash, handler);
      DrainQueue(more, queue[1..], completed, hash, handler);
      HistoryAppend(Draining(rows, queue, completed), [Begin(0), Commit(0, queue[0])], EachDocument(queue[1..]),
                    hash, handler);
    }
  }

  lemma {:induction false} AllSelected(all: seq<Id>, hash: Id -> nat)
    ensures Selected(Partition(0, 1), all, hash) == all
  {
    if all != [] {
      AllSelected(all[1..], hash);
      assert hash(all[0]) % 1 == 0;
      assert all == [all[0]] + all[1..];
    }
  }

  /** The run over any listing of any table processes every document once. */
  lemma RunOnce(rows: map<Id, Row>, all: seq<Id>, completed: set<Partition>, hash: Id -> nat, handler: Handler)
    requires Listing(rows, all) && Migrates(rows, handler)
    ensures var s := State(rows, map[], completed);
      && Possible(s, OneRun(all), hash, handler)
      && After(s, OneRun(all), hash, handler)
         == State(Migrated(rows, handler), map[], completed + {Partition(0, 1)})
  {
    var s := State(rows, map[], completed);
    var l, f: Action := Launch(0, Partition(0, 1), all), Finish(0);
    assert After(s, [l], hash, handler) == Draining(rows, all, completed) by {
      AllSelected(all, hash);
      SingleStep(s, l, hash, handler);
    }
    DrainQueue(rows, all, completed, hash, handler);
    assert Drained(rows, all, handler) == Migrated(rows, handler);
    HistoryAppend(s, [l], EachDocument(all), hash, handler);
    SingleStep(Draining(Migrated(rows, handler), [], completed), f, hash, handler);
    HistoryAppend(s, [l] + EachDocument(all), [f], hash, handler);
  }

  /** Migrating a migrated table changes nothing exactly when the handler is idempotent on the table. */
  lemma TwiceIsOnce(rows: map<Id, Row>, handler: Handler)
    requires Migrates(rows, handler) && Migrates(Migrated(rows, handler), handler)
    ensures Migrated(Migrated(rows, handler), handler) == Migrated(rows, handler) <==> Idempotent(rows, handler)
  {
    var once := Migrated(rows, handler);
    var twice := Migrated(once, handler);
    if twice == once {
      forall id | id in rows ensures handler(id, handler(id, rows[id]).value) == handler(id, rows[id]) {
        assert twice[id] == once[id];
      }
    }
    if Idempotent(rows, handler) {
      assert twice.Keys == once.Keys;
      forall id | id in once ensures twice[id] == once[id] {
      }
    }
  }

  /** Running to completion twice gives what one run gives exactly when the handler is idempotent on the table. */
  lemma RerunsNeedIdempotence(rows: map<Id, Row>, all: seq<Id>, hash: Id -> nat, handler: Handler)
    requires Listing(rows, all) && Migrates(rows, handler) && Migrates(Migrated(rows, handler), handler)
    ensures var start := State(rows, map[], {});
      && Possible(start, OneRun(all) + OneRun(all), hash, handler)
      && (After(start, OneRun(all) + OneRun(all), hash, handler).rows == Migrated(rows, handler)
          <==> Idempotent(rows, handler))
  {
    RunOnce(rows, all, {}, hash, handler);
    RunOnce(Migrated(rows, handler), all, {} + {Partition(0, 1)}, hash, handler);
    HistoryAppend(State(rows, map[], {}), OneRun(all), OneRun(all), hash, handler);
    TwiceIsOnce(rows, handler);
  }
}
