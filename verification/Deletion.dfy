/** Deleting a list of entries with concurrent requests that complete in any order. */
module Deletion {
  import opened Results
  import opened Client
  import opened Duplicates

  /** A line of one of the result lists; only failures carry an error. */
  datatype Item = Item(entry: DeleteEntry, error: Option<ApiError>)

  datatype DeleteResult = DeleteResult(
    deleted: seq<Item>, skipped: seq<Item>, failed: seq<Item>,
    deletedTotal: nat, skippedTotal: nat, failedTotal: nat, total: nat)

  datatype List = Deleted | Skipped | Failed

  const U32 := 0x1_0000_0000

  /** A request has completed: which entry it was for, and its answer. */
  datatype Completion = Completion(entry: DeleteEntry, answer: Answer)

  function ListOf(answer: Answer): List {
    match answer
    case Ok(_) => Deleted
    case Err(HttpError(404, _)) => Skipped
    case Err(_) => Failed
  }

  function ItemOf(c: Completion): Item {
    Item(c.entry, if ListOf(c.answer) == Failed then Some(c.answer.error) else None)
  }

  /** The part of one list that these completions fill. */
  function Filed(done: seq<Completion>, list: List): seq<Item> {
    if done == [] then []
    else
      var last := done[|done| - 1];
      Filed(done[..|done| - 1], list) + if ListOf(last.answer) == list then [ItemOf(last)] else []
  }

  function EntriesOf(done: seq<Completion>): (entries: seq<DeleteEntry>)
    ensures |entries| == |done|
  {
    seq(|done|, i requires 0 <= i < |done| => done[i].entry)
  }

  function ItemsOf(done: seq<Completion>): (items: seq<Item>)
    ensures |items| == |done|
  {
    seq(|done|, i requires 0 <= i < |done| => ItemOf(done[i]))
  }

  /** The three lists that the requests append to, each under its own lock. */
  class Collector {
    var deleted: seq<Item>
    var skipped: seq<Item>
    var failed: seq<Item>

    ghost predicate Holds(done: seq<Completion>)
      reads this
    {
      deleted == Filed(done, Deleted) && skipped == Filed(done, Skipped) && failed == Filed(done, Failed)
    }

    constructor ()
      ensures Holds([])
    {
      deleted, skipped, failed := [], [], [];
    }

    method Complete(c: Completion, ghost done: seq<Completion>)
      requires Holds(done)
      modifies this
      ensures Holds(done + [c])
    {
      assert (done + [c])[..|done|] == done;
      match c.answer {
        case Ok(_) =>
          deleted := deleted + [Item(c.entry, None)];
        case Err(HttpError(404, _)) =>
          skipped := skipped + [Item(c.entry, None)];
        case Err(e) =>
          failed := failed + [Item(c.entry, Some(e))];
      }
    }
  }

  /** `done` is the order in which the requests for the entries happened to complete. */
  method DeleteEntries(entries: seq<DeleteEntry>, done: seq<Completion>) returns (result: DeleteResult)
    requires multiset(EntriesOf(done)) == multiset(entries)
    ensures result.deleted == Filed(done, Deleted) && result.deletedTotal == |result.deleted| % 4294967296
    ensures result.skipped == Filed(done, Skipped) && result.skippedTotal == |result.skipped| % 4294967296
    ensures result.failed == Filed(done, Failed) && result.failedTotal == |result.failed| % 4294967296
    ensures result.total == |entries| % 4294967296
  {
    var lists := new Collector();
    assert done[..0] == [];
    for i := 0 to |done|
      invariant lists.Holds(done[..i])
    {
      assert done[..i + 1] == done[..i] + [done[i]];
      lists.Complete(done[i], done[..i]);
    }
    assert done[..|done|] == done;
    result := DeleteResult(
      lists.deleted, lists.skipped, lists.failed,
      |lists.deleted| % U32, |lists.skipped| % U32, |lists.failed| % U32, |entries| % U32);
  }

  function Filing(c: Completion, list: List): seq<Item> {
    if ListOf(c.answer) == list then [ItemOf(c)] else []
  }

  lemma FiledSnoc(done: seq<Completion>, c: Completion, list: List)
    ensures Filed(done + [c], list) == Filed(done, list) + Filing(c, list)
  {
    assert (done + [c])[..|done|] == done;
  }

  lemma JoinOne<T>(a: seq<T>, b: seq<T>, c: seq<T>, all: seq<T>, x: seq<T>)
    requires multiset(a) + multiset(b) + multiset(c) == multiset(all)
    ensures multiset(a + x) + multiset(b) + multiset(c) == multiset(all + x)
    ensures multiset(a) + multiset(b + x) + multiset(c) == multiset(all + x)
    ensures multiset(a) + multiset(b) + multiset(c + x) == multiset(all + x)
  {
  }

  lemma FileOne(deleted: seq<Item>, skipped: seq<Item>, failed: seq<Item>, all: seq<Item>, c: Completion)
    requires multiset(deleted) + multiset(skipped) + multiset(failed) == multiset(all)
    ensures multiset(deleted + Filing(c, Deleted)) + multiset(skipped + Filing(c, Skipped))
            + multiset(failed + Filing(c, Failed))
         == multiset(all + [ItemOf(c)])
  {
    assert deleted + [] == deleted && skipped + [] == skipped && failed + [] == failed;
    JoinOne(deleted, skipped, failed, all, [ItemOf(c)]);
  }

  /** Every completion is filed in exactly one list, whatever the order. */
  lemma {:induction false} NothingIsLost(done: seq<Completion>)
    ensures multiset(Filed(done, Deleted)) + multiset(Filed(done, Skipped)) + multiset(Filed(done, Failed))
         == multiset(ItemsOf(done))
  {
    if done != [] {
      var rest, last := done[..|done| - 1], done[|done| - 1];
      NothingIsLost(rest);
      assert ItemsOf(done) == ItemsOf(rest) + [ItemOf(last)];
      FileOne(Filed(rest, Deleted), Filed(rest, Skipped), Filed(rest, Failed), ItemsOf(rest), last);
    }
  }

  /** An item is in a list exactly when some entry got an answer that belongs there. */
  lemma {:induction false} FiledWhere(done: seq<Completion>, list: List, item: Item)
    ensures item in Filed(done, list) <==> exists c :: c in done && ListOf(c.answer) == list && ItemOf(c) == item
  {
    if done != [] {
      var last := |done| - 1;
      FiledWhere(done[..last], list, item);
      assert done == done[..last] + [done[last]];
    }
  }

  /** Some request for this entry was answered so. */
  predicate AnsweredSo(done: seq<Completion>, entry: DeleteEntry, answer: Answer) {
    Completion(entry, answer) in done
  }

  /**
   * What the lists say: deleted after a success, skipped after a plain 404, failed with its own error
   * after anything else.
   */
  lemma ListsSay(done: seq<Completion>, entry: DeleteEntry, error: Option<ApiError>)
    ensures Item(entry, error) in Filed(done, Deleted)
       <==> error == None && exists text :: AnsweredSo(done, entry, Ok(text))
    ensures Item(entry, error) in Filed(done, Skipped)
       <==> error == None && exists body :: AnsweredSo(done, entry, Err(HttpError(404, body)))
    ensures Item(entry, error) in Filed(done, Failed)
       <==> error.Some? && AnsweredSo(done, entry, Err(error.value))
            && !(error.value.HttpError? && error.value.code == 404)
  {
    var item := Item(entry, error);
    FiledWhere(done, Deleted, item);
    FiledWhere(done, Skipped, item);
    FiledWhere(done, Failed, item);
    forall c | c in done && c.entry == entry
      ensures AnsweredSo(done, entry, c.answer)
      ensures c.answer.Ok? ==> AnsweredSo(done, entry, Ok(c.answer.value))
    {
      assert c == Completion(entry, c.answer);
    }
    forall answer | AnsweredSo(done, entry, answer) ensures Completion(entry, answer) in done {
    }
  }

  lemma {:induction false} FiledAppend(a: seq<Completion>, b: seq<Completion>, list: List)
    ensures Filed(a + b, list) == Filed(a, list) + Filed(b, list)
  {
    if b == [] {
      assert a + b == a;
    } else {
      var rest, last := b[..|b| - 1], b[|b| - 1];
      FiledAppend(a, rest, list);
      FiledSnoc(a + rest, last, list);
      assert (a + rest) + [last] == a + b;
    }
  }

  lemma FiledBetween(a: seq<Completion>, c: Completion, b: seq<Completion>, list: List)
    ensures Filed(a + [c] + b, list) == Filed(a, list) + Filing(c, list) + Filed(b, list)
  {
    FiledSnoc(a, c, list);
    FiledAppend(a + [c], b, list);
  }

  lemma MoveToEnd<T>(a: seq<T>, x: seq<T>, b: seq<T>)
    ensures multiset(a + x + b) == multiset((a + b) + x)
  {
  }

  lemma DropSame<T>(a: seq<T>, b: seq<T>, x: seq<T>)
    ensures multiset(a + x) == multiset(b + x) <==> multiset(a) == multiset(b)
  {
    if multiset(a + x) == multiset(b + x) {
      assert multiset(a + x) - multiset(x) == multiset(a);
      assert multiset(b + x) - multiset(x) == multiset(b);
    }
  }

  lemma HeadIsMember<T>(s: seq<T>)
    ensures s != [] ==> s[0] in multiset(s)
  {
  }

  /** Two orders of the same completions fill the lists with the same items. */
  lemma {:induction false} OrderDoesNotMatter(done: seq<Completion>, again: seq<Completion>, list: List)
    requires multiset(done) == multiset(again)
    ensures multiset(Filed(done, list)) == multiset(Filed(again, list))
    decreases |done|
  {
    if done == [] {
      HeadIsMember(again);
    } else {
      var rest, last := done[..|done| - 1], done[|done| - 1];
      assert done == rest + [last];
      var k := Position(done, again);
      var a, b := again[..k], again[k + 1..];
      assert again == a + [last] + b;
      MoveToEnd(a, [last], b);
      DropSame(rest, a + b, [last]);
      OrderDoesNotMatter(rest, a + b, list);
      FiledSnoc(rest, last, list);
      FiledBetween(a, last, b, list);
      FiledAppend(a, b, list);
      MoveToEnd(Filed(a, list), Filing(last, list), Filed(b, list));
      DropSame(Filed(rest, list), Filed(a + b, list), Filing(last, list));
    }
  }

  lemma Position(done: seq<Completion>, again: seq<Completion>) returns (k: nat)
    requires done != [] && multiset(done) == multiset(again)
    ensures k < |again| && again[k] == done[|done| - 1]
  {
    assert done[|done| - 1] in multiset(again);
    k :| k < |again| && again[k] == done[|done| - 1];
  }

  /** An answer that a run of the client can end with. */
  ghost predicate ClientAnswer(answer: Answer) {
    exists replies: seq<Reply>, canRefresh: bool, calls: nat, slept: nat ::
      |replies| == MAX_RETRIES && Outcome(Requests(replies), MAX_RETRIES, canRefresh, calls, answer, slept)
  }

  /** With the client's answers no entry is ever skipped: a missing resource is filed as a failure. */
  lemma NothingIsSkipped(done: seq<Completion>)
    requires forall c :: c in done ==> ClientAnswer(c.answer)
    ensures Filed(done, Skipped) == []
  {
    if Filed(done, Skipped) != [] {
      var item := Filed(done, Skipped)[0];
      FiledWhere(done, Skipped, item);
      var c :| c in done && ListOf(c.answer) == Skipped && ItemOf(c) == item;
      NotSkipped(c.answer);
    }
  }

  lemma NotSkipped(answer: Answer)
    requires ClientAnswer(answer)
    ensures ListOf(answer) != Skipped
  {
    var replies: seq<Reply>, canRefresh: bool, calls: nat, slept: nat :|
      |replies| == MAX_RETRIES && Outcome(Requests(replies), MAX_RETRIES, canRefresh, calls, answer, slept);
    MissingIsNeverHttpError(replies, MAX_RETRIES, canRefresh, calls, answer, slept);
  }
}
