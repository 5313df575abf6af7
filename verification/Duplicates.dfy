/** Finding duplicate SBOMs and deleting all but one of each document. */
module Duplicates {
  import opened Results
  import opened Strings

  datatype Entry = Entry(id: string, documentId: string, published: Option<string>)

  datatype Group = Group(documentId: string, published: Option<string>, id: string, duplicates: seq<string>)

  datatype DeleteEntry = DeleteEntry(id: string, identifier: string)

  // ---------------------------------------------------------------------------------------------
  // The program.

  /** The comparator says `Less`: an undated entry goes before a dated one, a later date before an earlier one. */
  predicate Before(a: Entry, b: Entry) {
    match (b.published, a.published)
    case (Some(pb), Some(pa)) => Less(pb, pa)
    case (Some(_), None) => true
    case (None, Some(_)) => false
    case (None, None) => false
  }

  function Insert(e: Entry, sorted: seq<Entry>): seq<Entry> {
    if sorted == [] || !Before(sorted[0], e) then [e] + sorted else [sorted[0]] + Insert(e, sorted[1..])
  }

  /** `sort_by` is stable: an entry stays in front of the later ones that compare equal to it. */
  function Sort(entries: seq<Entry>): seq<Entry> {
    if entries == [] then [] else Insert(entries[0], Sort(entries[1..]))
  }

  /** The entries of one document, in the order in which they were fetched. */
  function Of(entries: seq<Entry>, documentId: string): seq<Entry> {
    if entries == [] then []
    else
      var last := entries[|entries| - 1];
      Of(entries[..|entries| - 1], documentId) + if last.documentId == documentId then [last] else []
  }

  ghost predicate Grouped(groups: map<string, seq<Entry>>, entries: seq<Entry>) {
    && (forall d :: d in groups <==> exists e :: e in entries && e.documentId == d)
    && (forall d :: d in groups ==> groups[d] == Of(entries, d))
  }

  method GroupByDocument(entries: seq<Entry>) returns (groups: map<string, seq<Entry>>)
    ensures Grouped(groups, entries)
  {
    groups := map[];
    for i := 0 to |entries|
      invariant Grouped(groups, entries[..i])
    {
      var d := entries[i].documentId;
      GroupOneMore(groups, entries, i);
      groups := groups[d := (if d in groups then groups[d] else []) + [entries[i]]];
    }
    assert entries[..|entries|] == entries;
  }

  /** The map is visited once per key, in any order. */
  ghost predicate Visits(order: seq<string>, entries: seq<Entry>) {
    && (forall d :: d in order <==> exists e :: e in entries && e.documentId == d)
    && (forall i, j :: 0 <= i < j < |order| ==> order[i] != order[j])
  }

  function Ids(entries: seq<Entry>): seq<string> {
    seq(|entries|, i requires 0 <= i < |entries| => entries[i].id)
  }

  function Reported(entries: seq<Entry>, documentId: string): seq<Group> {
    var sorted := Sort(Of(entries, documentId));
    if |sorted| <= 1 then []
    else [Group(documentId, sorted[0].published, sorted[0].id, Ids(sorted[1..]))]
  }

  function Report(entries: seq<Entry>, order: seq<string>): seq<Group> {
    if order == [] then []
    else Report(entries, order[..|order| - 1]) + Reported(entries, order[|order| - 1])
  }

  method FindDuplicates(entries: seq<Entry>, order: seq<string>) returns (duplicateGroups: seq<Group>)
    requires Visits(order, entries)
    ensures duplicateGroups == Report(entries, order)
  {
    var groups := GroupByDocument(entries);
    duplicateGroups := [];
    for i := 0 to |order|
      invariant duplicateGroups == Report(entries, order[..i])
    {
      assert order[i] in order;
      assert order[..i + 1][..i] == order[..i];
      var group := groups[order[i]];
      SortKeepsEntries(group);
      if |group| > 1 {
        var sorted := Sort(group);
        var mostRecent := sorted[0];
        duplicateGroups :=
          duplicateGroups + [Group(order[i], mostRecent.published, mostRecent.id, Ids(sorted[1..]))];
      }
    }
    assert order[..|order|] == order;
  }

  function FlattenOne(group: Group): seq<DeleteEntry> {
    seq(|group.duplicates|, i requires 0 <= i < |group.duplicates| =>
      DeleteEntry(group.duplicates[i], group.documentId))
  }

  function Flatten(groups: seq<Group>): seq<DeleteEntry> {
    if groups == [] then [] else Flatten(groups[..|groups| - 1]) + FlattenOne(groups[|groups| - 1])
  }

  /** What is left of the entries once every listed id is deleted. */
  function Remaining(entries: seq<Entry>, deleted: seq<DeleteEntry>): seq<Entry> {
    if entries == [] then []
    else
      var last := entries[|entries| - 1];
      Remaining(entries[..|entries| - 1], deleted) + if Listed(deleted, last.id) then [] else [last]
  }

  predicate Listed(deleted: seq<DeleteEntry>, id: string) {
    exists i :: 0 <= i < |deleted| && deleted[i].id == id
  }

  // ---------------------------------------------------------------------------------------------
  // Grouping and sorting.

  lemma OfLast(entries: seq<Entry>, i: nat, d: string)
    requires i < |entries|
    ensures Of(entries[..i + 1], d) == Of(entries[..i], d) + if entries[i].documentId == d then [entries[i]] else []
  {
    assert entries[..i + 1][..i] == entries[..i];
  }

  lemma GroupOneMore(groups: map<string, seq<Entry>>, entries: seq<Entry>, i: nat)
    requires i < |entries| && Grouped(groups, entries[..i])
    ensures var d := entries[i].documentId;
      Grouped(groups[d := (if d in groups then groups[d] else []) + [entries[i]]], entries[..i + 1])
  {
    var doc := entries[i].documentId;
    var more := groups[doc := (if doc in groups then groups[doc] else []) + [entries[i]]];
    assert entries[..i + 1] == entries[..i] + [entries[i]];
    if doc !in groups {
      NoneOf(entries[..i], doc);
    }
    forall d | d in more ensures more[d] == Of(entries[..i + 1], d) {
      OfLast(entries, i, d);
    }
    forall d ensures d in more <==> exists e :: e in entries[..i + 1] && e.documentId == d {
      if d == doc {
        assert entries[i] in entries[..i + 1];
      }
    }
  }

  lemma {:induction false} NoneOf(entries: seq<Entry>, d: string)
    requires forall e :: e in entries ==> e.documentId != d
    ensures Of(entries, d) == []
  {
    if entries != [] {
      NoneOf(entries[..|entries| - 1], d);
    }
  }

  lemma {:induction false} InsertKeepsEntries(e: Entry, sorted: seq<Entry>)
    ensures multiset(Insert(e, sorted)) == multiset(sorted) + multiset{e}
    ensures |Insert(e, sorted)| == |sorted| + 1
  {
    if sorted == [] || !Before(sorted[0], e) {
    } else {
      InsertKeepsEntries(e, sorted[1..]);
      assert sorted == [sorted[0]] + sorted[1..];
    }
  }

  lemma {:induction false} SortKeepsEntries(entries: seq<Entry>)
    ensures multiset(Sort(entries)) == multiset(entries)
    ensures |Sort(entries)| == |entries|
  {
    if entries != [] {
      SortKeepsEntries(entries[1..]);
      InsertKeepsEntries(entries[0], Sort(entries[1..]));
      assert entries == [entries[0]] + entries[1..];
    }
  }

  /** The comparator orders entries by date up to ties. */
  lemma BeforeIsAnOrder(a: Entry, b: Entry, c: Entry)
    ensures Before(a, b) ==> !Before(b, a)
    ensures !Before(a, b) && !Before(b, c) ==> !Before(a, c)
    ensures !Before(a, b) && !Before(b, a) <==> a.published == b.published
  {
    if a.published.Some? && b.published.Some? {
      LessIsStrict(a.published.value, b.published.value);
      if c.published.Some? {
        LessIsStrict(b.published.value, c.published.value);
        if Less(c.published.value, a.published.value) && Less(a.published.value, b.published.value) {
          LessIsTransitive(c.published.value, a.published.value, b.published.value);
        }
      }
    }
  }

  predicate Ordered(s: seq<Entry>) {
    forall i, j :: 0 <= i < j < |s| ==> !Before(s[j], s[i])
  }

  lemma {:induction false} InsertOrders(e: Entry, sorted: seq<Entry>)
    requires Ordered(sorted)
    ensures Ordered(Insert(e, sorted))
  {
    if sorted == [] {
    } else if !Before(sorted[0], e) {
      forall j | 0 <= j < |sorted| ensures !Before(sorted[j], e) {
        BeforeIsAnOrder(sorted[j], sorted[0], e);
      }
    } else {
      InsertOrders(e, sorted[1..]);
      InsertKeepsEntries(e, sorted[1..]);
      var rest := Insert(e, sorted[1..]);
      forall j | 0 <= j < |rest| ensures !Before(rest[j], sorted[0]) {
        assert rest[j] in multiset(rest);
        assert rest[j] == e || rest[j] in sorted[1..];
        BeforeIsAnOrder(sorted[0], e, e);
      }
    }
  }

  /** The entries published at one time, in order. */
  function Tied(s: seq<Entry>, published: Option<string>): seq<Entry> {
    if s == [] then []
    else (if s[0].published == published then [s[0]] else []) + Tied(s[1..], published)
  }

  lemma {:induction false} InsertKeepsTies(e: Entry, sorted: seq<Entry>, published: Option<string>)
    ensures Tied(Insert(e, sorted), published) == Tied([e] + sorted, published)
  {
    assert ([e] + sorted)[1..] == sorted;
    if sorted != [] && Before(sorted[0], e) {
      InsertKeepsTies(e, sorted[1..], published);
      assert ([e] + sorted[1..])[1..] == sorted[1..];
      BeforeIsAnOrder(sorted[0], e, e);
    }
  }

  /** The sort puts entries in order, loses none, and leaves ties as they were. */
  lemma {:induction false} SortIsAStableSort(entries: seq<Entry>, published: Option<string>)
    ensures Ordered(Sort(entries))
    ensures multiset(Sort(entries)) == multiset(entries)
    ensures Tied(Sort(entries), published) == Tied(entries, published)
  {
    SortKeepsEntries(entries);
    if entries != [] {
      SortIsAStableSort(entries[1..], published);
      InsertOrders(entries[0], Sort(entries[1..]));
      InsertKeepsTies(entries[0], Sort(entries[1..]), published);
      assert ([entries[0]] + Sort(entries[1..]))[1..] == Sort(entries[1..]);
    }
  }

  // ---------------------------------------------------------------------------------------------
  // Which entry is kept.

  predicate HasDocument(entries: seq<Entry>, d: string) {
    exists e :: e in entries && e.documentId == d
  }

  lemma {:induction false} OfMembers(entries: seq<Entry>, d: string, e: Entry)
    ensures e in Of(entries, d) <==> e in entries && e.documentId == d
  {
    if entries != [] {
      OfMembers(entries[..|entries| - 1], d, e);
      assert entries == entries[..|entries| - 1] + [entries[|entries| - 1]];
    }
  }

  lemma GroupIsNotEmpty(entries: seq<Entry>, d: string)
    requires HasDocument(entries, d)
    ensures Of(entries, d) != [] && |Sort(Of(entries, d))| == |Of(entries, d)|
  {
    var e :| e in entries && e.documentId == d;
    OfMembers(entries, d, e);
    SortKeepsEntries(Of(entries, d));
  }

  ghost function Kept(entries: seq<Entry>, d: string): (kept: Entry)
    requires HasDocument(entries, d)
  {
    GroupIsNotEmpty(entries, d);
    Sort(Of(entries, d))[0]
  }

  /** Entry `k` is the first undated one of the group or, if there is none, the first of the latest date. */
  predicate IsChoice(group: seq<Entry>, k: nat)
    requires k < |group|
  {
    if AllDated(group) then
      && (forall j :: 0 <= j < |group| ==> !Less(group[k].published.value, group[j].published.value))
      && (forall j :: 0 <= j < k ==> group[j].published != group[k].published)
    else
      group[k].published == None && forall j :: 0 <= j < k ==> group[j].published.Some?
  }

  lemma {:induction false} TiedHead(s: seq<Entry>, p: Option<string>) returns (k: nat)
    requires exists e :: e in s && e.published == p
    ensures k < |s| && s[k].published == p && forall j :: 0 <= j < k ==> s[j].published != p
    ensures Tied(s, p) != [] && Tied(s, p)[0] == s[k]
  {
    if s[0].published == p {
      k := 0;
    } else {
      assert s == [s[0]] + s[1..];
      k := TiedHead(s[1..], p);
      k := k + 1;
    }
  }

  lemma SortedMembers(group: seq<Entry>, e: Entry)
    ensures e in Sort(group) <==> e in group
  {
    SortKeepsEntries(group);
    assert e in multiset(Sort(group)) <==> e in multiset(group);
  }

  /** What the sort puts first, in terms of the group alone. */
  lemma FirstSorted(group: seq<Entry>) returns (k: nat)
    requires group != []
    ensures Sort(group) != [] && k < |group| && IsChoice(group, k) && group[k] == Sort(group)[0]
  {
    SortKeepsEntries(group);
    var first := Sort(group)[0];
    SortIsAStableSort(group, first.published);
    SortedMembers(group, first);
    k := TiedHead(group, first.published);
    assert Tied(Sort(group), first.published)[0] == first;
    forall j | 0 <= j < |group| ensures !Before(group[j], first) {
      SortedMembers(group, group[j]);
      var l :| 0 <= l < |Sort(group)| && Sort(group)[l] == group[j];
      BeforeIsAnOrder(first, first, first);
    }
  }

  lemma OneChoice(group: seq<Entry>, j: nat, k: nat)
    requires j < |group| && k < |group| && IsChoice(group, j) && IsChoice(group, k)
    ensures j == k
  {
    if AllDated(group) {
      LessIsStrict(group[j].published.value, group[k].published.value);
    }
  }

  /** The entry kept is the choice of the group; there is exactly one. */
  lemma KeptIsChoice(entries: seq<Entry>, d: string, k: nat)
    requires HasDocument(entries, d) && k < |Of(entries, d)|
    ensures IsChoice(Of(entries, d), k) ==> Of(entries, d)[k] == Kept(entries, d)
    ensures exists j :: 0 <= j < |Of(entries, d)| && IsChoice(Of(entries, d), j)
  {
    GroupIsNotEmpty(entries, d);
    var j := FirstSorted(Of(entries, d));
    if IsChoice(Of(entries, d), k) {
      OneChoice(Of(entries, d), j, k);
    }
  }

  predicate AllDated(group: seq<Entry>) {
    forall e :: e in group ==> e.published.Some?
  }

  predicate IsLatest(e: Entry, group: seq<Entry>) {
    e.published.Some? && forall f :: f in group && f.published.Some? ==> !Less(e.published.value, f.published.value)
  }

  /** The entry kept is the most recent one exactly when no entry of the document lacks a date. */
  lemma KeptIsLatest(entries: seq<Entry>, d: string)
    requires HasDocument(entries, d)
    ensures Kept(entries, d) in entries && Kept(entries, d).documentId == d
    ensures IsLatest(Kept(entries, d), Of(entries, d)) <==> AllDated(Of(entries, d))
  {
    var group, kept := Of(entries, d), Kept(entries, d);
    GroupIsNotEmpty(entries, d);
    SortIsAStableSort(group, None);
    assert kept in multiset(Sort(group));
    OfMembers(entries, d, kept);
    forall f | f in group ensures !Before(f, kept) {
      assert f in multiset(Sort(group));
      var j :| 0 <= j < |Sort(group)| && Sort(group)[j] == f;
      BeforeIsAnOrder(f, f, f);
    }
  }

  // ---------------------------------------------------------------------------------------------
  // Which ids are listed for deletion.

  function Times(s: seq<Entry>, id: string): nat {
    if s == [] then 0 else (if s[0].id == id then 1 else 0) + Times(s[1..], id)
  }

  lemma {:induction false} InsertTimes(e: Entry, sorted: seq<Entry>, id: string)
    ensures Times(Insert(e, sorted), id) == Times(sorted, id) + if e.id == id then 1 else 0
  {
    assert ([e] + sorted)[1..] == sorted;
    if sorted != [] && Before(sorted[0], e) {
      InsertTimes(e, sorted[1..], id);
    }
  }

  lemma {:induction false} SortTimes(entries: seq<Entry>, id: string)
    ensures Times(Sort(entries), id) == Times(entries, id)
  {
    if entries != [] {
      SortTimes(entries[1..], id);
      InsertTimes(entries[0], Sort(entries[1..]), id);
    }
  }

  lemma {:induction false} TimesIsPositive(s: seq<Entry>, id: string)
    ensures Times(s, id) > 0 <==> id in Ids(s)
  {
    if s != [] {
      TimesIsPositive(s[1..], id);
      assert Ids(s) == [s[0].id] + Ids(s[1..]);
    }
  }

  /** Apart from the entry kept, the document has an entry with this id. */
  ghost predicate Discards(entries: seq<Entry>, d: string, id: string)
    requires HasDocument(entries, d)
  {
    Times(Of(entries, d), id) != if Kept(entries, d).id == id then 1 else 0
  }

  lemma ReportedIds(entries: seq<Entry>, d: string, id: string)
    requires HasDocument(entries, d)
    ensures Discards(entries, d, id)
      <==> exists g, i :: g in Reported(entries, d) && 0 <= i < |g.duplicates| && g.duplicates[i] == id
  {
    GroupIsNotEmpty(entries, d);
    var sorted := Sort(Of(entries, d));
    SortTimes(Of(entries, d), id);
    TimesIsPositive(sorted[1..], id);
    if Discards(entries, d, id) {
      assert id in Ids(sorted[1..]);
      var g := Reported(entries, d)[0];
      assert g in Reported(entries, d);
      assert id in g.duplicates;
    }
  }

  lemma {:induction false} ListedInFlatten(groups: seq<Group>, id: string)
    ensures Listed(Flatten(groups), id)
      <==> exists g, i :: g in groups && 0 <= i < |g.duplicates| && g.duplicates[i] == id
  {
    if groups != [] {
      var last := |groups| - 1;
      ListedInFlatten(groups[..last], id);
      ListedInAppend(Flatten(groups[..last]), FlattenOne(groups[last]), id);
      assert groups == groups[..last] + [groups[last]];
      forall i | 0 <= i < |groups[last].duplicates| && groups[last].duplicates[i] == id
        ensures Listed(FlattenOne(groups[last]), id)
      {
        assert FlattenOne(groups[last])[i].id == id;
      }
    }
  }

  lemma ListedInAppend(a: seq<DeleteEntry>, b: seq<DeleteEntry>, id: string)
    ensures Listed(a + b, id) <==> Listed(a, id) || Listed(b, id)
  {
    forall i | 0 <= i < |a| && a[i].id == id ensures Listed(a + b, id) {
      assert (a + b)[i].id == id;
    }
    forall i | 0 <= i < |b| && b[i].id == id ensures Listed(a + b, id) {
      assert (a + b)[|a| + i].id == id;
    }
  }

  lemma {:induction false} ReportMembers(entries: seq<Entry>, order: seq<string>, g: Group)
    ensures g in Report(entries, order) <==> exists d :: d in order && g in Reported(entries, d)
  {
    if order != [] {
      ReportMembers(entries, order[..|order| - 1], g);
      assert order == order[..|order| - 1] + [order[|order| - 1]];
    }
  }

  /** An id is listed for deletion exactly when some document has it on an entry it does not keep. */
  lemma ListedIds(entries: seq<Entry>, order: seq<string>, id: string)
    requires Visits(order, entries)
    ensures Listed(Flatten(Report(entries, order)), id)
      <==> exists d :: d in order && HasDocument(entries, d) && Discards(entries, d, id)
  {
    var groups := Report(entries, order);
    ListedInFlatten(groups, id);
    if Listed(Flatten(groups), id) {
      var g, i :| g in groups && 0 <= i < |g.duplicates| && g.duplicates[i] == id;
      ReportMembers(entries, order, g);
      var d :| d in order && g in Reported(entries, d);
      assert HasDocument(entries, d);
      ReportedIds(entries, d, id);
    }
    if d :| d in order && HasDocument(entries, d) && Discards(entries, d, id) {
      ReportedIds(entries, d, id);
      var g, i :| g in Reported(entries, d) && 0 <= i < |g.duplicates| && g.duplicates[i] == id;
      ReportMembers(entries, order, g);
    }
  }

  lemma {:induction false} InFlatten(groups: seq<Group>, e: DeleteEntry)
    ensures e in Flatten(groups) <==> exists g :: g in groups && g.documentId == e.identifier && e.id in g.duplicates
  {
    if groups != [] {
      var last := groups[|groups| - 1];
      InFlatten(groups[..|groups| - 1], e);
      assert groups == groups[..|groups| - 1] + [last];
      if e.id in last.duplicates && last.documentId == e.identifier {
        var i :| 0 <= i < |last.duplicates| && last.duplicates[i] == e.id;
        assert FlattenOne(last)[i] == e;
      }
      if e in FlattenOne(last) {
        var i :| 0 <= i < |FlattenOne(last)| && FlattenOne(last)[i] == e;
        assert last.duplicates[i] == e.id;
      }
    }
  }

  /** An entry is listed with the document it is a duplicate of. */
  lemma ListedEntries(entries: seq<Entry>, order: seq<string>, id: string, d: string)
    requires Visits(order, entries)
    ensures DeleteEntry(id, d) in Flatten(Report(entries, order))
       <==> d in order && HasDocument(entries, d) && Discards(entries, d, id)
  {
    var groups := Report(entries, order);
    InFlatten(groups, DeleteEntry(id, d));
    if g :| g in groups && g.documentId == d && id in g.duplicates {
      ReportMembers(entries, order, g);
      assert HasDocument(entries, d);
      ReportedIds(entries, d, id);
    }
    if d in order && HasDocument(entries, d) && Discards(entries, d, id) {
      ReportedIds(entries, d, id);
      var g, i :| g in Reported(entries, d) && 0 <= i < |g.duplicates| && g.duplicates[i] == id;
      ReportMembers(entries, order, g);
    }
  }

  /** A group is reported for each document with two entries or more, under the entry it keeps. */
  lemma GroupsReported(entries: seq<Entry>, order: seq<string>, g: Group)
    requires Visits(order, entries)
    ensures g in Report(entries, order) ==>
      && HasDocument(entries, g.documentId) && |Of(entries, g.documentId)| == 1 + |g.duplicates| >= 2
      && g.id == Kept(entries, g.documentId).id && g.published == Kept(entries, g.documentId).published
    ensures forall d :: HasDocument(entries, d) && |Of(entries, d)| >= 2 ==>
      exists h :: h in Report(entries, order) && h.documentId == d
  {
    ReportMembers(entries, order, g);
    if g in Report(entries, order) {
      assert HasDocument(entries, g.documentId);
      SortKeepsEntries(Of(entries, g.documentId));
    }
    forall d | HasDocument(entries, d) && |Of(entries, d)| >= 2
      ensures exists h :: h in Report(entries, order) && h.documentId == d
    {
      SortKeepsEntries(Of(entries, d));
      var h := Reported(entries, d)[0];
      assert d in order && h in Reported(entries, d);
      ReportMembers(entries, order, h);
    }
  }

  // ---------------------------------------------------------------------------------------------
  // What survives the deletion.

  lemma {:induction false} RemainingOf(entries: seq<Entry>, deleted: seq<DeleteEntry>, d: string)
    ensures Of(Remaining(entries, deleted), d) == Remaining(Of(entries, d), deleted)
  {
    if entries != [] {
      var last := |entries| - 1;
      RemainingOf(entries[..last], deleted, d);
      OfSnoc(Remaining(entries[..last], deleted), entries[last], d);
      RemainingSnoc(Of(entries[..last], d), entries[last], deleted);
      assert Remaining(entries[..last], deleted) + [] == Remaining(entries[..last], deleted);
      assert Of(entries[..last], d) + [] == Of(entries[..last], d);
    }
  }

  lemma OfSnoc(s: seq<Entry>, e: Entry, d: string)
    ensures Of(s + [e], d) == Of(s, d) + if e.documentId == d then [e] else []
  {
    assert (s + [e])[..|s|] == s;
  }

  lemma RemainingSnoc(s: seq<Entry>, e: Entry, deleted: seq<DeleteEntry>)
    ensures Remaining(s + [e], deleted) == Remaining(s, deleted) + if Listed(deleted, e.id) then [] else [e]
  {
    assert (s + [e])[..|s|] == s;
  }

  lemma {:induction false} NothingRemains(s: seq<Entry>, deleted: seq<DeleteEntry>)
    requires forall e :: e in s ==> Listed(deleted, e.id)
    ensures Remaining(s, deleted) == []
  {
    if s != [] {
      NothingRemains(s[..|s| - 1], deleted);
    }
  }

  /** If only one place of `s` holds an id that is not listed, that entry alone remains. */
  lemma {:induction false} OneRemains(s: seq<Entry>, k: nat, deleted: seq<DeleteEntry>)
    requires k < |s| && !Listed(deleted, s[k].id)
    requires forall j :: 0 <= j < |s| && j != k ==> Listed(deleted, s[j].id)
    ensures Remaining(s, deleted) == [s[k]]
  {
    var last := |s| - 1;
    if k == last {
      NothingRemains(s[..last], deleted);
    } else {
      OneRemains(s[..last], k, deleted);
    }
  }

  lemma {:induction false} TimesAt(s: seq<Entry>, j: nat)
    requires j < |s|
    ensures Times(s, s[j].id) >= 1
    ensures forall k :: 0 <= k < |s| && k != j && s[k].id == s[j].id ==> Times(s, s[j].id) >= 2
  {
    if j == 0 {
      forall k | 0 < k < |s| && s[k].id == s[0].id ensures Times(s[1..], s[0].id) >= 1 {
        TimesAt(s[1..], k - 1);
      }
    } else {
      TimesAt(s[1..], j - 1);
      forall k | 0 <= k < |s| && k != j && s[k].id == s[j].id ensures Times(s, s[j].id) >= 2 {
        if k > 0 {
          assert s[1..][k - 1] == s[k];
        }
      }
    }
  }

  /** Every entry except the one kept has its id listed. */
  lemma OthersAreListed(entries: seq<Entry>, order: seq<string>, d: string, k: nat, j: nat)
    requires Visits(order, entries) && HasDocument(entries, d)
    requires k < |Of(entries, d)| && Of(entries, d)[k] == Kept(entries, d)
    requires j < |Of(entries, d)| && j != k
    ensures Listed(Flatten(Report(entries, order)), Of(entries, d)[j].id)
  {
    var id := Of(entries, d)[j].id;
    TimesAt(Of(entries, d), j);
    assert Discards(entries, d, id);
    ListedIds(entries, order, id);
  }

  lemma KeptAt(entries: seq<Entry>, d: string) returns (k: nat)
    requires HasDocument(entries, d)
    ensures k < |Of(entries, d)| && Of(entries, d)[k] == Kept(entries, d)
  {
    GroupIsNotEmpty(entries, d);
    SortedMembers(Of(entries, d), Kept(entries, d));
    k :| k < |Of(entries, d)| && Of(entries, d)[k] == Kept(entries, d);
  }

  lemma OneOrNothing(s: seq<Entry>, k: nat, deleted: seq<DeleteEntry>)
    requires k < |s| && forall j :: 0 <= j < |s| && j != k ==> Listed(deleted, s[j].id)
    ensures Remaining(s, deleted) == if Listed(deleted, s[k].id) then [] else [s[k]]
  {
    if Listed(deleted, s[k].id) {
      NothingRemains(s, deleted);
    } else {
      OneRemains(s, k, deleted);
    }
  }

  /**
   * After the deletion a document has the entry kept, or nothing at all when some document has the
   * id of that entry on an entry it does not keep.
   */
  lemma AtMostTheKeptSurvives(entries: seq<Entry>, order: seq<string>, d: string)
    requires Visits(order, entries) && HasDocument(entries, d)
    ensures var left := Of(Remaining(entries, Flatten(Report(entries, order))), d);
      left == if exists e :: e in order && HasDocument(entries, e) && Discards(entries, e, Kept(entries, d).id)
              then [] else [Kept(entries, d)]
  {
    var deleted := Flatten(Report(entries, order));
    var group, kept := Of(entries, d), Kept(entries, d);
    var k := KeptAt(entries, d);
    forall j | 0 <= j < |group| && j != k ensures Listed(deleted, group[j].id) {
      OthersAreListed(entries, order, d, k, j);
    }
    RemainingOf(entries, deleted, d);
    ListedIds(entries, order, kept.id);
    OneOrNothing(group, k, deleted);
  }

  predicate DistinctIds(entries: seq<Entry>) {
    forall i, j :: 0 <= i < j < |entries| ==> entries[i].id != entries[j].id
  }

  lemma {:induction false} DistinctTimes(entries: seq<Entry>, id: string)
    requires DistinctIds(entries)
    ensures Times(entries, id) <= 1
  {
    if entries != [] {
      DistinctTimes(entries[1..], id);
      TimesIsPositive(entries[1..], id);
      assert forall j :: 0 <= j < |entries[1..]| ==> entries[1..][j] == entries[j + 1];
    }
  }

  lemma {:induction false} TimesSnoc(s: seq<Entry>, e: Entry, id: string)
    ensures Times(s + [e], id) == Times(s, id) + if e.id == id then 1 else 0
  {
    if s == [] {
      assert s + [e] == [e];
    } else {
      TimesSnoc(s[1..], e, id);
      assert (s + [e])[1..] == s[1..] + [e];
    }
  }

  lemma {:induction false} OfTimes(entries: seq<Entry>, d: string, id: string)
    ensures Times(Of(entries, d), id) <= Times(entries, id)
  {
    if entries != [] {
      var last := |entries| - 1;
      OfTimes(entries[..last], d, id);
      TimesSnoc(entries[..last], entries[last], id);
      TimesSnoc(Of(entries[..last], d), entries[last], id);
      assert Of(entries[..last], d) + [] == Of(entries[..last], d);
      assert entries == entries[..last] + [entries[last]];
    }
  }

  lemma NoOtherDocument(entries: seq<Entry>, d: string, e: string)
    requires DistinctIds(entries) && HasDocument(entries, d) && HasDocument(entries, e)
    ensures !Discards(entries, e, Kept(entries, d).id)
  {
    var id := Kept(entries, d).id;
    KeptIsLatest(entries, d);
    KeptIsLatest(entries, e);
    DistinctTimes(entries, id);
    OfTimes(entries, e, id);
    TimesIsPositive(Of(entries, e), id);
    if Times(Of(entries, e), id) > 0 {
      var j :| 0 <= j < |Of(entries, e)| && Of(entries, e)[j].id == id;
      OfMembers(entries, e, Of(entries, e)[j]);
      assert Of(entries, e)[j] == Kept(entries, d);
    } else {
      OfMembers(entries, e, Kept(entries, e));
      assert Kept(entries, e) in Of(entries, e);
      var j :| 0 <= j < |Of(entries, e)| && Of(entries, e)[j] == Kept(entries, e);
      assert Ids(Of(entries, e))[j] == Kept(entries, e).id;
    }
  }

  /** When no SBOM was fetched twice, every document keeps exactly one SBOM. */
  lemma EveryDocumentKeepsOne(entries: seq<Entry>, order: seq<string>, d: string)
    requires Visits(order, entries) && HasDocument(entries, d) && DistinctIds(entries)
    ensures Of(Remaining(entries, Flatten(Report(entries, order))), d) == [Kept(entries, d)]
  {
    AtMostTheKeptSurvives(entries, order, d);
    forall e | e in order && HasDocument(entries, e) ensures !Discards(entries, e, Kept(entries, d).id) {
      NoOtherDocument(entries, d, e);
    }
  }

  ghost predicate OneDocumentPerId(entries: seq<Entry>) {
    forall e, f :: e in entries && f in entries && e.id == f.id ==> e.documentId == f.documentId
  }

  lemma NotInOtherDocument(entries: seq<Entry>, d: string, e: string)
    requires OneDocumentPerId(entries) && HasDocument(entries, d) && HasDocument(entries, e) && d != e
    ensures !Discards(entries, e, Kept(entries, d).id)
  {
    var id := Kept(entries, d).id;
    KeptIsLatest(entries, d);
    KeptIsLatest(entries, e);
    TimesIsPositive(Of(entries, e), id);
    if id in Ids(Of(entries, e)) {
      var j :| 0 <= j < |Of(entries, e)| && Of(entries, e)[j].id == id;
      OfMembers(entries, e, Of(entries, e)[j]);
    }
  }

  lemma LostIfKeptTwice(entries: seq<Entry>, order: seq<string>, d: string)
    requires Visits(order, entries) && HasDocument(entries, d) && OneDocumentPerId(entries)
    ensures Of(Remaining(entries, Flatten(Report(entries, order))), d) == []
       <==> Times(Of(entries, d), Kept(entries, d).id) >= 2
  {
    AtMostTheKeptSurvives(entries, order, d);
    KeptIsLatest(entries, d);
    OfMembers(entries, d, Kept(entries, d));
    var k :| 0 <= k < |Of(entries, d)| && Of(entries, d)[k] == Kept(entries, d);
    TimesAt(Of(entries, d), k);
    forall e | e in order && HasDocument(entries, e) && Discards(entries, e, Kept(entries, d).id) ensures e == d {
      if e != d {
        NotInOtherDocument(entries, d, e);
      }
    }
  }

  /**
   * A document loses its last SBOM exactly when the first undated entry fetched for it, or the first
   * of the latest date if all are dated, was fetched more than once.
   */
  lemma LostIfFetchedTwice(entries: seq<Entry>, order: seq<string>, d: string)
    requires Visits(order, entries) && HasDocument(entries, d) && OneDocumentPerId(entries)
    ensures var group := Of(entries, d);
      Of(Remaining(entries, Flatten(Report(entries, order))), d) == []
      <==> exists k :: 0 <= k < |group| && IsChoice(group, k) && Times(group, group[k].id) >= 2
  {
    var group := Of(entries, d);
    LostIfKeptTwice(entries, order, d);
    GroupIsNotEmpty(entries, d);
    KeptIsChoice(entries, d, 0);
    forall k | 0 <= k < |group| && IsChoice(group, k) ensures group[k] == Kept(entries, d) {
      KeptIsChoice(entries, d, k);
    }
  }

  // ---------------------------------------------------------------------------------------------
  // Two entries that do not fare as one would expect.

  lemma PairOf(a: Entry, b: Entry)
    requires a.documentId == b.documentId
    ensures Of([a, b], a.documentId) == [a, b]
    ensures HasDocument([a, b], a.documentId) && Visits([a.documentId], [a, b])
  {
    var d := a.documentId;
    OfSnoc([], a, d);
    OfSnoc([a], b, d);
    assert [] + [a] == [a] && [a] + [b] == [a, b];
    assert a in [a, b] && d in [d];
  }

  /** Of a dated and an undated SBOM of one document the dated one is deleted. */
  lemma DatedIsDeleted(dated: Entry, undated: Entry)
    requires dated.documentId == undated.documentId && dated.id != undated.id
    requires dated.published.Some? && undated.published == None
    ensures var d, entries := dated.documentId, [dated, undated];
      Of(Remaining(entries, Flatten(Report(entries, [d]))), d) == [undated]
  {
    var d, entries := dated.documentId, [dated, undated];
    PairOf(dated, undated);
    assert undated in entries;
    assert IsChoice(Of(entries, d), 1);
    KeptIsChoice(entries, d, 1);
    EveryDocumentKeepsOne(entries, [d], d);
  }

  /** An SBOM that the pages delivered twice is deleted altogether. */
  lemma DeliveredTwiceIsDeleted(e: Entry)
    ensures Of(Remaining([e, e], Flatten(Report([e, e], [e.documentId]))), e.documentId) == []
  {
    var d, entries := e.documentId, [e, e];
    PairOf(e, e);
    KeptIsLatest(entries, d);
    TimesAt(Of(entries, d), 0);
    LostIfKeptTwice(entries, [d], d);
  }

  // ---------------------------------------------------------------------------------------------
  // How many are deleted.

  function GroupSizes(entries: seq<Entry>, order: seq<string>): nat {
    if order == [] then 0 else GroupSizes(entries, order[..|order| - 1]) + |Of(entries, order[|order| - 1])|
  }

  lemma {:induction false} SizesSnoc(s: seq<Entry>, e: Entry, order: seq<string>)
    requires forall i, j :: 0 <= i < j < |order| ==> order[i] != order[j]
    ensures GroupSizes(s + [e], order) == GroupSizes(s, order) + if e.documentId in order then 1 else 0
  {
    if order != [] {
      var last := |order| - 1;
      SizesSnoc(s, e, order[..last]);
      OfSnoc(s, e, order[last]);
      assert order == order[..last] + [order[last]];
    }
  }

  lemma {:induction false} SizesAddUp(entries: seq<Entry>, order: seq<string>)
    requires forall i, j :: 0 <= i < j < |order| ==> order[i] != order[j]
    requires forall e :: e in entries ==> e.documentId in order
    ensures GroupSizes(entries, order) == |entries|
  {
    if entries == [] {
      NoSizes(order);
    } else {
      var last := |entries| - 1;
      SizesAddUp(entries[..last], order);
      SizesSnoc(entries[..last], entries[last], order);
      assert entries == entries[..last] + [entries[last]];
    }
  }

  lemma {:induction false} NoSizes(order: seq<string>)
    ensures GroupSizes([], order) == 0
  {
    if order != [] {
      NoSizes(order[..|order| - 1]);
    }
  }

  lemma FlattenSnoc(groups: seq<Group>, last: Group)
    ensures Flatten(groups + [last]) == Flatten(groups) + FlattenOne(last)
  {
    assert (groups + [last])[..|groups|] == groups;
  }

  lemma DeletedOf(entries: seq<Entry>, groups: seq<Group>, d: string)
    requires HasDocument(entries, d)
    ensures |Flatten(groups + Reported(entries, d))| == |Flatten(groups)| + |Of(entries, d)| - 1
  {
    GroupIsNotEmpty(entries, d);
    if |Of(entries, d)| == 1 {
      assert groups + [] == groups;
    } else {
      FlattenSnoc(groups, Reported(entries, d)[0]);
    }
  }

  lemma {:induction false} DeletedUpTo(entries: seq<Entry>, order: seq<string>)
    requires forall d :: d in order ==> HasDocument(entries, d)
    ensures |Flatten(Report(entries, order))| + |order| == GroupSizes(entries, order)
  {
    if order != [] {
      var last := |order| - 1;
      DeletedUpTo(entries, order[..last]);
      assert order[last] in order;
      DeletedOf(entries, Report(entries, order[..last]), order[last]);
    }
  }

  /** The listed deletions and the documents together are as many as the entries fetched. */
  lemma OneLessPerDocument(entries: seq<Entry>, order: seq<string>)
    requires Visits(order, entries)
    ensures |Flatten(Report(entries, order))| + |order| == |entries|
  {
    forall d | d in order ensures HasDocument(entries, d) {
    }
    DeletedUpTo(entries, order);
    SizesAddUp(entries, order);
  }
}
