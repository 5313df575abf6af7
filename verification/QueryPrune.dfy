/** The query that selects what the command line prunes. */
module QueryPrune {
  import opened Results
  import opened Strings
  import opened Query
  import opened QueryCodec
  import opened QueryRoundTrip
  import opened QueryCompose

  /** The dates are the RFC 3339 texts the caller computes from its clock. */
  datatype PruneParams = PruneParams(
    q: Option<string>, limit: Option<nat>, publishedBefore: Option<string>, olderThan: Option<string>,
    labels: Option<seq<string>>, keepLatest: Option<nat>)

  datatype ListParams = ListParams(q: Option<string>, limit: Option<nat>, offset: Option<nat>, sort: Option<string>)

  function LabelOptions(labels: seq<string>): (r: seq<string>)
    ensures |r| == |labels|
    ensures forall i :: 0 <= i < |r| ==> r[i] == "labels:" + labels[i]
  {
    seq(|labels|, i requires 0 <= i < |labels| => "labels:" + labels[i])
  }

  /** The conditions the command line adds, in order. */
  function PruneOptions(p: PruneParams): seq<string> {
    (match p.publishedBefore case Some(d) => ["published<" + d] case None => [])
    + (match p.olderThan case Some(d) => ["ingested<" + d] case None => [])
    + (match p.labels case Some(ls) => LabelOptions(ls) case None => [])
  }

  function Base(p: PruneParams): string {
    match p.q case Some(q) => q case None => ""
  }

  /** Each condition goes to the end, after an `&`. */
  function Narrow(q: string, options: seq<string>): string
    decreases options
  {
    if options == [] then q else Narrow(q + "&" + options[0], options[1..])
  }

  lemma {:induction false} NarrowAppend(q: string, a: seq<string>, b: seq<string>)
    ensures Narrow(q, a + b) == Narrow(Narrow(q, a), b)
    decreases a
  {
    if a == [] {
      assert a + b == b;
    } else {
      assert (a + b)[1..] == a[1..] + b;
      NarrowAppend(q + "&" + a[0], a[1..], b);
    }
  }

  method BuildPruneQuery(p: PruneParams) returns (query: string, list: ListParams)
    ensures query == Narrow(Base(p), PruneOptions(p))
    ensures list.q == Some(query) && list.limit == p.limit
    ensures list.offset == p.keepLatest
    ensures list.sort == if p.keepLatest.Some? then Some("ingested:desc") else None
  {
    query := Base(p);
    ghost var done: seq<string> := [];
    if p.publishedBefore.Some? {
      var option := "published<" + p.publishedBefore.value;
      NarrowAppend(Base(p), done, [option]);
      done := done + [option];
      query := query + "&" + option;
    }
    if p.olderThan.Some? {
      var option := "ingested<" + p.olderThan.value;
      NarrowAppend(Base(p), done, [option]);
      done := done + [option];
      query := query + "&" + option;
    }
    if p.labels.Some? {
      var labels := p.labels.value;
      ghost var options := LabelOptions(labels);
      for i := 0 to |labels|
        invariant query == Narrow(Base(p), done + options[..i])
      {
        NarrowAppend(Base(p), done + options[..i], [options[i]]);
        assert done + options[..i + 1] == done + options[..i] + [options[i]];
        query := query + "&" + ("labels:" + labels[i]);
      }
      assert options[..|labels|] == options;
      done := done + options;
    }
    assert done == PruneOptions(p);
    list := ListParams(Some(query), p.limit, p.keepLatest, if p.keepLatest.Some? then Some("ingested:desc") else None);
  }

  /** The option is one piece of query text: no separator of its own, no dangling backslash. */
  predicate OnePiece(option: string) {
    option != "" && Unescaped(option, '&') == 0 && !EndsWith(option, '\\')
  }

  lemma OnePieceIsComposable(option: string)
    requires OnePiece(option)
    ensures Composable(option) && |Parse(option)| == 1
  {
    ParseLength(option);
    if EndsWith(option, '&') {
      var init := option[..|option| - 1];
      assert option == init + "&";
      UnescapedAppend(init, "&", '&');
    }
  }

  function ParseEach(options: seq<string>): seq<Constraint> {
    if options == [] then [] else Parse(options[0]) + ParseEach(options[1..])
  }

  /** An empty text, or one that ends in `&`, has an empty piece before the next `&`. */
  function Gap(q: string): seq<Constraint> {
    if Terminated(q) then [FullText([""])] else []
  }

  /** One more option: what is parsed, and how the text goes on. */
  lemma OneOption(q: string, o: string)
    requires !EndsWith(q, '\\')
    ensures Parse(q + "&" + o) == Parse(q) + Gap(q) + Parse(o)
    ensures Terminated(q + "&" + o) <==> Terminated(o)
    ensures EndsWith(q + "&" + o, '\\') <==> EndsWith(o, '\\')
  {
    if o == "" {
      var s := q + "&" + o;
      assert s[|s| - 1] == '&' && (q != "" ==> s[|s| - 2] == q[|q| - 1]);
    } else {
      TerminatedTail(q, o);
    }
    if Terminated(q) {
      ParseOfConcat(q, o);
      TerminatedPieces(q);
    } else {
      ComposableParses(q, o);
      assert Parse(q) + [] == Parse(q);
    }
  }

  lemma {:induction false} OneEach(options: seq<string>)
    requires forall o :: o in options ==> OnePiece(o)
    ensures |ParseEach(options)| == |options|
  {
    if options != [] {
      OnePieceIsComposable(options[0]);
      OneEach(options[1..]);
    }
  }

  lemma {:induction false} ComposableNarrow(q: string, options: seq<string>)
    requires Composable(q) && forall o :: o in options ==> OnePiece(o)
    ensures Parse(Narrow(q, options)) == Parse(q) + ParseEach(options)
    decreases options
  {
    if options != [] {
      var next := q + "&" + options[0];
      OneOption(q, options[0]);
      OnePieceIsComposable(options[0]);
      ComposableNarrow(next, options[1..]);
      Regroup(Parse(q), Parse(options[0]), ParseEach(options[1..]));
      assert Parse(q) + [] == Parse(q);
    }
  }

  /** The first option fixes what the query does to all of them. */
  lemma NarrowLength(q: string, options: seq<string>)
    requires options != [] && forall o :: o in options ==> OnePiece(o)
    ensures |Parse(Narrow(q, options))| == |Parse(q + "&" + options[0])| + |options| - 1
  {
    var next := q + "&" + options[0];
    OnePieceIsComposable(options[0]);
    TerminatedTail(q, options[0]);
    ComposableNarrow(next, options[1..]);
    OneEach(options[1..]);
  }

  /**
   * Options of one piece each add exactly one constraint, after those of the query itself, if and
   * only if the query is not empty, ends in no unescaped `&` and in no backslash.
   */
  lemma NarrowParses(q: string, options: seq<string>)
    requires forall o :: o in options ==> OnePiece(o)
    ensures |ParseEach(options)| == |options|
    ensures Parse(Narrow(q, options)) == Parse(q) + ParseEach(options) <==> options == [] || Composable(q)
    ensures |Parse(Narrow(q, options))| == |Parse(q)| + |options| <==> options == [] || Composable(q)
  {
    OneEach(options);
    if options == [] {
      assert Parse(q) + [] == Parse(q);
    } else if Composable(q) {
      ComposableNarrow(q, options);
    } else {
      NarrowLength(q, options);
      OnePieceIsComposable(options[0]);
      if EndsWith(q, '\\') {
        BackslashSwallowsOption(q, options[0]);
      } else {
        OneOption(q, options[0]);
      }
    }
  }

  lemma Regroup(a: seq<Constraint>, b: seq<Constraint>, c: seq<Constraint>)
    ensures a + b + c == a + (b + c)
  {
  }

  predicate ApplyEach(options: seq<string>, ctx: Context) {
    forall o :: o in options ==> Apply(o, ctx)
  }

  lemma ApplyEachCons(options: seq<string>, ctx: Context)
    requires options != []
    ensures ApplyEach(options, ctx) <==> Apply(options[0], ctx) && ApplyEach(options[1..], ctx)
  {
    assert options == [options[0]] + options[1..];
  }

  /** Some value of the context contains the empty string: what an empty full-text search asks for. */
  predicate MatchesEmptyText(ctx: Context) {
    exists i :: 0 <= i < |ctx.values| && ctx.values[i].like("")
  }

  lemma EmptyPieceIsEmptyText()
    ensures ParsePieces([""]) == [FullText([""])]
  {
    assert Split("", '|') == [""];
    DecodeIsOnePass("");
    assert ParsePiece("") == FullText([""]);
  }

  /** A terminated query has an empty piece after its last constraint. */
  lemma TerminatedPieces(q: string)
    requires Terminated(q)
    ensures ParsePieces(Split(Encode(q), '&')) == Parse(q) + [FullText([""])]
  {
    assert Ended(Encode(q)) by {
      EncodeIsOnePass(q);
      EncodeTerminated(q);
    }
    SplitLast(Encode(q), '&');
    var init := SplitTerminator(Encode(q), '&');
    assert Split(Encode(q), '&') == init + [""];
    ParsePiecesAppend(init, [""]);
    EmptyPieceIsEmptyText();
  }

  lemma EmptyTextHolds(ctx: Context)
    ensures HoldsAll([FullText([""])], ctx) <==> MatchesEmptyText(ctx)
  {
    assert HoldsAll([FullText([""])], ctx) <==> Holds(FullText([""]), ctx);
    assert forall v :: v in [""] <==> v == "";
  }

  lemma OneOptionMeans(q: string, o: string, ctx: Context)
    requires !EndsWith(q, '\\')
    ensures Apply(q + "&" + o, ctx) <==> Apply(q, ctx) && Apply(o, ctx) && (Terminated(q) ==> MatchesEmptyText(ctx))
  {
    OneOption(q, o);
    HoldsAllAppend(Parse(q) + Gap(q), Parse(o), ctx);
    HoldsAllAppend(Parse(q), Gap(q), ctx);
    EmptyTextHolds(ctx);
  }

  /** No text that an `&` will follow ends in a backslash. */
  predicate Separated(q: string, options: seq<string>) {
    options != [] ==> !EndsWith(q, '\\') && forall i :: 0 <= i < |options| - 1 ==> !EndsWith(options[i], '\\')
  }

  /** Some text that an `&` will follow is empty or ends in an unescaped `&`. */
  predicate HasGap(q: string, options: seq<string>) {
    options != [] && (Terminated(q) || exists i :: 0 <= i < |options| - 1 && Terminated(options[i]))
  }

  lemma GapCons(q: string, options: seq<string>)
    requires options != []
    ensures var o, rest := options[0], options[1..];
      && (HasGap(q, options) <==> Terminated(q) || HasGap(o, rest))
      && (Separated(q, options) <==> !EndsWith(q, '\\') && Separated(o, rest))
  {
    var o, rest := options[0], options[1..];
    assert forall i :: 0 <= i < |rest| ==> rest[i] == options[i + 1];
    if i :| 0 <= i < |options| - 1 && Terminated(options[i]) {
      assert i > 0 ==> rest[i - 1] == options[i];
    }
    if !Separated(q, options) && !EndsWith(q, '\\') {
      var i :| 0 <= i < |options| - 1 && EndsWith(options[i], '\\');
      assert i > 0 ==> rest[i - 1] == options[i];
    }
  }

  /**
   * Main result on pruning: the query matches what the caller's own query and every option match,
   * whatever separators they hold, and, where some text before an added `&` is empty or ends in `&`,
   * only if some value contains the empty string. So pruning never reaches beyond the caller's query.
   */
  lemma {:induction false} NarrowMeaning(q: string, options: seq<string>, ctx: Context)
    requires Separated(q, options)
    ensures Apply(Narrow(q, options), ctx)
       <==> Apply(q, ctx) && ApplyEach(options, ctx) && (HasGap(q, options) ==> MatchesEmptyText(ctx))
    decreases options
  {
    if options != [] {
      var o, rest := options[0], options[1..];
      var next := q + "&" + o;
      GapCons(q, options);
      OneOption(q, o);
      assert HasGap(next, rest) <==> HasGap(o, rest);
      NarrowMeaning(next, rest, ctx);
      OneOptionMeans(q, o, ctx);
      ApplyEachCons(options, ctx);
    }
  }

  /** A pruning query selects only what the caller's own query selects, and nothing any option excludes. */
  lemma PruneOnlyNarrows(p: PruneParams, ctx: Context)
    requires Separated(Base(p), PruneOptions(p))
    ensures Apply(Narrow(Base(p), PruneOptions(p)), ctx)
       <==> && Apply(Base(p), ctx) && ApplyEach(PruneOptions(p), ctx)
            && (HasGap(Base(p), PruneOptions(p)) ==> MatchesEmptyText(ctx))
  {
    NarrowMeaning(Base(p), PruneOptions(p), ctx);
  }

  /** Without a query of the caller: what is parsed, and what it matches. */
  lemma PruneWithoutQuery(options: seq<string>, ctx: Context)
    requires options != []
    ensures (forall o :: o in options ==> OnePiece(o))
        ==> Parse(Narrow("", options)) == [FullText([""])] + ParseEach(options)
    ensures Separated("", options)
        ==> (Apply(Narrow("", options), ctx) <==> MatchesEmptyText(ctx) && ApplyEach(options, ctx))
  {
    assert Parse("") == [] by {
      EncodeIsOnePass("");
    }
    if forall o :: o in options ==> OnePiece(o) {
      EmptyFirst(options);
    }
    if Separated("", options) {
      NarrowMeaning("", options, ctx);
    }
  }

  lemma EmptyFirst(options: seq<string>)
    requires options != [] && Parse("") == [] && forall o :: o in options ==> OnePiece(o)
    ensures Parse(Narrow("", options)) == [FullText([""])] + ParseEach(options)
  {
    var first := "" + "&" + options[0];
    assert Parse(first) == [FullText([""])] + Parse(options[0]) by {
      OneOption("", options[0]);
      assert Parse("") + Gap("") == [FullText([""])];
    }
    assert Parse(Narrow(first, options[1..])) == Parse(first) + ParseEach(options[1..]) by {
      OnePieceIsComposable(options[0]);
      TerminatedTail("", options[0]);
      ComposableNarrow(first, options[1..]);
    }
    Regroup([FullText([""])], Parse(options[0]), ParseEach(options[1..]));
  }

  // ---------------------------------------------------------------- queries that end in a backslash

  lemma AmpSwallowed(q: string, o: string)
    requires EndsWith(q, '\\')
    ensures Unescaped(q + "&" + o, '&') == Unescaped(q, '&') + Unescaped(o, '&')
  {
    assert q + "&" + o == q + ("&" + o);
    UnescapedAppend(q, "&" + o, '&');
    assert ("&" + o)[1..] == o;
  }

  /** After a query that ends in a backslash the first option is no constraint of its own. */
  lemma BackslashSwallowsOption(q: string, o: string)
    requires EndsWith(q, '\\') && OnePiece(o)
    ensures |Parse(q + "&" + o)| == |Parse(q)|
  {
    AmpSwallowed(q, o);
    ParseLength(q);
    ParseLength(q + "&" + o);
    assert !Terminated(o) by {
      OnePieceIsComposable(o);
    }
    TerminatedTail(q, o);
  }

  lemma {:induction false} DanglingDropped(a: string)
    requires '\\' !in a && ControlFree(a)
    ensures Unescape(a + ['\\']) == a
  {
    if a == "" {
      assert a + ['\\'] == ['\\'];
    } else {
      assert a == [a[0]] + a[1..] && a + ['\\'] == [a[0]] + (a[1..] + ['\\']);
      DanglingDropped(a[1..]);
      UnescapeCons(a[0], a[1..] + ['\\']);
    }
  }

  lemma DanglingFilter(f: string, a: string)
    requires f != "" && PlainText(f) && PlainText(a)
    ensures Parse(f + OpText(Equal) + (a + ['\\'])) == [Filter(f, Equal, [a])]
  {
    var t := a + ['\\'];
    var h := f + OpText(Equal);
    assert Encode(h + t) == h + t by {
      EncodeIsOnePass(h + t);
      assert h + t == (h + a) + ['\\'];
      EncodePlain(h + a);
      EncodeAppend(h + a, ['\\']);
      assert EncodeOnce(['\\']) == ['\\'] by {
        assert ['\\'][1..] == "";
      }
    }
    OnePieceOnly(h + t);
    assert ParsePiece(h + t) == Filter(f, Equal, DecodeAll(Split(t, '|'))) by {
      PlainFieldOk(f, Equal);
      TokenizedFilter(f, Equal, t);
    }
    SinglePart(t, '|');
    DecodeIsOnePass(t);
    DanglingDropped(a);
    assert DecodeAll([t]) == [a];
  }

  lemma EscapeAmp(o: string)
    requires PlainText(o)
    ensures Escape(['&'] + o, SPECIAL) == ['\\', '&'] + o
  {
    EscapePlain(o, SPECIAL);
    assert (['&'] + o)[1..] == o;
  }

  lemma EscapeAround(a: string, o: string)
    requires PlainText(a) && PlainText(o)
    ensures Escape(a + "&" + o, SPECIAL) == a + ['\\'] + "&" + o
  {
    assert a + "&" + o == a + (['&'] + o);
    EscapeAppend(a, ['&'] + o, SPECIAL);
    EscapePlain(a, SPECIAL);
    EscapeAmp(o);
    assert a + (['\\', '&'] + o) == a + ['\\'] + "&" + o;
  }

  lemma SwallowedText(f: string, a: string, o: string)
    requires PlainText(a) && PlainText(o)
    ensures PrintConstraint(Filter(f, Equal, [a + "&" + o])) == f + OpText(Equal) + (a + ['\\']) + "&" + o
  {
    var v := a + "&" + o;
    EscapeAround(a, o);
    assert EscapeAll([v]) == [Escape(v, SPECIAL)];
    assert Join([Escape(v, SPECIAL)], "|") == Escape(v, SPECIAL);
  }

  lemma SwallowedFilter(f: string, a: string, o: string)
    requires f != "" && PlainText(f) && PlainText(a) && PlainText(o)
    ensures Parse(f + OpText(Equal) + (a + ['\\']) + "&" + o) == [Filter(f, Equal, [a + "&" + o])]
  {
    var c := Filter(f, Equal, [a + "&" + o]);
    assert Print([c]) == PrintConstraint(c);
    SwallowedText(f, a, o);
    assert PrintableConstraint(c) by {
      PlainFieldOk(f, Equal);
      assert forall d :: d in c.value[0] ==> d in a || d in o || d == '&';
    }
    assert Printable([c]);
    RoundTrip([c]);
  }

  /** A record whose every field is `v`. */
  function OnlyValue(v: string): Context {
    Context(_ => Some(Value(x => x == v, _ => false, _ => None)), [])
  }

  lemma OnlyValueMatches(q: string, f: string, w: string, v: string)
    requires Parse(q) == [Filter(f, Equal, [w])]
    ensures Apply(q, OnlyValue(v)) <==> w == v
  {
    var c, ctx := Filter(f, Equal, [w]), OnlyValue(v);
    assert ctx.get(f).value.eq(w) <==> w == v;
    assert w in [w] && forall x :: x in [w] ==> x == w;
    assert Holds(c, ctx) <==> w == v;
    assert c in Parse(q) && forall d :: d in Parse(q) ==> d == c;
  }

  /** There a pruning query can select what the caller's query does not: narrowing fails. */
  lemma BackslashDoesNotNarrow(f: string, a: string, o: string)
    requires f != "" && PlainText(f) && PlainText(a) && PlainText(o)
    ensures var q := f + OpText(Equal) + (a + ['\\']);
      exists ctx :: Apply(Narrow(q, [o]), ctx) && !Apply(q, ctx)
  {
    var q, v := f + OpText(Equal) + (a + ['\\']), a + "&" + o;
    DanglingFilter(f, a);
    SwallowedFilter(f, a, o);
    assert Narrow(q, [o]) == q + "&" + o by {
      assert [o][1..] == [];
    }
    OnlyValueMatches(q + "&" + o, f, v, v);
    OnlyValueMatches(q, f, a, v);
    assert |a| < |v|;
  }

  // ---------------------------------------------------------------- the options

  /** A date condition is the filter it looks like. */
  lemma DateFilter(f: string, d: string)
    requires f != "" && PlainText(f) && PlainText(d)
    ensures Parse(f + "<" + d) == [Filter(f, LessThan, [d])]
  {
    assert OpText(LessThan) == "<";
    PlainFilter(f, LessThan, d);
  }

  /** A `key=value` label is the filter it looks like. */
  lemma LabelFilter(k: string, v: string)
    requires PlainText(k) && PlainText(v)
    ensures Parse("labels:" + (k + "=" + v)) == [Filter("labels:" + k, Equal, [v])]
  {
    var f := "labels:" + k;
    assert PlainText(f) by {
      assert PlainText("labels:");
      PlainAppend("labels:", k);
    }
    assert "labels:" + (k + "=" + v) == f + OpText(Equal) + v;
    PlainFilter(f, Equal, v);
  }

  lemma OnlyFilter(q: string, f: string, op: Operator, v: string, ctx: Context)
    requires Parse(q) == [Filter(f, op, [v])]
    ensures Apply(q, ctx) <==> ctx.get(f).Some? && Compare(ctx.get(f).value, op, [v])
  {
    assert HoldsAll(Parse(q), ctx) <==> Holds(Parse(q)[0], ctx);
  }

  /** A date condition asks for a field that stands strictly before the date. */
  lemma DateMeaning(f: string, d: string, ctx: Context, rank: int, scale: string -> Option<int>)
    requires f != "" && PlainText(f) && PlainText(d)
    requires ctx.get(f).Some? ==> RankedAt(ctx.get(f).value, rank, scale)
    ensures Apply(f + "<" + d, ctx) <==> ctx.get(f).Some? && scale(d).Some? && rank < scale(d).value
  {
    DateFilter(f, d);
    OnlyFilter(f + "<" + d, f, LessThan, d, ctx);
    assert d in [d] && forall v :: v in [d] ==> v == d;
  }

  /** A label condition asks for that value of that label. */
  lemma LabelMeaning(k: string, v: string, ctx: Context)
    requires PlainText(k) && PlainText(v)
    ensures Apply("labels:" + (k + "=" + v), ctx)
       <==> ctx.get("labels:" + k).Some? && ctx.get("labels:" + k).value.eq(v)
  {
    LabelFilter(k, v);
    OnlyFilter("labels:" + (k + "=" + v), "labels:" + k, Equal, v, ctx);
    assert v in [v] && forall w :: w in [v] ==> w == v;
  }

  /** Where a record stands in time, by one of its two dates. */
  datatype Timeline = Timeline(rank: int, scale: string -> Option<int>)

  ghost predicate Follows(ctx: Context, f: string, t: Timeline) {
    ctx.get(f).Some? ==> RankedAt(ctx.get(f).value, t.rank, t.scale)
  }

  /** A condition on a date, if there is one: the record has that date, and it is an earlier one. */
  predicate Earlier(ctx: Context, f: string, t: Timeline, limit: Option<string>) {
    limit.Some? ==> ctx.get(f).Some? && t.scale(limit.value).Some? && t.rank < t.scale(limit.value).value
  }

  predicate HasLabels(ctx: Context, labels: seq<(string, string)>) {
    forall i :: 0 <= i < |labels| ==>
      ctx.get("labels:" + labels[i].0).Some? && ctx.get("labels:" + labels[i].0).value.eq(labels[i].1)
  }

  /** The label options spelled out as keys and values. */
  predicate Spells(labels: seq<(string, string)>, options: Option<seq<string>>) {
    match options
    case None => labels == []
    case Some(ls) =>
      |ls| == |labels| && forall i :: 0 <= i < |ls| ==>
        ls[i] == labels[i].0 + "=" + labels[i].1 && PlainText(labels[i].0) && PlainText(labels[i].1)
  }

  lemma ApplyEachAppend(a: seq<string>, b: seq<string>, ctx: Context)
    ensures ApplyEach(a + b, ctx) <==> ApplyEach(a, ctx) && ApplyEach(b, ctx)
  {
    assert forall o :: o in a + b <==> o in a || o in b;
  }

  lemma LabelsMean(labels: seq<(string, string)>, ls: seq<string>, ctx: Context)
    requires Spells(labels, Some(ls))
    ensures ApplyEach(LabelOptions(ls), ctx) <==> HasLabels(ctx, labels)
  {
    var options := LabelOptions(ls);
    forall i | 0 <= i < |labels|
      ensures options[i] in options
      ensures Apply(options[i], ctx)
         <==> ctx.get("labels:" + labels[i].0).Some? && ctx.get("labels:" + labels[i].0).value.eq(labels[i].1)
    {
      LabelMeaning(labels[i].0, labels[i].1, ctx);
    }
    if HasLabels(ctx, labels) {
      forall o | o in options ensures Apply(o, ctx) {
        var i :| 0 <= i < |options| && options[i] == o;
      }
    }
  }

  function DateOptions(f: string, limit: Option<string>): seq<string> {
    match limit case Some(d) => [f + "<" + d] case None => []
  }

  lemma DateOption(f: string, limit: Option<string>, t: Timeline, ctx: Context)
    requires f != "" && PlainText(f) && (limit.Some? ==> PlainText(limit.value)) && Follows(ctx, f, t)
    ensures ApplyEach(DateOptions(f, limit), ctx) <==> Earlier(ctx, f, t, limit)
  {
    if limit.Some? {
      DateMeaning(f, limit.value, ctx, t.rank, t.scale);
      var option := f + "<" + limit.value;
      assert option in [option] && forall o :: o in [option] ==> o == option;
    }
  }

  /**
   * Main result on the conditions: a prune selects what the caller's query matches, published
   * strictly before the one date, ingested strictly before the other, and with every label given.
   */
  lemma PruneSelects(p: PruneParams, labels: seq<(string, string)>, ctx: Context,
                     published: Timeline, ingested: Timeline)
    requires p.publishedBefore.Some? ==> PlainText(p.publishedBefore.value)
    requires p.olderThan.Some? ==> PlainText(p.olderThan.value)
    requires Spells(labels, p.labels) && Separated(Base(p), PruneOptions(p))
    requires Follows(ctx, "published", published) && Follows(ctx, "ingested", ingested)
    ensures Apply(Narrow(Base(p), PruneOptions(p)), ctx)
       <==> && (p.q.Some? ==> Apply(p.q.value, ctx))
            && (HasGap(Base(p), PruneOptions(p)) ==> MatchesEmptyText(ctx))
            && Earlier(ctx, "published", published, p.publishedBefore)
            && Earlier(ctx, "ingested", ingested, p.olderThan)
            && HasLabels(ctx, labels)
  {
    PruneOnlyNarrows(p, ctx);
    OptionsMean(p, labels, ctx, published, ingested);
    EncodeIsOnePass("");
    assert Parse("") == [];
  }

  lemma OptionsMean(p: PruneParams, labels: seq<(string, string)>, ctx: Context,
                    published: Timeline, ingested: Timeline)
    requires p.publishedBefore.Some? ==> PlainText(p.publishedBefore.value)
    requires p.olderThan.Some? ==> PlainText(p.olderThan.value)
    requires Spells(labels, p.labels) && Follows(ctx, "published", published) && Follows(ctx, "ingested", ingested)
    ensures ApplyEach(PruneOptions(p), ctx)
       <==> && Earlier(ctx, "published", published, p.publishedBefore)
            && Earlier(ctx, "ingested", ingested, p.olderThan)
            && HasLabels(ctx, labels)
  {
    var first, second := DateOptions("published", p.publishedBefore), DateOptions("ingested", p.olderThan);
    var third := if p.labels.Some? then LabelOptions(p.labels.value) else [];
    OptionsInOrder(p);
    PublishedOption(None);
    IngestedOption(None);
    ApplyEachAppend(first + second, third, ctx);
    ApplyEachAppend(first, second, ctx);
    DateOption("published", p.publishedBefore, published, ctx);
    DateOption("ingested", p.olderThan, ingested, ctx);
    if p.labels.Some? {
      LabelsMean(labels, p.labels.value, ctx);
    }
  }

  lemma PublishedOption(limit: Option<string>)
    ensures PlainText("published")
    ensures DateOptions("published", limit) == match limit case Some(d) => ["published<" + d] case None => []
  {
    assert "published" + "<" == "published<";
  }

  lemma IngestedOption(limit: Option<string>)
    ensures PlainText("ingested")
    ensures DateOptions("ingested", limit) == match limit case Some(d) => ["ingested<" + d] case None => []
  {
    assert "ingested" + "<" == "ingested<";
  }

  lemma OptionsInOrder(p: PruneParams)
    ensures PruneOptions(p) == DateOptions("published", p.publishedBefore) + DateOptions("ingested", p.olderThan)
                               + (if p.labels.Some? then LabelOptions(p.labels.value) else [])
  {
    PublishedOption(p.publishedBefore);
    IngestedOption(p.olderThan);
  }
}
