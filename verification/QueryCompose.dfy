/** Queries put together as text: concatenation and evaluation. */
module QueryCompose {
  import opened Results
  import opened Strings
  import opened Query
  import opened QueryCodec
  import opened QueryRoundTrip

  // ---------------------------------------------------------------- concatenation

  /** The text can be followed by `&` and more text without disturbing what it means. */
  predicate Composable(a: string) {
    !Terminated(a) && !EndsWith(a, '\\')
  }

  lemma AmpBetween(a: string, b: string)
    ensures a + "&" + b == a + (['&'] + b)
  {
  }

  lemma EncodeOnceOfConcat(a: string, b: string)
    requires !EndsWith(a, '\\')
    ensures EncodeOnce(a + "&" + b) == EncodeOnce(a) + "&" + EncodeOnce(b)
  {
    AmpBetween(a, b);
    EncodeAround(a, '&', b);
    AmpBetween(EncodeOnce(a), EncodeOnce(b));
  }

  lemma EncodeOfConcat(a: string, b: string)
    requires !EndsWith(a, '\\')
    ensures Encode(a + "&" + b) == Encode(a) + "&" + Encode(b)
  {
    EncodeIsOnePass(a);
    EncodeIsOnePass(b);
    EncodeIsOnePass(a + "&" + b);
    EncodeOnceOfConcat(a, b);
  }

  lemma LastOfAppend<T>(a: seq<T>, b: seq<T>)
    requires b != []
    ensures (a + b)[..|a + b| - 1] == a + b[..|b| - 1] && (a + b)[|a + b| - 1] == b[|b| - 1]
  {
  }

  lemma SplitTerminatorAt(a: string, b: string)
    ensures SplitTerminator(a + "&" + b, '&') == Split(a, '&') + SplitTerminator(b, '&')
  {
    var left, right := Split(a, '&'), Split(b, '&');
    assert Split(a + "&" + b, '&') == left + right by {
      assert "&" == ['&'];
      SplitAt(a, '&', b);
    }
    LastOfAppend(left, right);
  }

  lemma ParsePiecesAppend(a: seq<string>, b: seq<string>)
    ensures ParsePieces(a + b) == ParsePieces(a) + ParsePieces(b)
  {
  }

  lemma ParseOfConcat(a: string, b: string)
    requires !EndsWith(a, '\\')
    ensures Parse(a + "&" + b) == ParsePieces(Split(Encode(a), '&')) + Parse(b)
  {
    EncodeOfConcat(a, b);
    SplitTerminatorAt(Encode(a), Encode(b));
    ParsePiecesAppend(Split(Encode(a), '&'), SplitTerminator(Encode(b), '&'));
  }

  lemma ComposableParses(a: string, b: string)
    requires Composable(a)
    ensures Parse(a + "&" + b) == Parse(a) + Parse(b)
  {
    ParseOfConcat(a, b);
    SplitLast(Encode(a), '&');
    EncodeIsOnePass(a);
    EncodeTerminated(a);
  }

  lemma TerminatedTail(a: string, b: string)
    requires b != ""
    ensures Terminated(a + "&" + b) <==> Terminated(b)
    ensures EndsWith(a + "&" + b, '\\') <==> EndsWith(b, '\\')
  {
    var s := a + "&" + b;
    assert s[|s| - 1] == b[|b| - 1];
    assert s[|s| - 2] == if |b| >= 2 then b[|b| - 2] else '&';
  }

  /**
   * Concatenating two queries concatenates their constraints exactly when the first one
   * is not empty, does not end in an unescaped `&` and does not end in a backslash.
   */
  lemma ConcatenationParses(a: string, b: string)
    ensures Parse(a + "&" + b) == Parse(a) + Parse(b) <==> Composable(a)
  {
    if Composable(a) {
      ComposableParses(a, b);
    } else if b != "" {
      ConcatLength(a, b);
    } else {
      EncodeIsOnePass("");
      assert a + "&" + b == a + "&" && Parse(a) + Parse(b) == Parse(a);
      NothingAppended(a);
    }
  }

  lemma ConcatLength(a: string, b: string)
    requires b != "" && !Composable(a)
    ensures |Parse(a + "&" + b)| != |Parse(a)| + |Parse(b)|
  {
    var s := a + "&" + b;
    assert Unescaped(s, '&') == Unescaped(a, '&') + Unescaped("&" + b, '&', EndsWith(a, '\\')) by {
      assert s == a + ("&" + b);
      UnescapedAppend(a, "&" + b, '&');
    }
    assert ("&" + b)[1..] == b;
    TerminatedTail(a, b);
    ParseLength(a);
    ParseLength(b);
    ParseLength(s);
  }

  // ------------------------------------------------- an empty second query

  lemma UnescapeFirst(u: string, x: char, n: nat)
    requires u != "" && n <= |u| && n == if u[0] == '\\' then 2 else 1
    ensures Unescape(u + [x]) == [Restore(u[n - 1])] + Unescape(u[n..] + [x])
  {
    var rest := u[n..] + [x];
    assert u + [x] == u[..n] + rest;
    assert u[..n] == if n == 2 then ['\\', u[1]] else [u[0]];
    UnescapeCons(u[n - 1], rest);
  }

  lemma {:induction false} UnescapeTail(u: string)
    ensures Unescape(u + [BEL]) != Unescape(u + ['\\'])
  {
    if u == "" {
      assert u + [BEL] == [BEL] && u + ['\\'] == ['\\'];
    } else if u == "\\" {
      UnescapeCons(BEL, "");
      UnescapeCons('\\', "");
      assert u + [BEL] == ['\\', BEL] + "" && u + ['\\'] == ['\\', '\\'] + "";
      assert Unescape(u + [BEL])[0] == '&' && Unescape(u + ['\\'])[0] == '\\';
    } else {
      var n := if u[0] == '\\' then 2 else 1;
      UnescapeTail(u[n..]);
      UnescapeFirst(u, BEL, n);
      UnescapeFirst(u, '\\', n);
      var x, y := Unescape(u[n..] + [BEL]), Unescape(u[n..] + ['\\']);
      assert ([Restore(u[n - 1])] + x)[1..] == x && ([Restore(u[n - 1])] + y)[1..] == y;
    }
  }

  /** One more character at the end of the last part. */
  function Extend(parts: seq<string>, x: char): seq<string>
    requires parts != []
  {
    parts[..|parts| - 1] + [parts[|parts| - 1] + [x]]
  }

  lemma ExtendCons(c: char, parts: seq<string>, x: char)
    requires parts != []
    ensures [""] + Extend(parts, x) == Extend([""] + parts, x)
    ensures [[c] + Extend(parts, x)[0]] + Extend(parts, x)[1..] == Extend([[c] + parts[0]] + parts[1..], x)
  {
    if |parts| == 1 {
      assert [c] + (parts[0] + [x]) == ([c] + parts[0]) + [x];
      assert [[c] + parts[0]] + parts[1..] == [[c] + parts[0]];
    } else {
      var more := [[c] + parts[0]] + parts[1..];
      assert more[|more| - 1] == parts[|parts| - 1];
      assert more[..|more| - 1] == [[c] + parts[0]] + parts[1..][..|parts| - 2];
    }
  }

  lemma {:induction false} SplitSnoc(r: string, x: char, sep: char)
    requires x != sep
    ensures Split(r + [x], sep) == Extend(Split(r, sep), x)
  {
    if r == "" {
      assert r + [x] == [x] + "";
      SplitCons(x, "", sep);
    } else {
      var c, w := r[0], r[1..];
      SplitSnoc(w, x, sep);
      assert r == [c] + w && r + [x] == [c] + (w + [x]);
      SplitCons(c, w, sep);
      SplitCons(c, w + [x], sep);
      ExtendCons(c, Split(w, sep), x);
    }
  }

  lemma OperatorTail(p: string, i: nat)
    requires 1 <= i < |p| && OpAt(p + [BEL], i).Some?
    ensures OpAt(p + [BEL], i) == OpAt(p + ['\\'], i)
    ensures var n := i + |OpText(OpAt(p + [BEL], i).value)|;
      '\n' in (p + [BEL])[n..] <==> '\n' in (p + ['\\'])[n..]
  {
    var s, t := p + [BEL], p + ['\\'];
    assert i + 1 < |p| ==> s[i + 1] == t[i + 1] == p[i + 1];
    var n := i + |OpText(OpAt(s, i).value)|;
    assert s[n..] == p[n..] + [BEL] && t[n..] == p[n..] + ['\\'];
  }

  lemma SameOperator(p: string, i: nat)
    requires 1 <= i <= |p|
    ensures OpAt(p + [BEL], i) == OpAt(p + ['\\'], i)
    ensures i == |p| ==> OpAt(p + [BEL], i) == None
  {
    assert i < |p| ==> (p + [BEL])[i] == (p + ['\\'])[i] == p[i];
    assert i + 1 < |p| ==> (p + [BEL])[i + 1] == (p + ['\\'])[i + 1] == p[i + 1];
  }

  lemma {:induction false} CaptureTail(p: string, i: nat)
    requires 1 <= i
    ensures Capture(p + [BEL], i) == Capture(p + ['\\'], i)
    decreases |p| + 1 - i
  {
    if i <= |p| {
      CaptureTail(p, i + 1);
      assert (p + [BEL])[i - 1] == (p + ['\\'])[i - 1] == p[i - 1];
      SameOperator(p, i);
      if OpAt(p + [BEL], i).Some? {
        OperatorTail(p, i);
      }
    }
  }

  lemma ValuesTail(r: string)
    ensures DecodeAll(Split(r + [BEL], '|')) != DecodeAll(Split(r + ['\\'], '|'))
  {
    SplitSnoc(r, BEL, '|');
    SplitSnoc(r, '\\', '|');
    var last := |Split(r, '|')| - 1;
    var u := Split(r, '|')[last];
    UnescapeTail(u);
    DecodeIsOnePass(u + [BEL]);
    DecodeIsOnePass(u + ['\\']);
    assert DecodeAll(Split(r + [BEL], '|'))[last] != DecodeAll(Split(r + ['\\'], '|'))[last];
  }

  lemma OperatorChars(op: Operator, k: nat)
    requires op != And && op != Or && k < |OpText(op)|
    ensures OpText(op)[k] in {'=', '!', '~', '>', '<'}
  {
  }

  lemma OperatorInside(s: string, i: nat, op: Operator)
    requires Matches(s, i, op) && s[|s| - 1] !in {'=', '!', '~', '>', '<'}
    ensures i + |OpText(op)| < |s|
  {
    var n := i + |OpText(op)|;
    var t := s[i..n];
    OperatorChars(op, n - 1 - i);
    assert t[n - 1 - i] == s[n - 1];
  }

  lemma ValuesTailFrom(p: string, n: nat)
    requires n <= |p|
    ensures DecodeAll(Split((p + [BEL])[n..], '|')) != DecodeAll(Split((p + ['\\'])[n..], '|'))
  {
    assert (p + [BEL])[n..] == p[n..] + [BEL] && (p + ['\\'])[n..] == p[n..] + ['\\'];
    ValuesTail(p[n..]);
  }

  lemma PieceTail(p: string)
    ensures ParsePiece(p + [BEL]) != ParsePiece(p + ['\\'])
  {
    CaptureTail(p, 1);
    match Capture(p + [BEL])
    case None => ValuesTail(p);
    case Some((i, op)) =>
      assert Matches(p + [BEL], i, op) by {
        CaptureIsLazyMatch(p + [BEL]);
      }
      OperatorInside(p + [BEL], i, op);
      ValuesTailFrom(p, i + |OpText(op)|);
  }

  lemma LastPieceOf(e: string, x: char)
    requires x != '&'
    ensures SplitTerminator(e + [x], '&') == Extend(Split(e, '&'), x)
  {
    SplitSnoc(e, x, '&');
  }

  /** A backslash at the end of a query swallows the `&` that follows it. */
  lemma SwallowedAmp(a: string)
    requires EndsWith(a, '\\')
    ensures Parse(a + "&") != Parse(a)
  {
    var init := a[..|a| - 1];
    var e := EncodeOnce(init);
    assert a == init + ['\\'] && a + "&" == init + "\\&";
    assert Encode(a) == e + ['\\'] && Encode(a + "&") == e + [BEL] by {
      EncodeIsOnePass(a);
      EncodeIsOnePass(a + "&");
      EncodeAppend(init, ['\\']);
      EncodeAppend(init, "\\&");
      assert EncodeOnce("\\&") == [BEL] && EncodeOnce(['\\']) == ['\\'] by {
        assert "\\&"[2..] == "" && ['\\'][1..] == "";
      }
    }
    LastPieceOf(e, '\\');
    LastPieceOf(e, BEL);
    var last := |Split(e, '&')| - 1;
    PieceTail(Split(e, '&')[last]);
    assert Parse(a + "&")[last] != Parse(a)[last];
  }

  lemma NothingAppended(a: string)
    requires !Composable(a)
    ensures Parse(a + "&") != Parse(a)
  {
    if EndsWith(a, '\\') {
      SwallowedAmp(a);
    } else {
      ParseLength(a);
      ParseLength(a + "&");
      UnescapedAppend(a, "&", '&');
      assert a != "" ==> (a + "&")[|a| - 1] == a[|a| - 1];
      assert "&"[1..] == "";
    }
  }

  // ---------------------------------------------------------------- evaluation

  datatype Ordering = Less | Same | Greater

  /** A value of the context by what the evaluator asks of it. */
  datatype Value = Value(eq: string -> bool, like: string -> bool, compare: string -> Option<Ordering>)

  datatype Context = Context(get: string -> Option<Value>, values: seq<Value>)

  predicate Compare(field: Value, op: Operator, vs: seq<string>) {
    match op
    case Equal => exists v :: v in vs && field.eq(v)
    case NotEqual => forall v :: v in vs ==> !field.eq(v)
    case Like => exists v :: v in vs && field.like(v)
    case NotLike => forall v :: v in vs ==> !field.like(v)
    case GreaterThan => forall v :: v in vs ==> field.compare(v) == Some(Greater)
    case GreaterThanOrEqual => forall v :: v in vs ==> field.compare(v) in {Some(Greater), Some(Same)}
    case LessThan => forall v :: v in vs ==> field.compare(v) == Some(Less)
    case LessThanOrEqual => forall v :: v in vs ==> field.compare(v) in {Some(Less), Some(Same)}
    case _ => false
  }

  predicate Holds(c: Constraint, ctx: Context) {
    match (c.field, c.op)
    case (Some(f), Some(op)) => var field := ctx.get(f); field.Some? && Compare(field.value, op, c.value)
    case (None, _) => exists i :: 0 <= i < |ctx.values| && exists v :: v in c.value && ctx.values[i].like(v)
    case _ => false
  }

  predicate HoldsAll(cs: seq<Constraint>, ctx: Context) {
    forall c :: c in cs ==> Holds(c, ctx)
  }

  predicate Apply(q: string, ctx: Context) {
    HoldsAll(Parse(q), ctx)
  }

  lemma HoldsAllAppend(cs: seq<Constraint>, ds: seq<Constraint>, ctx: Context)
    ensures HoldsAll(cs + ds, ctx) <==> HoldsAll(cs, ctx) && HoldsAll(ds, ctx)
  {
    assert forall c :: c in cs + ds <==> c in cs || c in ds;
  }

  /** `&` between queries is logical conjunction. */
  lemma ApplyOfConcat(a: string, b: string, ctx: Context)
    requires Composable(a)
    ensures Apply(a + "&" + b, ctx) <==> Apply(a, ctx) && Apply(b, ctx)
    ensures Composable(b) ==> (Apply(a + "&" + b, ctx) <==> Apply(b + "&" + a, ctx))
  {
    ComposableParses(a, b);
    HoldsAllAppend(Parse(a), Parse(b), ctx);
    if Composable(b) {
      ComposableParses(b, a);
      HoldsAllAppend(Parse(b), Parse(a), ctx);
    }
  }

  /** A printed query means what its constraints mean. */
  lemma PrintedMeaning(cs: seq<Constraint>, ctx: Context)
    requires Printable(cs)
    ensures Apply(Print(cs), ctx) <==> HoldsAll(cs, ctx)
  {
    RoundTrip(cs);
  }

  lemma SingleFilterMeaning(f: string, op: Operator, vs: seq<string>, ctx: Context)
    requires Printable([Filter(f, op, vs)]) && ctx.get(f).Some?
    ensures Apply(Print([Filter(f, op, vs)]), ctx) <==> Compare(ctx.get(f).value, op, vs)
  {
    var cs := [Filter(f, op, vs)];
    PrintedMeaning(cs, ctx);
    assert HoldsAll(cs, ctx) <==> Holds(cs[0], ctx);
  }

  /** The negated operators are the complements of the plain ones on fields that are present. */
  lemma NegatedOperators(f: string, vs: seq<string>, ctx: Context, op: Operator, negated: Operator)
    requires (op, negated) in {(Equal, NotEqual), (Like, NotLike)}
    requires Printable([Filter(f, op, vs)]) && Printable([Filter(f, negated, vs)])
    requires ctx.get(f).Some?
    ensures Apply(Print([Filter(f, negated, vs)]), ctx) <==> !Apply(Print([Filter(f, op, vs)]), ctx)
  {
    SingleFilterMeaning(f, op, vs, ctx);
    SingleFilterMeaning(f, negated, vs, ctx);
  }

  // ------------------------------------------------- the meaning of query texts

  /** Values as a query spells them, separated by pipes. */
  function Spelled(vs: seq<string>): string {
    Join(EscapeAll(vs), "|")
  }

  lemma FilterMeaning(f: string, op: Operator, vs: seq<string>, ctx: Context)
    requires Printable([Filter(f, op, vs)])
    ensures Apply(f + OpText(op) + Spelled(vs), ctx) <==> ctx.get(f).Some? && Compare(ctx.get(f).value, op, vs)
  {
    var cs := [Filter(f, op, vs)];
    assert Print(cs) == f + OpText(op) + Spelled(vs);
    PrintedMeaning(cs, ctx);
    assert HoldsAll(cs, ctx) <==> Holds(cs[0], ctx);
  }

  /** What a filter with the operator written so asks of a field and a value. */
  predicate Tests(text: string, field: Value, v: string) {
    match text
    case "=" => field.eq(v)
    case "!=" => !field.eq(v)
    case "~" => field.like(v)
    case "!~" => !field.like(v)
    case _ => false
  }

  /**
   * `=` and `~` ask that some value is equal to the field or contained in it, `!=` and `!~` that no
   * value is.
   */
  lemma MatchMeaning(f: string, text: string, vs: seq<string>, ctx: Context)
    requires text in {"=", "!=", "~", "!~"} && ctx.get(f).Some?
    requires forall op :: OpText(op) == text ==> Printable([Filter(f, op, vs)])
    ensures var field := ctx.get(f).value;
      Apply(f + text + Spelled(vs), ctx) <==>
        if text in {"=", "~"} then exists v :: v in vs && Tests(text, field, v)
        else forall v :: v in vs ==> Tests(text, field, v)
  {
    var op := if text == "=" then Equal else if text == "!=" then NotEqual else if text == "~" then Like else NotLike;
    FilterMeaning(f, op, vs, ctx);
  }

  /** The field stands at `rank` on a scale on which `scale` places every text, or nowhere. */
  ghost predicate RankedAt(field: Value, rank: int, scale: string -> Option<int>) {
    forall v :: field.compare(v) ==
      match scale(v)
      case None => None
      case Some(r) => Some(if rank < r then Less else if rank > r then Greater else Same)
  }

  predicate Stands(text: string, rank: int, r: Option<int>) {
    r.Some? &&
    match text
    case ">" => rank > r.value
    case ">=" => rank >= r.value
    case "<" => rank < r.value
    case "<=" => rank <= r.value
    case _ => false
  }

  lemma CompareRanks(field: Value, op: Operator, vs: seq<string>, rank: int, scale: string -> Option<int>)
    requires RankedAt(field, rank, scale) && op in {GreaterThan, GreaterThanOrEqual, LessThan, LessThanOrEqual}
    ensures Compare(field, op, vs) <==> forall v :: v in vs ==> Stands(OpText(op), rank, scale(v))
  {
    assert forall v :: v in vs ==> field.compare(v).Some? == scale(v).Some?;
  }

  /** The four comparisons are inequalities between the field and every one of the values. */
  lemma ComparisonMeaning(f: string, text: string, vs: seq<string>, ctx: Context,
                           rank: int, scale: string -> Option<int>)
    requires text in {">", ">=", "<", "<="} && ctx.get(f).Some? && RankedAt(ctx.get(f).value, rank, scale)
    requires forall op :: OpText(op) == text ==> Printable([Filter(f, op, vs)])
    ensures Apply(f + text + Spelled(vs), ctx) <==> forall v :: v in vs ==> Stands(text, rank, scale(v))
  {
    var op :=
      if text == ">" then GreaterThan else if text == ">=" then GreaterThanOrEqual
      else if text == "<" then LessThan else LessThanOrEqual;
    FilterMeaning(f, op, vs, ctx);
    CompareRanks(ctx.get(f).value, op, vs, rank, scale);
  }

  /** No filter matches a record that lacks its field. */
  lemma MissingField(f: string, op: Operator, vs: seq<string>, ctx: Context)
    requires Printable([Filter(f, op, vs)]) && ctx.get(f).None?
    ensures !Apply(f + OpText(op) + Spelled(vs), ctx)
  {
    FilterMeaning(f, op, vs, ctx);
  }

  /** `&` and `|` are no operators of a filter, and half a filter is none: neither matches anything. */
  lemma NoOtherFilters(f: string, op: Operator, vs: seq<string>, ctx: Context)
    ensures op == And || op == Or ==> !Holds(Filter(f, op, vs), ctx)
    ensures !Holds(Constraint(Some(f), None, vs), ctx)
  {
  }

  /** A full-text search looks for any of its values in any value of the record. */
  lemma SearchMeaning(vs: seq<string>, ctx: Context)
    requires Printable([FullText(vs)])
    ensures Apply(Spelled(vs), ctx) <==> exists i, v :: 0 <= i < |ctx.values| && v in vs && ctx.values[i].like(v)
  {
    var cs := [FullText(vs)];
    assert Print(cs) == Spelled(vs);
    PrintedMeaning(cs, ctx);
    assert HoldsAll(cs, ctx) <==> Holds(cs[0], ctx);
  }

  lemma MoreAlternatives(field: Value, op: Operator, vs: seq<string>, ws: seq<string>)
    ensures Compare(field, op, vs + ws)
       <==> if op in {Equal, Like} then Compare(field, op, vs) || Compare(field, op, ws)
            else Compare(field, op, vs) && Compare(field, op, ws)
  {
    assert forall v :: v in vs + ws <==> v in vs || v in ws;
  }

  lemma MoreText(vs: seq<string>, ws: seq<string>, ctx: Context)
    ensures Holds(FullText(vs + ws), ctx) <==> Holds(FullText(vs), ctx) || Holds(FullText(ws), ctx)
  {
    assert forall v :: v in vs + ws <==> v in vs || v in ws;
    if i :| 0 <= i < |ctx.values| && exists v :: v in vs && ctx.values[i].like(v) {
      var v :| v in vs && ctx.values[i].like(v);
      assert v in vs + ws;
    }
    if i :| 0 <= i < |ctx.values| && exists v :: v in ws && ctx.values[i].like(v) {
      var v :| v in ws && ctx.values[i].like(v);
      assert v in vs + ws;
    }
  }

  /**
   * Alternatives widen a full-text search and the operators `=` and `~`; with every other operator
   * all of them have to hold.
   */
  lemma Alternatives(f: string, op: Operator, vs: seq<string>, ws: seq<string>, ctx: Context)
    ensures Holds(FullText(vs + ws), ctx) <==> Holds(FullText(vs), ctx) || Holds(FullText(ws), ctx)
    ensures Holds(Filter(f, op, vs + ws), ctx)
       <==> if op in {Equal, Like} then Holds(Filter(f, op, vs), ctx) || Holds(Filter(f, op, ws), ctx)
            else Holds(Filter(f, op, vs), ctx) && Holds(Filter(f, op, ws), ctx)
  {
    MoreText(vs, ws, ctx);
    if ctx.get(f).Some? {
      MoreAlternatives(ctx.get(f).value, op, vs, ws);
    }
  }

  // ------------------------------------------------- the text of unescaped queries

  function DisplayAll(cs: seq<Constraint>): (r: seq<string>)
    ensures |r| == |cs|
    ensures forall i :: 0 <= i < |cs| ==> r[i] == Display(cs[i])
  {
    seq(|cs|, i requires 0 <= i < |cs| => Display(cs[i]))
  }

  lemma {:induction false} UnescapePlain(s: string)
    requires '\\' !in s && ControlFree(s)
    ensures Unescape(s) == s
  {
    if s != "" {
      assert s == [s[0]] + s[1..];
      UnescapePlain(s[1..]);
    }
  }

  lemma DecodeAllPlain(s: string)
    requires '\\' !in s && ControlFree(s)
    ensures DecodeAll(Split(s, '|')) == Split(s, '|')
  {
    var parts := Split(s, '|');
    SplitParts(s, '|');
    forall i | 0 <= i < |parts| ensures Decode(parts[i]) == parts[i] {
      assert parts[i] in parts;
      DecodeIsOnePass(parts[i]);
      UnescapePlain(parts[i]);
    }
  }

  lemma DisplayOfPiece(s: string)
    requires '\\' !in s && ControlFree(s)
    ensures Display(ParsePiece(s)) == s
  {
    match Capture(s)
    case None =>
      DecodeAllPlain(s);
      JoinOfSplit(s, '|');
    case Some((i, op)) =>
      CaptureIsLazyMatch(s);
      var n := i + |OpText(op)|;
      assert s == s[..i] + s[i..n] + s[n..];
      DecodeAllPlain(s[n..]);
      JoinOfSplit(s[n..], '|');
  }

  lemma PlainPieces(q: string)
    requires '\\' !in q && !Terminated(q)
    ensures Parse(q) == ParsePieces(Split(q, '&'))
  {
    EncodeIsOnePass(q);
    EncodePlain(q);
    SplitLast(q, '&');
    EncodeTerminated(q);
  }

  lemma DisplayOfPieces(q: string)
    requires '\\' !in q && ControlFree(q)
    ensures forall p :: p in Split(q, '&') ==> Display(ParsePiece(p)) == p
  {
    SplitParts(q, '&');
    forall p | p in Split(q, '&') ensures Display(ParsePiece(p)) == p {
      DisplayOfPiece(p);
    }
  }

  /** Displaying the constraints of a query that uses no escapes gives back its text. */
  lemma DisplayOfParse(q: string)
    requires '\\' !in q && ControlFree(q) && !Terminated(q)
    ensures Join(DisplayAll(Parse(q)), "&") == q
  {
    var pieces := Split(q, '&');
    PlainPieces(q);
    assert DisplayAll(ParsePieces(pieces)) == pieces by {
      DisplayOfPieces(q);
    }
    assert ['&'] == "&";
    JoinOfSplit(q, '&');
  }

  // ---------------------------------------------------------------- plain text

  lemma SinglePart(t: string, sep: char)
    ensures |Split(t, sep)| == 1 <==> sep !in t
    ensures |Split(t, sep)| == 1 ==> Split(t, sep) == [t]
  {
    if sep !in t {
      SplitWhole(t, sep);
    }
    if |Split(t, sep)| == 1 {
      JoinOfSplit(t, sep);
      SplitParts(t, sep);
      assert Split(t, sep)[0] in Split(t, sep);
    }
  }

  lemma OnePieceOnly(q: string)
    requires q != "" && '&' !in Encode(q)
    ensures Parse(q) == [ParsePiece(Encode(q))]
  {
    SinglePart(Encode(q), '&');
    EncodeIsOnePass(q);
    EncodeTerminated(q);
  }

  /** No character of the text needs escaping or is used by the parser for its own purposes. */
  predicate PlainText(v: string) {
    forall c :: c in v ==> c !in SPECIAL && c != '\n' && c != BEL && c != BS
  }

  lemma PlainAppend(a: string, b: string)
    requires PlainText(a) && PlainText(b)
    ensures PlainText(a + b)
  {
  }

  lemma {:induction false} EscapePlain(v: string, special: set<char>)
    requires forall c :: c in v ==> c !in special
    ensures Escape(v, special) == v
  {
    if v != "" {
      EscapePlain(v[1..], special);
    }
  }

  lemma PlainPrint(f: string, op: Operator, v: string)
    requires PlainText(v)
    ensures Print([Filter(f, op, [v])]) == f + OpText(op) + v
  {
    EscapePlain(v, SPECIAL);
    assert EscapeAll([v]) == [v];
    assert Print([Filter(f, op, [v])]) == PrintConstraint(Filter(f, op, [v]));
  }

  lemma PlainIsPrintable(f: string, op: Operator, v: string)
    requires f != "" && op != And && op != Or && PlainText(f) && PlainText(v)
    ensures Printable([Filter(f, op, [v])])
  {
    PlainFieldOk(f, op);
    assert PrintableConstraint(Filter(f, op, [v]));
  }

  lemma PlainFilter(f: string, op: Operator, v: string)
    requires f != "" && op != And && op != Or && PlainText(f) && PlainText(v)
    ensures Parse(f + OpText(op) + v) == [Filter(f, op, [v])]
  {
    PlainPrint(f, op, v);
    PlainIsPrintable(f, op, v);
    RoundTrip([Filter(f, op, [v])]);
  }

  lemma PlainFieldOk(f: string, op: Operator)
    requires f != "" && PlainText(f)
    ensures FieldOk(f, op)
  {
    forall j | 1 <= j < |f| ensures OpAt(f + OpText(op), j) == None {
      assert (f + OpText(op))[j] == f[j];
      assert f[j] in f;
    }
  }
}
