/** Printing by the documented grammar and parsing again: exactly when it is the identity. */
module QueryRoundTrip {
  import opened Results
  import opened Strings
  import opened Query
  import opened QueryCodec

  predicate ControlFree(v: string) {
    '\U{0007}' !in v && '\U{0008}' !in v
  }

  /** No operator of the expression starts inside the field, unless a newline follows it there. */
  predicate FieldOk(f: string, op: Operator) {
    && f != "" && '\\' !in f && '&' !in f
    && forall j :: 1 <= j < |f| && OpAt(f + OpText(op), j).Some? ==> '\n' in f[j..]
  }

  predicate PrintableConstraint(c: Constraint) {
    && c.value != []
    && (forall v :: v in c.value ==> ControlFree(v))
    && match (c.field, c.op) {
         case (None, None) => true
         case (Some(f), Some(op)) =>
           && op != And && op != Or && FieldOk(f, op)
           && forall v :: v in c.value ==> '\n' !in v
         case _ => false
       }
  }

  /** No value but the last ends in a backslash: a `|` follows each of the others. */
  predicate Separable(values: seq<string>) {
    forall i :: 0 <= i < |values| - 1 ==> !EndsWith(values[i], '\\')
  }

  /** As `Separable`, for the `&` that follows every constraint but the last. */
  predicate SeparableConstraints(cs: seq<Constraint>) {
    && (forall c :: c in cs ==> Separable(c.value))
    && forall i :: 0 <= i < |cs| - 1 && cs[i].value != [] ==>
         !EndsWith(cs[i].value[|cs[i].value| - 1], '\\')
  }

  predicate Printable(cs: seq<Constraint>) {
    && (forall c :: c in cs ==> PrintableConstraint(c))
    && SeparableConstraints(cs)
    && (cs != [] ==> cs[|cs| - 1] != FullText([""]))
  }

  // ---------------------------------------------------------------- one value

  /** What the encoder leaves of an escaped value. */
  function Encoded(v: string): string {
    EncodeOnce(Escape(v, SPECIAL))
  }

  lemma {:induction false} EscapeEnd(v: string, special: set<char>)
    requires '\\' in special
    ensures EndsWith(Escape(v, special), '\\') <==> EndsWith(v, '\\')
    ensures Escape(v, special) == "" <==> v == ""
    ensures StartsWith(Escape(v, special), '&') ==> '&' !in special
    ensures StartsWith(Escape(v, special), '|') ==> '|' !in special
  {
    if |v| > 1 {
      EscapeEnd(v[1..], special);
      assert v[1..][|v| - 2] == v[|v| - 1];
      var rest := Escape(v[1..], special);
      assert Escape(v, special)[|Escape(v, special)| - 1] == rest[|rest| - 1];
    }
  }

  /** One escaped character ahead of the rest, encoded. */
  lemma EncodedCons(v: string)
    requires v != ""
    ensures Encoded(v) == (if v[0] == '&' then [BEL] else if v[0] == '|' then [BS]
                           else if v[0] in SPECIAL then ['\\', v[0]] else [v[0]]) + Encoded(v[1..])
  {
    var rest := Escape(v[1..], SPECIAL);
    EscapeEnd(v[1..], SPECIAL);
    if v[0] in SPECIAL {
      assert Escape(v, SPECIAL)[2..] == rest;
      if v[0] != '&' && v[0] != '|' {
        EncodeAppend(['\\', v[0]], rest);
        assert EncodeOnce(['\\', v[0]]) == ['\\', v[0]] by {
          assert ['\\', v[0]][1..] == [v[0]];
          assert EncodeOnce([v[0]]) == [v[0]];
        }
      }
    } else {
      EncodeAppend([v[0]], rest);
      assert EncodeOnce([v[0]]) == [v[0]];
    }
  }

  lemma {:induction false} EncodedHasNoSeparators(v: string)
    ensures '&' !in Encoded(v) && '|' !in Encoded(v)
    ensures '\n' in Encoded(v) <==> '\n' in v
    ensures Encoded(v) == "" <==> v == ""
  {
    if v != "" {
      EncodedCons(v);
      EncodedHasNoSeparators(v[1..]);
      assert v == [v[0]] + v[1..];
    }
  }

  lemma {:induction false} DecodeOfEncoded(v: string)
    requires ControlFree(v)
    ensures Decode(Encoded(v)) == v
  {
    DecodeIsOnePass(Encoded(v));
    if v != "" {
      assert forall c :: c in v[1..] ==> c in v;
      DecodeOfEncoded(v[1..]);
      DecodeIsOnePass(Encoded(v[1..]));
      EncodedCons(v);
      assert v == [v[0]] + v[1..];
      if v[0] in SPECIAL && v[0] != '&' && v[0] != '|' {
        assert Encoded(v)[2..] == Encoded(v[1..]);
      } else {
        assert Encoded(v)[1..] == Encoded(v[1..]);
      }
    }
  }

  // ---------------------------------------------------------------- one constraint

  /** A separator that no backslash precedes stays where it is. */
  lemma EncodeAround(a: string, sep: char, b: string)
    requires !EndsWith(a, '\\') && sep != '\\'
    ensures EncodeOnce(a + ([sep] + b)) == EncodeOnce(a) + ([sep] + EncodeOnce(b))
  {
    EncodeAppend(a, [sep] + b);
    EncodeStep([sep] + b);
    assert ([sep] + b)[1..] == b;
  }

  function EncodedAll(values: seq<string>): (r: seq<string>)
    ensures |r| == |values|
    ensures forall i :: 0 <= i < |values| ==> r[i] == Encoded(values[i])
  {
    seq(|values|, i requires 0 <= i < |values| => Encoded(values[i]))
  }

  /** The values of one constraint, escaped, joined and encoded. */
  lemma {:induction false} EncodeValues(values: seq<string>)
    requires Separable(values)
    ensures EncodeOnce(Join(EscapeAll(values), "|")) == Join(EncodedAll(values), "|")
  {
    if |values| > 1 {
      var rest := Join(EscapeAll(values[1..]), "|");
      EncodeValues(values[1..]);
      assert EscapeAll(values)[1..] == EscapeAll(values[1..]);
      assert EncodedAll(values)[1..] == EncodedAll(values[1..]);
      var head := Escape(values[0], SPECIAL);
      EscapeEnd(values[0], SPECIAL);
      assert Join(EscapeAll(values), "|") == head + ("|" + rest);
      EncodeAround(head, '|', rest);
    }
  }

  /** The end of the joined values is the end of the last one. */
  lemma {:induction false} JoinedEnd(values: seq<string>)
    requires values != []
    ensures EndsWith(Join(EscapeAll(values), "|"), '\\') <==> EndsWith(values[|values| - 1], '\\')
  {
    EscapeEnd(values[0], SPECIAL);
    if |values| > 1 {
      JoinedEnd(values[1..]);
      assert EscapeAll(values)[1..] == EscapeAll(values[1..]);
      var rest := Join(EscapeAll(values[1..]), "|");
      assert Join(EscapeAll(values), "|") == Escape(values[0], SPECIAL) + "|" + rest;
    }
  }

  lemma {:induction false} EncodePlain(s: string)
    requires '\\' !in s
    ensures EncodeOnce(s) == s
  {
    if s != "" {
      assert forall c :: c in s[1..] ==> c in s;
      EncodePlain(s[1..]);
      assert s == [s[0]] + s[1..];
    }
  }

  /** The part of a printed constraint ahead of its values. */
  function Head(c: Constraint): string {
    match (c.field, c.op)
    case (Some(f), Some(op)) => f + OpText(op)
    case _ => ""
  }

  function EncodedPiece(c: Constraint): string {
    Head(c) + Join(EncodedAll(c.value), "|")
  }

  /** A printed constraint is its head followed by the joined values. */
  lemma PrintedIsHeadAndValues(c: Constraint)
    requires c.field.Some? <==> c.op.Some?
    ensures PrintConstraint(c) == Head(c) + Join(EscapeAll(c.value), "|")
  {
  }

  lemma EncodePrinted(c: Constraint)
    requires PrintableConstraint(c) && Separable(c.value)
    ensures EncodeOnce(PrintConstraint(c)) == EncodedPiece(c)
    ensures EndsWith(PrintConstraint(c), '\\') <==> EndsWith(c.value[|c.value| - 1], '\\')
  {
    var values := Join(EscapeAll(c.value), "|");
    PrintedIsHeadAndValues(c);
    EncodeValues(c.value);
    JoinedEnd(c.value);
    EncodePlain(Head(c));
    EncodeAppend(Head(c), values);
  }

  lemma {:induction false} JoinedHasOnly(parts: seq<string>, c: char)
    ensures c in Join(parts, "|") <==> (exists p :: p in parts && c in p) || (c == '|' && |parts| > 1)
  {
    if |parts| > 1 {
      JoinedHasOnly(parts[1..], c);
      assert parts == [parts[0]] + parts[1..];
    } else if |parts| == 1 {
      assert parts == [parts[0]];
    }
  }

  lemma EncodedPieceHasNoAmp(c: Constraint)
    requires PrintableConstraint(c)
    ensures '&' !in EncodedPiece(c)
  {
    JoinedHasOnly(EncodedAll(c.value), '&');
    forall p | p in EncodedAll(c.value) ensures '&' !in p {
      var i :| 0 <= i < |c.value| && EncodedAll(c.value)[i] == p;
      EncodedHasNoSeparators(c.value[i]);
    }
  }

  /** The joined, encoded values come back one by one. */
  lemma ValuesComeBack(values: seq<string>)
    requires values != [] && forall v :: v in values ==> ControlFree(v)
    ensures DecodeAll(Split(Join(EncodedAll(values), "|"), '|')) == values
  {
    var parts := EncodedAll(values);
    forall p | p in parts ensures '|' !in p {
      var i :| 0 <= i < |values| && parts[i] == p;
      EncodedHasNoSeparators(values[i]);
    }
    SplitOfJoin(parts, '|');
    forall i | 0 <= i < |values| ensures Decode(parts[i]) == values[i] {
      DecodeOfEncoded(values[i]);
    }
  }

  /** In encoded text every operator character has a backslash before it. */
  predicate Guarded(s: string) {
    forall i :: 0 <= i < |s| && s[i] in {'=', '!', '~', '>', '<'} ==> i > 0 && s[i - 1] == '\\'
  }

  lemma GuardedAppend(a: string, b: string)
    requires Guarded(a) && Guarded(b)
    ensures Guarded(a + b)
  {
    forall i | 0 <= i < |a + b| && (a + b)[i] in {'=', '!', '~', '>', '<'}
      ensures i > 0 && (a + b)[i - 1] == '\\'
    {
      if i >= |a| {
        assert b[i - |a|] == (a + b)[i];
        assert b[i - |a| - 1] == (a + b)[i - 1];
      }
    }
  }

  lemma {:induction false} EncodedIsGuarded(v: string)
    ensures Guarded(Encoded(v))
  {
    if v != "" {
      EncodedCons(v);
      EncodedIsGuarded(v[1..]);
      var first := if v[0] == '&' then [BEL] else if v[0] == '|' then [BS]
                   else if v[0] in SPECIAL then ['\\', v[0]] else [v[0]];
      GuardedAppend(first, Encoded(v[1..]));
    }
  }

  lemma {:induction false} JoinedIsGuarded(values: seq<string>)
    ensures Guarded(Join(EncodedAll(values), "|"))
  {
    if |values| >= 1 {
      EncodedIsGuarded(values[0]);
    }
    if |values| > 1 {
      JoinedIsGuarded(values[1..]);
      assert EncodedAll(values)[1..] == EncodedAll(values[1..]);
      GuardedAppend(Encoded(values[0]), "|");
      GuardedAppend(Encoded(values[0]) + "|", Join(EncodedAll(values[1..]), "|"));
    }
  }

  /** Guarded text is never read as a filter. */
  lemma {:induction false} GuardedIsNotCaptured(s: string, i: nat)
    requires Guarded(s) && 1 <= i
    ensures Capture(s, i) == None
    decreases |s| - i
  {
    if i < |s| && s[i - 1] != '\\' {
      GuardedIsNotCaptured(s, i + 1);
    }
  }

  /** Inside an admissible field the tokenizer moves on. */
  lemma FieldIsPassed(f: string, op: Operator, t: string, i: nat)
    requires FieldOk(f, op) && op != And && op != Or && '\n' !in t
    requires 1 <= i < |f|
    ensures var s := f + OpText(op) + t; Capture(s, i) == Capture(s, i + 1)
  {
    var s, h := f + OpText(op) + t, f + OpText(op);
    assert s[i - 1] == f[i - 1];
    assert s[i] == h[i] && s[i + 1] == h[i + 1];
    if OpAt(s, i).Some? {
      assert OpAt(h, i) == OpAt(s, i);
      NewlineAfterOperator(f, s, i);
    }
  }

  /** The tokenizer runs over an admissible field and stops at its operator. */
  lemma {:induction false} FieldIsCaptured(f: string, op: Operator, t: string, i: nat)
    requires FieldOk(f, op) && op != And && op != Or && '\n' !in t && !StartsWith(t, '=')
    requires 1 <= i <= |f|
    ensures Capture(f + OpText(op) + t, i) == Some((|f|, op))
    decreases |f| - i
  {
    var s := f + OpText(op) + t;
    assert s[i - 1] == f[i - 1];
    assert s[i - 1] != '\\' && i < |s| by {
      assert f[i - 1] in f;
    }
    if i == |f| {
      OperatorAfterField(f, op, t);
    } else {
      FieldIsCaptured(f, op, t, i + 1);
      FieldIsPassed(f, op, t, i);
    }
  }

  lemma OperatorAfterField(f: string, op: Operator, t: string)
    requires op != And && op != Or && !StartsWith(t, '=')
    ensures var s := f + OpText(op) + t; OpAt(s, |f|) == Some(op) && s[|f| + |OpText(op)|..] == t
  {
    var s := f + OpText(op) + t;
    assert s[|f|] == OpText(op)[0];
    if |OpText(op)| == 2 {
      assert s[|f| + 1] == OpText(op)[1];
    } else if t != "" {
      assert s[|f| + 1] == t[0];
    }
  }

  lemma NewlineAfterOperator(f: string, s: string, i: nat)
    requires f <= s && i < |f| && i + 1 < |s| && OpAt(s, i).Some? && '\n' in f[i..]
    ensures '\n' in s[i + |OpText(OpAt(s, i).value)|..]
  {
    var k :| i <= k < |f| && f[k] == '\n';
    var n := i + |OpText(OpAt(s, i).value)|;
    assert s[k] == '\n';
    assert k != i;
    assert n == i + 2 ==> s[i + 1] != '\n';
    assert s[n..][k - n] == '\n';
  }

  /** A field, an operator and text on one line are read as a filter. */
  lemma TokenizedFilter(f: string, op: Operator, t: string)
    requires FieldOk(f, op) && op != And && op != Or && '\n' !in t && !StartsWith(t, '=')
    ensures ParsePiece(f + OpText(op) + t) == Filter(f, op, DecodeAll(Split(t, '|')))
  {
    FieldIsCaptured(f, op, t, 1);
    var s := f + OpText(op) + t;
    assert s[..|f|] == f && s[|f| + |OpText(op)|..] == t;
  }

  lemma PieceComesBack(c: Constraint)
    requires PrintableConstraint(c)
    ensures ParsePiece(EncodedPiece(c)) == c
  {
    var t := Join(EncodedAll(c.value), "|");
    ValuesComeBack(c.value);
    JoinedIsGuarded(c.value);
    if c.field.Some? {
      var f, op := c.field.value, c.op.value;
      forall p | p in EncodedAll(c.value) ensures '\n' !in p {
        var i :| 0 <= i < |c.value| && EncodedAll(c.value)[i] == p;
        EncodedHasNoSeparators(c.value[i]);
      }
      JoinedHasOnly(EncodedAll(c.value), '\n');
      TokenizedFilter(f, op, t);
    } else {
      assert EncodedPiece(c) == t;
      GuardedIsNotCaptured(t, 1);
    }
  }

  // ---------------------------------------------------------------- the whole query

  function EncodedPieces(cs: seq<Constraint>): (r: seq<string>)
    ensures |r| == |cs|
    ensures forall i :: 0 <= i < |cs| ==> r[i] == EncodedPiece(cs[i])
  {
    seq(|cs|, i requires 0 <= i < |cs| => EncodedPiece(cs[i]))
  }

  lemma SeparableTail(cs: seq<Constraint>)
    requires cs != [] && SeparableConstraints(cs)
    ensures SeparableConstraints(cs[1..])
  {
    var rest := cs[1..];
    forall i | 0 <= i < |rest| - 1 && rest[i].value != []
      ensures !EndsWith(rest[i].value[|rest[i].value| - 1], '\\')
    {
      assert rest[i] == cs[i + 1];
    }
  }

  lemma PrintCons(cs: seq<Constraint>)
    requires |cs| > 1
    ensures Print(cs) == PrintConstraint(cs[0]) + ("&" + Print(cs[1..]))
  {
    assert PrintConstraints(cs)[1..] == PrintConstraints(cs[1..]);
  }

  lemma JoinPieces(cs: seq<Constraint>)
    requires |cs| > 1
    ensures Join(EncodedPieces(cs), "&") == EncodedPiece(cs[0]) + ("&" + Join(EncodedPieces(cs[1..]), "&"))
  {
    assert EncodedPieces(cs)[1..] == EncodedPieces(cs[1..]);
  }

  lemma {:induction false} EncodePrint(cs: seq<Constraint>)
    requires forall c :: c in cs ==> PrintableConstraint(c)
    requires SeparableConstraints(cs)
    ensures EncodeOnce(Print(cs)) == Join(EncodedPieces(cs), "&")
  {
    if |cs| == 1 {
      EncodePrinted(cs[0]);
      assert Print(cs) == PrintConstraint(cs[0]);
    } else if |cs| > 1 {
      var first, rest := PrintConstraint(cs[0]), Print(cs[1..]);
      assert !EndsWith(first, '\\') && EncodeOnce(first) == EncodedPiece(cs[0]) by {
        EncodePrinted(cs[0]);
      }
      assert EncodeOnce(rest) == Join(EncodedPieces(cs[1..]), "&") by {
        SeparableTail(cs);
        EncodePrint(cs[1..]);
      }
      PrintCons(cs);
      EncodeAround(first, '&', rest);
      JoinPieces(cs);
    }
  }

  lemma EmptyPiece(c: Constraint)
    requires PrintableConstraint(c) && EncodedPiece(c) == ""
    ensures c == FullText([""])
  {
    assert Head(c) == "";
    EncodedHasNoSeparators(c.value[0]);
    if |c.value| > 1 {
      JoinedHasOnly(EncodedAll(c.value), '|');
    }
  }

  lemma PiecesSplit(cs: seq<Constraint>)
    requires cs != [] && forall c :: c in cs ==> PrintableConstraint(c)
    ensures Split(Join(EncodedPieces(cs), "&"), '&') == EncodedPieces(cs)
  {
    var pieces := EncodedPieces(cs);
    forall p | p in pieces ensures '&' !in p {
      var i :| 0 <= i < |cs| && pieces[i] == p;
      EncodedPieceHasNoAmp(cs[i]);
    }
    SplitOfJoin(pieces, '&');
  }

  lemma PiecesComeBack(cs: seq<Constraint>)
    requires forall c :: c in cs ==> PrintableConstraint(c)
    ensures ParsePieces(EncodedPieces(cs)) == cs
  {
    forall i | 0 <= i < |cs| ensures ParsePiece(EncodedPieces(cs)[i]) == cs[i] {
      PieceComesBack(cs[i]);
    }
  }

  lemma ParseOfPieces(q: string, pieces: seq<string>)
    requires EncodeOnce(q) == Join(pieces, "&") && pieces != [] && pieces[|pieces| - 1] != ""
    requires Split(Join(pieces, "&"), '&') == pieces
    ensures Parse(q) == ParsePieces(pieces)
  {
    EncodeIsOnePass(q);
    NothingDropped(Join(pieces, "&"), pieces);
  }

  lemma NothingDropped(e: string, pieces: seq<string>)
    requires Split(e, '&') == pieces && pieces[|pieces| - 1] != ""
    ensures SplitTerminator(e, '&') == pieces
  {
  }

  lemma PrintableRoundTrips(cs: seq<Constraint>)
    requires Printable(cs)
    ensures Parse(Print(cs)) == cs
  {
    if cs == [] {
      ParseNothing();
    } else {
      var pieces := EncodedPieces(cs);
      assert Parse(Print(cs)) == ParsePieces(pieces) by {
        LastPiece(cs);
        EncodePrint(cs);
        PiecesSplit(cs);
        ParseOfPieces(Print(cs), pieces);
      }
      PiecesComeBack(cs);
    }
  }

  lemma ParseNothing()
    ensures Parse("") == []
  {
    EncodeIsOnePass("");
    assert Split("", '&') == [""];
  }

  lemma LastPiece(cs: seq<Constraint>)
    requires cs != [] && Printable(cs)
    ensures EncodedPieces(cs)[|cs| - 1] != ""
  {
    var c := cs[|cs| - 1];
    if EncodedPiece(c) == "" {
      EmptyPiece(c);
    }
  }

  // ------------------------------------------------- necessity: what the parser can produce

  lemma {:induction false} DecodedIsControlFree(s: string)
    ensures ControlFree(Decode(s))
    ensures '\n' !in s ==> '\n' !in Decode(s)
  {
    DecodeIsOnePass(s);
    UnescapeChars(s);
  }

  lemma {:induction false} UnescapeChars(s: string)
    ensures ControlFree(Unescape(s))
    ensures '\n' !in s ==> '\n' !in Unescape(s)
  {
    if s == "" {
    } else if s[0] != '\\' {
      UnescapeChars(s[1..]);
    } else if |s| >= 2 {
      UnescapeChars(s[2..]);
    }
  }

  lemma DecodedValues(t: string)
    ensures forall v :: v in DecodeAll(Split(t, '|')) ==> ControlFree(v) && ('\n' !in t ==> '\n' !in v)
  {
    var parts := Split(t, '|');
    SplitParts(t, '|');
    forall i | 0 <= i < |parts|
      ensures ControlFree(Decode(parts[i])) && ('\n' !in t ==> '\n' !in Decode(parts[i]))
    {
      assert parts[i] in parts;
      DecodedIsControlFree(parts[i]);
    }
  }

  /** Every parsed constraint is printable on its own. */
  lemma ParsedPieceIsPrintable(s: string)
    requires '&' !in s
    ensures PrintableConstraint(ParsePiece(s))
  {
    var r := Capture(s);
    if r == None {
      DecodedValues(s);
    } else {
      var (i, op) := r.value;
      assert op != And && op != Or && '\n' !in s[i + |OpText(op)|..] by {
        CaptureIsLazyMatch(s);
      }
      DecodedValues(s[i + |OpText(op)|..]);
      CapturedFieldIsOk(s);
    }
  }

  lemma ParsedIsPrintable(q: string, c: Constraint)
    requires c in Parse(q)
    ensures PrintableConstraint(c)
  {
    var pieces := SplitTerminator(Encode(q), '&');
    var i :| 0 <= i < |pieces| && c == ParsePiece(pieces[i]);
    SplitParts(Encode(q), '&');
    assert pieces[i] == Split(Encode(q), '&')[i];
    ParsedPieceIsPrintable(pieces[i]);
  }

  lemma CapturedFieldIsOk(s: string)
    requires '&' !in s && Capture(s).Some?
    ensures var (i, op) := Capture(s).value; FieldOk(s[..i], op)
  {
    CaptureIsLazyMatch(s);
    var (i, op) := Capture(s).value;
    var h := s[..i] + OpText(op);
    assert h == s[..i + |OpText(op)|] by {
      assert s[..i + |OpText(op)|] == s[..i] + s[i..i + |OpText(op)|];
    }
    forall j | 1 <= j < i && OpAt(h, j).Some?
      ensures '\n' in s[..i][j..]
    {
      assert s[j] == h[j] && s[j + 1] == h[j + 1];
      var o := OpAt(s, j).value;
      assert s[..i] == s[..j] + s[j..i];
      MatchesAt(s, j);
      assert !Matches(s, j, o);
      NewlineInField(s, i, op, j + |OpText(o)|, j);
    }
  }

  /** A newline past `m` but not after the operator at `i` lies inside the field. */
  lemma NewlineInField(s: string, i: nat, op: Operator, m: nat, j: nat)
    requires Matches(s, i, op) && j <= m <= |s| && j < i
    requires '\n' in s[m..]
    ensures '\n' in s[..i][j..]
  {
    var k :| m <= k < |s| && s[k] == '\n';
    OneLineAfter(s, i, op);
    NewlineBefore(s, i, k);
    assert s[..i][j..][k - j] == '\n';
  }

  lemma NewlineBefore(s: string, i: nat, k: nat)
    requires i <= |s| && k < |s| && s[k] == '\n' && '\n' !in s[i..]
    ensures k < i
  {
    assert forall l :: i <= l < |s| ==> s[l] == s[i..][l - i];
  }

  lemma OneLineAfter(s: string, i: nat, op: Operator)
    requires Matches(s, i, op)
    ensures '\n' !in s[i..]
  {
    var n := i + |OpText(op)|;
    assert s[i..] == s[i..n] + s[n..];
    assert '\n' !in OpText(op);
  }

  // ------------------------------------------------- necessity: counting separators

  /** The separators of `values` that printing leaves unescaped by a preceding backslash. */
  function LiveSeparators(values: seq<string>): nat {
    if |values| <= 1 then 0
    else (if EndsWith(values[0], '\\') then 0 else 1) + LiveSeparators(values[1..])
  }

  lemma {:induction false} LiveSeparatorsBound(values: seq<string>)
    requires values != []
    ensures LiveSeparators(values) <= |values| - 1
    ensures LiveSeparators(values) == |values| - 1 ==> Separable(values)
  {
    if |values| > 1 {
      LiveSeparatorsBound(values[1..]);
      if LiveSeparators(values) == |values| - 1 {
        forall i | 0 <= i < |values| - 1 ensures !EndsWith(values[i], '\\') {
          if i > 0 {
            assert values[i] == values[1..][i - 1];
          }
        }
      }
    }
  }

  lemma {:induction false} EscapedHasNoSeparators(v: string, c: char, escaped: bool)
    requires c == '&' || c == '|'
    ensures Unescaped(Escape(v, SPECIAL), c, escaped) == 0
  {
    if v != "" {
      var rest := Escape(v[1..], SPECIAL);
      var t := Escape(v, SPECIAL);
      if v[0] in SPECIAL {
        assert t[1..] == [v[0]] + rest;
        assert t[1..][1..] == rest;
      } else {
        assert t[1..] == rest;
      }
      EscapedHasNoSeparators(v[1..], c, v[0] == '\\');
    }
  }

  lemma {:induction false} CountJoinedValues(values: seq<string>, c: char)
    requires c == '&' || c == '|'
    ensures Unescaped(Join(EscapeAll(values), "|"), c) == if c == '|' then LiveSeparators(values) else 0
  {
    if |values| >= 1 {
      EscapedHasNoSeparators(values[0], c, false);
    }
    if |values| > 1 {
      CountJoinedValues(values[1..], c);
      assert EscapeAll(values)[1..] == EscapeAll(values[1..]);
      var head, rest := Escape(values[0], SPECIAL), Join(EscapeAll(values[1..]), "|");
      EscapeEnd(values[0], SPECIAL);
      assert Join(EscapeAll(values), "|") == head + ("|" + rest);
      UnescapedAppend(head, "|" + rest, c);
      assert ("|" + rest)[1..] == rest;
    }
  }

  lemma {:induction false} UnescapedPlain(s: string, c: char)
    requires '\\' !in s
    ensures Unescaped(s, c) == Count(s, c)
  {
    if s != "" {
      assert s == [s[0]] + s[1..];
      UnescapedPlain(s[1..], c);
    }
  }

  /** Values of a constraint, plus the pipes in its field: conserved by printing and parsing. */
  function Weight(c: Constraint): nat {
    |c.value| + if c.field.Some? then Count(c.field.value, '|') else 0
  }

  function TotalWeight(cs: seq<Constraint>): nat {
    if cs == [] then 0 else Weight(cs[0]) + TotalWeight(cs[1..])
  }

  lemma NoPipeInOperator(op: Operator)
    requires op != Or
    ensures Count(OpText(op), '|') == 0
  {
    CountZero(OpText(op), '|');
  }

  lemma PartsWeight(t: string)
    ensures |DecodeAll(Split(t, '|'))| == Count(t, '|') + 1
  {
    SplitParts(t, '|');
  }

  lemma FilterWeight(f: string, op: Operator, t: string)
    requires op != Or
    ensures Weight(Filter(f, op, DecodeAll(Split(t, '|')))) == Count(f + (OpText(op) + t), '|') + 1
  {
    CountAppend(f, OpText(op) + t, '|');
    CountAppend(OpText(op), t, '|');
    NoPipeInOperator(op);
    PartsWeight(t);
  }

  lemma ThreeParts(s: string, i: nat, n: nat)
    requires i <= n <= |s|
    ensures s == s[..i] + (s[i..n] + s[n..])
  {
  }

  lemma CapturedText(s: string, i: nat, op: Operator)
    requires Capture(s) == Some((i, op))
    ensures op != And && op != Or
    ensures s == s[..i] + (OpText(op) + s[i + |OpText(op)|..])
  {
    CaptureIsLazyMatch(s);
    ThreeParts(s, i, i + |OpText(op)|);
  }

  lemma ParsedWeight(s: string)
    ensures Weight(ParsePiece(s)) == Count(s, '|') + 1
  {
    var r := Capture(s);
    if r == None {
      PartsWeight(s);
    } else {
      var (i, op) := r.value;
      CapturedText(s, i, op);
      FilterWeight(s[..i], op, s[i + |OpText(op)|..]);
    }
  }

  lemma {:induction false} ParsedPiecesWeight(pieces: seq<string>)
    ensures TotalWeight(ParsePieces(pieces)) == Count(Join(pieces, "&"), '|') + |pieces|
  {
    if pieces != [] {
      ParsedWeight(pieces[0]);
      ParsedPiecesWeight(pieces[1..]);
      assert ParsePieces(pieces)[1..] == ParsePieces(pieces[1..]);
      if |pieces| > 1 {
        var rest := Join(pieces[1..], "&");
        CountAppend(pieces[0] + "&", rest, '|');
        CountAppend(pieces[0], "&", '|');
      }
    }
  }

  /** Dropping a trailing empty piece drops no `|`. */
  lemma {:induction false} JoinDropLast(pieces: seq<string>, c: char)
    requires pieces != [] && pieces[|pieces| - 1] == "" && c != '&'
    ensures Count(Join(pieces[..|pieces| - 1], "&"), c) == Count(Join(pieces, "&"), c)
  {
    if |pieces| > 1 {
      JoinDropLast(pieces[1..], c);
      var init := pieces[..|pieces| - 1];
      assert init[1..] == pieces[1..][..|pieces| - 2];
      CountAppend(pieces[0] + "&", Join(pieces[1..], "&"), c);
      CountAppend(pieces[0], "&", c);
      if |pieces| > 2 {
        CountAppend(init[0] + "&", Join(init[1..], "&"), c);
      }
    }
  }

  lemma JoinKept(pieces: seq<string>, kept: seq<string>, c: char)
    requires pieces != [] && c != '&'
    requires kept == pieces || (pieces[|pieces| - 1] == "" && kept == pieces[..|pieces| - 1])
    ensures Count(Join(kept, "&"), c) == Count(Join(pieces, "&"), c)
  {
    if kept != pieces {
      JoinDropLast(pieces, c);
    }
  }

  lemma KeptPieces(s: string)
    ensures var pieces, kept := Split(s, '&'), SplitTerminator(s, '&');
      kept == pieces || (pieces[|pieces| - 1] == "" && kept == pieces[..|pieces| - 1])
  {
  }

  lemma TerminatorCount(s: string, c: char)
    requires c != '&'
    ensures Count(Join(SplitTerminator(s, '&'), "&"), c) == Count(s, c)
  {
    var pieces, kept := Split(s, '&'), SplitTerminator(s, '&');
    assert Join(pieces, "&") == s by {
      assert ['&'] == "&";
      JoinOfSplit(s, '&');
    }
    assert Count(Join(kept, "&"), c) == Count(Join(pieces, "&"), c) by {
      KeptPieces(s);
      JoinKept(pieces, kept, c);
    }
  }

  lemma TerminatorWeight(s: string)
    ensures TotalWeight(ParsePieces(SplitTerminator(s, '&'))) == Count(s, '|') + |SplitTerminator(s, '&')|
  {
    TerminatorCount(s, '|');
    ParsedPiecesWeight(SplitTerminator(s, '&'));
  }

  lemma ParseWeight(q: string)
    ensures TotalWeight(Parse(q)) == Unescaped(q, '|') + |Parse(q)|
  {
    EncodeIsOnePass(q);
    EncodeCount(q, '|');
    TerminatorWeight(Encode(q));
  }

  lemma CountPrinted(c: Constraint, sep: char)
    requires PrintableConstraint(c) && (sep == '&' || sep == '|')
    ensures Unescaped(PrintConstraint(c), sep)
         == if sep == '&' then 0 else Weight(c) - |c.value| + LiveSeparators(c.value)
    ensures EndsWith(PrintConstraint(c), '\\') <==> EndsWith(c.value[|c.value| - 1], '\\')
  {
    var h, t := Head(c), Join(EscapeAll(c.value), "|");
    PrintedIsHeadAndValues(c);
    UnescapedAppend(h, t, sep);
    UnescapedPlain(h, sep);
    CountJoinedValues(c.value, sep);
    JoinedEnd(c.value);
    if c.field.Some? {
      var f, op := c.field.value, OpText(c.op.value);
      CountAppend(f, op, sep);
      CountZero(f, '&');
      CountZero(op, sep);
    }
  }

  lemma CountFirst(cs: seq<Constraint>)
    requires |cs| > 1 && PrintableConstraint(cs[0])
    ensures Unescaped(Print(cs), '&') == Live(PrintConstraint(cs[0])) + Unescaped(Print(cs[1..]), '&')
    ensures Unescaped(Print(cs), '|')
         == Weight(cs[0]) - |cs[0].value| + LiveSeparators(cs[0].value) + Unescaped(Print(cs[1..]), '|')
  {
    CountPrinted(cs[0], '&');
    CountPrinted(cs[0], '|');
    PrintCons(cs);
    CountAcrossAmp(PrintConstraint(cs[0]), Print(cs[1..]));
  }

  lemma PrintOfOne(c: Constraint)
    ensures Print([c]) == PrintConstraint(c) && TotalWeight([c]) == Weight(c)
  {
    assert [c][1..] == [];
  }

  /** Printed separators never exceed what the constraints call for, and equal it only when none is lost. */
  predicate CountOk(cs: seq<Constraint>) {
    && Unescaped(Print(cs), '&') <= |cs| - 1
    && Unescaped(Print(cs), '|') + |cs| <= TotalWeight(cs)
    && (Unescaped(Print(cs), '&') == |cs| - 1 && Unescaped(Print(cs), '|') + |cs| == TotalWeight(cs)
        ==> SeparableConstraints(cs))
  }

  lemma CountOne(c: Constraint)
    requires PrintableConstraint(c)
    ensures CountOk([c])
  {
    CountPrinted(c, '&');
    CountPrinted(c, '|');
    LiveSeparatorsBound(c.value);
    PrintOfOne(c);
  }

  lemma CountOneMore(cs: seq<Constraint>)
    requires |cs| > 1 && PrintableConstraint(cs[0]) && CountOk(cs[1..])
    ensures CountOk(cs)
  {
    CountFirst(cs);
    LiveSeparatorsBound(cs[0].value);
    if Unescaped(Print(cs), '&') == |cs| - 1 && Unescaped(Print(cs), '|') + |cs| == TotalWeight(cs) {
      CountPrinted(cs[0], '&');
      SeparableCons(cs);
    }
  }

  lemma {:induction false} CountPrint(cs: seq<Constraint>)
    requires forall c :: c in cs ==> PrintableConstraint(c)
    requires cs != []
    ensures CountOk(cs)
  {
    if |cs| == 1 {
      assert cs == [cs[0]];
      CountOne(cs[0]);
    } else {
      CountPrint(cs[1..]);
      CountOneMore(cs);
    }
  }

  /** An `&` written after `first` counts unless a backslash precedes it. */
  function Live(first: string): nat {
    if EndsWith(first, '\\') then 0 else 1
  }

  lemma CountAcrossAmp(first: string, rest: string)
    ensures Unescaped(first + ("&" + rest), '&') == Unescaped(first, '&') + Live(first) + Unescaped(rest, '&')
    ensures Unescaped(first + ("&" + rest), '|') == Unescaped(first, '|') + Unescaped(rest, '|')
  {
    UnescapedAppend(first, "&" + rest, '&');
    UnescapedAppend(first, "&" + rest, '|');
    assert ("&" + rest)[1..] == rest;
  }

  lemma SeparableCons(cs: seq<Constraint>)
    requires |cs| > 1 && cs[0].value != []
    requires Separable(cs[0].value) && !EndsWith(cs[0].value[|cs[0].value| - 1], '\\')
    requires SeparableConstraints(cs[1..])
    ensures SeparableConstraints(cs)
  {
    assert cs == [cs[0]] + cs[1..];
    forall i | 0 <= i < |cs| - 1 && cs[i].value != []
      ensures !EndsWith(cs[i].value[|cs[i].value| - 1], '\\')
    {
      if i > 0 {
        assert cs[i] == cs[1..][i - 1];
      }
    }
  }

  /** A final empty full-text search leaves the printed query without a last piece. */
  lemma EmptyPrint()
    ensures Print([FullText([""])]) == ""
  {
    PrintOfOne(FullText([""]));
    assert EscapeAll([""]) == [""];
  }

  predicate EndsInEmpty(cs: seq<Constraint>) {
    Terminated(Print(cs)) && (|cs| > 1 ==> EndsWith(Print(cs), '&'))
  }

  lemma EmptyLastAfter(cs: seq<Constraint>)
    requires |cs| > 1 && PrintableConstraint(cs[0]) && Separable(cs[0].value) && EndsInEmpty(cs[1..])
    requires !EndsWith(cs[0].value[|cs[0].value| - 1], '\\')
    ensures EndsInEmpty(cs)
  {
    EncodePrinted(cs[0]);
    PrintCons(cs);
    TerminatedAfterAmp(PrintConstraint(cs[0]), Print(cs[1..]));
  }

  lemma {:induction false} PrintOfEmptyLast(cs: seq<Constraint>)
    requires cs != [] && cs[|cs| - 1] == FullText([""])
    requires forall c :: c in cs ==> PrintableConstraint(c)
    requires SeparableConstraints(cs)
    ensures EndsInEmpty(cs)
  {
    if |cs| == 1 {
      assert cs == [FullText([""])];
      EmptyPrint();
    } else {
      SeparableTail(cs);
      PrintOfEmptyLast(cs[1..]);
      EmptyLastAfter(cs);
    }
  }

  lemma TerminatedAfterAmp(first: string, rest: string)
    requires !EndsWith(first, '\\') && Terminated(rest)
    ensures Terminated(first + ("&" + rest)) && EndsWith(first + ("&" + rest), '&')
  {
    var s := first + ("&" + rest);
    if rest == "" {
      assert first != "" ==> s[|s| - 2] == first[|first| - 1];
    } else {
      assert s[|s| - 1] == rest[|rest| - 1];
      assert s[|s| - 2] == if |rest| >= 2 then rest[|rest| - 2] else '&';
    }
  }

  /**
   * Main result. A list of constraints survives printing by the documented grammar and parsing
   * if and only if it is printable: a condition on the constraints alone.
   */
  lemma RoundTrip(cs: seq<Constraint>)
    ensures Parse(Print(cs)) == cs <==> Printable(cs)
  {
    if Printable(cs) {
      PrintableRoundTrips(cs);
    }
    if Parse(Print(cs)) == cs && cs != [] {
      var q := Print(cs);
      forall c | c in cs ensures PrintableConstraint(c) {
        ParsedIsPrintable(q, c);
      }
      ParseLength(q);
      ParseWeight(q);
      CountPrint(cs);
      if cs[|cs| - 1] == FullText([""]) {
        PrintOfEmptyLast(cs);
      }
    }
  }
}
