/** `escape_q` and the queries that hold an escaped value. */
module QueryEscape {
  import opened Results
  import opened Strings
  import opened Query
  import opened QueryCodec
  import opened QueryRoundTrip
  import opened QueryCompose

  function EscapeQ(v: string): string {
    Replace(Replace(Replace(v, "\\", "\\\\"), "&", "\\&"), "=", "\\=")
  }

  const Q_SPECIAL := {'\\', '&', '='}

  /** The three replacements of `escape_q` act as one escaping pass. */
  lemma {:induction false} EscapeQIsEscape(v: string)
    ensures EscapeQ(v) == Escape(v, {'\\', '&', '='})
  {
    if v != "" {
      var c, rest := v[0], v[1..];
      EscapeQIsEscape(rest);
      assert v == [c] + rest;
      var r1 := Replace(rest, "\\", "\\\\");
      var r2 := Replace(r1, "&", "\\&");
      if c == '\\' {
        ReplaceHit(rest, "\\", "\\\\");
        assert "\\\\" + r1 == ['\\'] + (['\\'] + r1);
        ReplaceSkip('\\', r1, "&", "\\&");
        ReplaceSkip('\\', ['\\'] + r1, "&", "\\&");
        ReplaceSkip('\\', r2, "=", "\\=");
        ReplaceSkip('\\', ['\\'] + r2, "=", "\\=");
      } else if c == '&' {
        ReplaceSkip(c, rest, "\\", "\\\\");
        ReplaceHit(r1, "&", "\\&");
        assert "\\&" + r2 == ['\\'] + (['&'] + r2);
        ReplaceSkip('&', r2, "=", "\\=");
        ReplaceSkip('\\', ['&'] + r2, "=", "\\=");
      } else {
        ReplaceSkip(c, rest, "\\", "\\\\");
        ReplaceSkip(c, r1, "&", "\\&");
        if c == '=' { ReplaceHit(r2, "=", "\\="); } else { ReplaceSkip(c, r2, "=", "\\="); }
      }
    }
  }

  /** Some `|` of the value has a backslash right before it. */
  predicate HasEscapedPipe(v: string) {
    exists i :: 0 <= i < |v| - 1 && v[i] == '\\' && v[i + 1] == '|'
  }

  /** What comes back of a value escaped by `escape_q`: a backslash ahead of a `|` is lost. */
  function Returned(v: string): string {
    if v == "" then ""
    else if |v| >= 2 && v[0] == '\\' && v[1] == '|' then "|" + Returned(v[2..])
    else [Restore(v[0])] + Returned(v[1..])
  }

  lemma {:induction false} EscapeQReturns(v: string)
    ensures Decode(Encode(EscapeQ(v))) == Returned(v)
  {
    EscapeQIsEscape(v);
    EncodeIsOnePass(EscapeQ(v));
    DecodeIsOnePass(Encode(EscapeQ(v)));
    EscapeReturns(v);
  }

  lemma EscapeReturns(v: string)
    ensures Unescape(Passed(v)) == Returned(v)
  {
    PassedIsOnePass(v);
    UnescapePassed(v);
  }

  // ---------------------------------------------------------------- an escaped value, encoded

  /** What the parser's first pass leaves of an escaped value. */
  function Passed(v: string): string {
    EncodeOnce(Escape(v, Q_SPECIAL))
  }

  function PassedChar(c: char): string {
    if c == '&' then [BEL] else if c in Q_SPECIAL then ['\\', c] else [c]
  }

  /** The same in one pass: a pipe after a backslash takes the second of its two backslashes. */
  function PassedText(v: string): string {
    if v == "" then ""
    else if |v| >= 2 && v[0] == '\\' && v[1] == '|' then ['\\', BS] + PassedText(v[2..])
    else PassedChar(v[0]) + PassedText(v[1..])
  }

  lemma {:induction false} PassedIsOnePass(v: string)
    ensures Passed(v) == PassedText(v)
  {
    if v == "" {
    } else if |v| >= 2 && v[0] == '\\' && v[1] == '|' {
      PassedIsOnePass(v[2..]);
      var rest := Escape(v[2..], Q_SPECIAL);
      assert Escape(v, Q_SPECIAL) == "\\\\|" + rest by {
        assert v[1..][1..] == v[2..];
        assert "\\\\" + ("|" + rest) == "\\\\|" + rest;
      }
      PassedPipe(rest);
    } else {
      PassedIsOnePass(v[1..]);
      var rest := Escape(v[1..], Q_SPECIAL);
      EscapeEnd(v[1..], Q_SPECIAL);
      if v[0] in Q_SPECIAL {
        PassedEscape(v[0], rest);
      } else {
        EncodeAppend([v[0]], rest);
        assert EncodeOnce([v[0]]) == [v[0]];
      }
    }
  }

  lemma PassedPipe(rest: string)
    ensures EncodeOnce("\\\\|" + rest) == ['\\', BS] + EncodeOnce(rest)
  {
    EncodeStep("\\\\|" + rest);
    assert ("\\\\|" + rest)[1..] == "\\|" + rest;
    EncodeStep("\\|" + rest);
    assert ("\\|" + rest)[2..] == rest;
  }

  lemma PassedEscape(c: char, rest: string)
    requires c in Q_SPECIAL && !StartsWith(rest, '&')
    requires c == '\\' ==> !StartsWith(rest, '|')
    ensures EncodeOnce(['\\', c] + rest) == PassedChar(c) + EncodeOnce(rest)
  {
    if c == '&' {
      EncodeStep(['\\', c] + rest);
      assert (['\\', c] + rest)[2..] == rest;
    } else {
      EncodeAppend(['\\', c], rest);
      assert EncodeOnce(['\\', c]) == ['\\', c] by {
        assert ['\\', c][1..] == [c];
        assert EncodeOnce([c]) == [c];
      }
    }
  }

  lemma {:induction false} UnescapePassed(v: string)
    ensures Unescape(PassedText(v)) == Returned(v)
  {
    if v == "" {
    } else if |v| >= 2 && v[0] == '\\' && v[1] == '|' {
      UnescapePassed(v[2..]);
      UnescapeCons(BS, PassedText(v[2..]));
    } else {
      UnescapePassed(v[1..]);
      UnescapeCons(if v[0] == '&' then BEL else v[0], PassedText(v[1..]));
    }
  }

  /** An escaped value brings no `&`, no leading `=`, and no newline or pipe of its own. */
  lemma {:induction false} PassedFacts(v: string)
    ensures '&' !in PassedText(v) && !StartsWith(PassedText(v), '=')
    ensures '\n' in PassedText(v) <==> '\n' in v
    ensures '|' in PassedText(v) ==> '|' in v
    ensures '|' in v ==> '|' in PassedText(v) || HasEscapedPipe(v)
    ensures PassedText(v) == "" <==> v == ""
  {
    if v == "" {
    } else if |v| >= 2 && v[0] == '\\' && v[1] == '|' {
      PassedFacts(v[2..]);
      assert v == [v[0], v[1]] + v[2..];
    } else {
      PassedFacts(v[1..]);
      assert v == [v[0]] + v[1..];
      if HasEscapedPipe(v[1..]) {
        EscapedPipeStays(v);
      }
    }
  }

  lemma EscapedPipeStays(v: string)
    requires v != "" && HasEscapedPipe(v[1..])
    ensures HasEscapedPipe(v)
  {
    var i :| 0 <= i < |v[1..]| - 1 && v[1..][i] == '\\' && v[1..][i + 1] == '|';
    assert v[i + 1] == '\\' && v[i + 2] == '|';
  }

  lemma {:induction false} ReturnedExactly(v: string)
    ensures |Returned(v)| <= |v|
    ensures Returned(v) == v <==> ControlFree(v) && !HasEscapedPipe(v)
    ensures |Returned(v)| == |v| ==> !HasEscapedPipe(v)
  {
    if v == "" {
    } else if |v| >= 2 && v[0] == '\\' && v[1] == '|' {
      ReturnedExactly(v[2..]);
      assert HasEscapedPipe(v);
    } else {
      ReturnedExactly(v[1..]);
      assert v == [v[0]] + v[1..];
      if HasEscapedPipe(v) {
        var i :| 0 <= i < |v| - 1 && v[i] == '\\' && v[i + 1] == '|';
        assert v[1..][i - 1] == '\\' && v[1..][i] == '|';
      }
      if HasEscapedPipe(v[1..]) {
        var i :| 0 <= i < |v[1..]| - 1 && v[1..][i] == '\\' && v[1..][i + 1] == '|';
        assert v[i + 1] == '\\' && v[i + 2] == '|';
      }
      assert Returned(v) == v ==> Returned(v[1..]) == v[1..] by {
        assert Returned(v)[1..] == Returned(v[1..]);
      }
    }
  }

  /** `escape_q` is undone by the parser's codec exactly for these values. */
  lemma EscapeQRoundTrip(v: string)
    ensures Decode(Encode(EscapeQ(v))) == v <==> ControlFree(v) && !HasEscapedPipe(v)
  {
    EscapeQReturns(v);
    ReturnedExactly(v);
  }

  // ---------------------------------------------------------------- an escaped value in a query

  /** The escaped value comes back as the one alternative exactly when it holds no pipe and no control code. */
  lemma ValueComesBack(v: string)
    ensures DecodeAll(Split(Passed(v), '|')) == [v] <==> ControlFree(v) && '|' !in v
  {
    var t := Passed(v);
    PassedIsOnePass(v);
    PassedFacts(v);
    SinglePart(t, '|');
    DecodeIsOnePass(t);
    EscapeReturns(v);
    ReturnedExactly(v);
    if |Split(t, '|')| == 1 {
      assert DecodeAll(Split(t, '|')) == [Decode(t)];
    }
  }

  lemma EncodeField(f: string, op: Operator, v: string)
    requires '\\' !in f
    ensures Encode(f + OpText(op) + EscapeQ(v)) == f + OpText(op) + Passed(v)
  {
    var h := f + OpText(op);
    EscapeQIsEscape(v);
    EncodeIsOnePass(h + EscapeQ(v));
    EncodePlain(h);
    EncodeAppend(h, EscapeQ(v));
  }

  /** The query `field operator escaped-value` is read as a filter on that field, for any value on one line. */
  lemma EscapedIsFiltered(f: string, op: Operator, v: string)
    requires op != And && op != Or && FieldOk(f, op) && '\n' !in v
    ensures Parse(f + OpText(op) + EscapeQ(v)) == [Filter(f, op, DecodeAll(Split(Passed(v), '|')))]
  {
    var q, t := f + OpText(op) + EscapeQ(v), Passed(v);
    PassedIsOnePass(v);
    PassedFacts(v);
    EncodeField(f, op, v);
    OnePieceOnly(q);
    TokenizedFilter(f, op, t);
  }

  /**
   * Main result. A filter written with `escape_q` is the filter it looks like if and only if the
   * field is one the grammar can carry and the value has no control code, no pipe and no newline.
   */
  lemma EscapedFilter(f: string, op: Operator, v: string)
    ensures Parse(f + OpText(op) + EscapeQ(v)) == [Filter(f, op, [v])]
       <==> op != And && op != Or && FieldOk(f, op) && ControlFree(v) && '|' !in v && '\n' !in v
  {
    var c := Filter(f, op, [v]);
    if Parse(f + OpText(op) + EscapeQ(v)) == [c] {
      ParsedIsPrintable(f + OpText(op) + EscapeQ(v), c);
      assert v in c.value;
    }
    if op != And && op != Or && FieldOk(f, op) && '\n' !in v {
      EscapedIsFiltered(f, op, v);
      ValueComesBack(v);
    }
  }

  // ---------------------------------------------------------------- an escaped value as a query

  /**
   * The text reads as a filter once escaped: an operator that `escape_q` leaves alone, some text but
   * no backslash and no `=` before it, and no newline after it.
   */
  predicate ReadAsFilter(v: string) {
    exists i :: 1 <= i < |v| && FilterAt(v, i)
  }

  predicate FilterAt(v: string, i: nat)
    requires i < |v|
  {
    v[i] in {'~', '>', '<'} && '\\' !in v[..i] && '=' !in v[..i] && '\n' !in v[i + 1..]
  }

  lemma SliceCons(c: char, rest: string, j: nat)
    requires 0 < j <= |rest| + 1
    ensures ([c] + rest)[..j] == [c] + rest[..j - 1] && ([c] + rest)[j..] == rest[j - 1..]
  {
  }

  lemma PassedCons(c: char, w: string)
    requires '|' !in w
    ensures PassedText([c] + w) == PassedChar(c) + PassedText(w)
  {
    assert ([c] + w)[1..] == w;
  }

  /** Up to the first backslash the encoded text is in step with the value. */
  lemma {:induction false} InStep(v: string, j: nat)
    requires '|' !in v && j <= |PassedText(v)| && '\\' !in PassedText(v)[..j]
    ensures j <= |v| && '\\' !in v[..j] && '=' !in v[..j] && PassedText(v)[j..] == PassedText(v[j..])
    decreases j
  {
    if j > 0 {
      var c, w := v[0], v[1..];
      assert v == [c] + w;
      PassedCons(c, w);
      assert PassedText(v)[..j][0] == PassedText(v)[0] == PassedChar(c)[0];
      SliceCons(PassedChar(c)[0], PassedText(w), j);
      InStep(w, j - 1);
      SliceCons(c, w, j);
    }
  }

  lemma {:induction false} InStepBack(v: string, i: nat)
    requires '|' !in v && i <= |v| && '\\' !in v[..i] && '=' !in v[..i]
    ensures i <= |PassedText(v)| && '\\' !in PassedText(v)[..i] && PassedText(v)[i..] == PassedText(v[i..])
    decreases i
  {
    if i > 0 {
      var c, w := v[0], v[1..];
      assert v == [c] + w;
      SliceCons(c, w, i);
      InStepBack(w, i - 1);
      PassedCons(c, w);
      SliceCons(PassedChar(c)[0], PassedText(w), i);
    }
  }

  lemma PassedHead(v: string)
    requires v != "" && '|' !in v
    ensures PassedText(v) != ""
    ensures PassedText(v)[0] == v[0] ==> v[0] == '\\' || PassedText(v)[1..] == PassedText(v[1..])
    ensures PassedText(v)[0] in {'=', '!', '~', '>', '<'} ==> PassedText(v)[0] == v[0]
    ensures v[0] in {'~', '>', '<'} ==> PassedText(v)[0] == v[0]
  {
  }

  lemma MatchIsFilter(v: string, j: nat, o: Operator)
    requires '|' !in v && Matches(PassedText(v), j, o)
    ensures ReadAsFilter(v)
  {
    var t := PassedText(v);
    var n := |OpText(o)|;
    InStep(v, j);
    assert t[j] == t[j..j + n][0] == OpText(o)[0];
    assert t[j..][0] == t[j];
    PassedHead(v[j..]);
    var rest := v[j + 1..];
    assert v[j..][1..] == rest;
    assert forall c :: c in rest ==> c in v;
    PassedFacts(rest);
    assert t[j..][1..] == t[j + 1..] == PassedText(rest);
    if n == 2 {
      assert t[j + 1] == t[j..j + n][1] == OpText(o)[1];
      assert PassedText(rest)[0] == t[j + 1];
      NegatedLike(v, j, o);
    } else {
      assert FilterAt(v, j);
    }
  }

  /** Of the operators of two characters only `!~` is left, and its `~` alone would do. */
  lemma NegatedLike(v: string, j: nat, o: Operator)
    requires '|' !in v && 1 <= j < |v| && |OpText(o)| == 2 && o != And && o != Or
    requires '\\' !in v[..j] && '=' !in v[..j] && v[j] == OpText(o)[0]
    requires PassedText(v[j + 1..]) != "" && PassedText(v[j + 1..])[0] == OpText(o)[1]
    requires '\n' !in PassedText(v[j + 1..])[1..]
    ensures ReadAsFilter(v)
  {
    var rest := v[j + 1..];
    PassedFacts(rest);
    PassedHead(rest);
    assert rest[0] == '~';
    assert rest[1..] == v[j + 2..];
    PassedFacts(v[j + 2..]);
    assert v[..j + 1] == v[..j] + [v[j]];
    assert FilterAt(v, j + 1);
  }

  function Comparison(c: char): Operator {
    if c == '~' then Like else if c == '>' then GreaterThan else LessThan
  }

  lemma MatchHere(t: string, i: nat, c: char, rest: string)
    requires 1 <= i <= |t| && t[i..] == [c] + rest
    requires c in {'~', '>', '<'} && '\\' !in t[..i] && '\n' !in rest
    ensures Matches(t, i, Comparison(c))
  {
    assert t[i] == t[i..][0] == c;
    assert t[i + 1..] == t[i..][1..] == rest;
    assert t[i..i + 1] == [c] == OpText(Comparison(c));
  }

  lemma PassedFrom(v: string, i: nat)
    requires '|' !in v && i < |v| && '\\' !in v[..i] && '=' !in v[..i] && v[i] in {'~', '>', '<'}
    ensures i <= |PassedText(v)| && '\\' !in PassedText(v)[..i]
    ensures PassedText(v)[i..] == [v[i]] + PassedText(v[i + 1..])
  {
    InStepBack(v, i);
    assert PassedText(v[i..]) == [v[i]] + PassedText(v[i + 1..]) by {
      assert v[i..] == [v[i]] + v[i + 1..];
      PassedCons(v[i], v[i + 1..]);
    }
  }

  lemma FilterIsMatch(v: string, i: nat)
    requires '|' !in v && 1 <= i < |v| && FilterAt(v, i)
    ensures Matches(PassedText(v), i, Comparison(v[i]))
  {
    var w := PassedText(v[i + 1..]);
    PassedFrom(v, i);
    assert '\n' !in w by {
      PassedFacts(v[i + 1..]);
    }
    MatchHere(PassedText(v), i, v[i], w);
  }

  lemma CapturedIfFilter(v: string)
    requires '|' !in v
    ensures Capture(PassedText(v)) == None <==> !ReadAsFilter(v)
  {
    var t := PassedText(v);
    CaptureIsLazyMatch(t);
    if Capture(t).Some? {
      MatchIsFilter(v, Capture(t).value.0, Capture(t).value.1);
    }
    if i :| 1 <= i < |v| && FilterAt(v, i) {
      FilterIsMatch(v, i);
    }
  }

  lemma EscapedPiece(v: string)
    requires v != ""
    ensures Parse(EscapeQ(v)) == [ParsePiece(PassedText(v))]
  {
    EscapeQIsEscape(v);
    EscapeEnd(v, Q_SPECIAL);
    EncodeIsOnePass(EscapeQ(v));
    PassedIsOnePass(v);
    PassedFacts(v);
    OnePieceOnly(EscapeQ(v));
  }

  /**
   * Main result. A text escaped by `escape_q` is a full-text search for that text if and only if it
   * is not empty, has no control code and no pipe, and does not read as a filter.
   */
  lemma EscapedFullText(v: string)
    ensures Parse(EscapeQ(v)) == [FullText([v])]
       <==> v != "" && ControlFree(v) && '|' !in v && !ReadAsFilter(v)
  {
    if v == "" {
      assert Encode(EscapeQ("")) == "";
    } else {
      EscapedPiece(v);
      PassedIsOnePass(v);
      ValueComesBack(v);
      if '|' !in v {
        CapturedIfFilter(v);
      }
    }
  }

  // ---------------------------------------------------------------- values that are not protected

  lemma PlainIsNotEscaped(v: string)
    requires forall c :: c in v ==> c !in Q_SPECIAL
    ensures EscapeQ(v) == v
  {
    EscapeQIsEscape(v);
    EscapePlain(v, Q_SPECIAL);
  }

  lemma PlainAround(a: string, middle: char, b: string)
    requires PlainText(a) && PlainText(b) && middle in {'~', '>', '<', '|'}
    ensures EscapeQ(a + [middle] + b) == a + [middle] + b
    ensures Decode(Encode(EscapeQ(a + [middle] + b))) == a + [middle] + b
  {
    var v := a + [middle] + b;
    forall c | c in v ensures c !in Q_SPECIAL && c != BEL && c != BS {
      assert c in a || c in b || c == middle;
    }
    PlainIsNotEscaped(v);
    EscapeQRoundTrip(v);
  }

  /** A plain text around a comparison or `~` is read as a filter, although the codec keeps it. */
  lemma ComparisonBecomesFilter(a: string, op: Operator, b: string)
    requires a != "" && PlainText(a) && PlainText(b) && op in {Like, GreaterThan, LessThan}
    ensures var v := a + OpText(op) + b;
      Parse(EscapeQ(v)) == [Filter(a, op, [b])] && Decode(Encode(EscapeQ(v))) == v
  {
    PlainAround(a, OpText(op)[0], b);
    assert OpText(op) == [OpText(op)[0]];
    PlainFilter(a, op, b);
  }

  lemma JoinTwo(a: string, b: string)
    ensures Join([a, b], "|") == a + "|" + b
  {
    assert [a, b][1..] == [b];
  }

  lemma TwoText(f: string, op: Operator, a: string, b: string)
    requires PlainText(a) && PlainText(b)
    ensures PrintConstraint(Filter(f, op, [a, b])) == f + OpText(op) + (a + "|" + b)
  {
    EscapePlain(a, SPECIAL);
    EscapePlain(b, SPECIAL);
    assert EscapeAll([a, b]) == [a, b];
    JoinTwo(a, b);
  }

  lemma TwoPrintable(f: string, op: Operator, a: string, b: string)
    requires op != And && op != Or && f != "" && PlainText(f) && PlainText(a) && PlainText(b)
    ensures Printable([Filter(f, op, [a, b])])
  {
    PlainFieldOk(f, op);
    assert a != "" ==> a[|a| - 1] in a;
    assert Separable([a, b]);
  }

  lemma TwoAlternatives(f: string, op: Operator, a: string, b: string)
    requires op != And && op != Or && f != "" && PlainText(f) && PlainText(a) && PlainText(b)
    ensures Parse(f + OpText(op) + (a + "|" + b)) == [Filter(f, op, [a, b])]
  {
    var c := Filter(f, op, [a, b]);
    assert Print([c]) == PrintConstraint(c);
    TwoText(f, op, a, b);
    TwoPrintable(f, op, a, b);
    RoundTrip([c]);
  }

  /** A plain text around a pipe is read as two alternatives, although the codec keeps it. */
  lemma PipeBecomesAlternatives(f: string, op: Operator, a: string, b: string)
    requires op != And && op != Or && f != "" && PlainText(f) && PlainText(a) && PlainText(b)
    ensures var v := a + "|" + b;
      Parse(f + OpText(op) + EscapeQ(v)) == [Filter(f, op, [a, b])] && Decode(Encode(EscapeQ(v))) == v
  {
    TwoAlternatives(f, op, a, b);
    PlainAround(a, '|', b);
  }

  /** A backslash followed by a pipe comes back as the pipe alone, in every filter. */
  lemma EscapeQLosesBackslash(f: string, op: Operator)
    requires op != And && op != Or && FieldOk(f, op)
    ensures Decode(Encode(EscapeQ("\\|"))) == "|"
    ensures Parse(f + OpText(op) + EscapeQ("\\|")) == [Filter(f, op, ["|"])]
  {
    var v := "\\|";
    EscapedIsFiltered(f, op, v);
    PassedIsOnePass(v);
    assert v[2..] == "";
    assert PassedText(v) == ['\\', BS];
    SinglePart(Passed(v), '|');
    EscapeQReturns(v);
    DecodeIsOnePass(Passed(v));
    EscapeReturns(v);
    assert Returned(v) == "|";
    assert DecodeAll([Passed(v)]) == ["|"];
  }
}
