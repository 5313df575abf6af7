/** The replace chains of the parser, as single left-to-right passes. */
module QueryCodec {
  import opened Strings
  import opened Query

  /** One pass: an escaped separator becomes its control character, all else is copied. */
  function EncodeOnce(s: string): string {
    if s == "" then ""
    else if |s| >= 2 && s[0] == '\\' && s[1] == '&' then [BEL] + EncodeOnce(s[2..])
    else if |s| >= 2 && s[0] == '\\' && s[1] == '|' then [BS] + EncodeOnce(s[2..])
    else [s[0]] + EncodeOnce(s[1..])
  }

  function Restore(c: char): char {
    if c == BEL then '&' else if c == BS then '|' else c
  }

  /** One pass: a backslash makes the next character literal, a dangling one is dropped. */
  function Unescape(s: string): string {
    if s == "" then ""
    else if s[0] != '\\' then [Restore(s[0])] + Unescape(s[1..])
    else if |s| == 1 then ""
    else [Restore(s[1])] + Unescape(s[2..])
  }

  lemma UnescapeCons(c: char, rest: string)
    ensures c != '\\' ==> Unescape([c] + rest) == [Restore(c)] + Unescape(rest)
    ensures Unescape(['\\', c] + rest) == [Restore(c)] + Unescape(rest)
  {
    assert ([c] + rest)[1..] == rest;
    assert (['\\', c] + rest)[2..] == rest;
  }

  /** A replacement that cannot start at the first character copies it. */
  lemma ReplaceSkip(c: char, s: string, pat: string, to: string)
    requires pat != ""
    requires c != pat[0] || (|pat| == 2 && !StartsWith(s, pat[1]))
    ensures Replace([c] + s, pat, to) == [c] + Replace(s, pat, to)
  {
    var t := [c] + s;
    assert t[1..] == s;
    if |pat| <= |t| {
      assert t[..|pat|][0] == c;
      if |pat| == 2 {
        assert t[..2][1] == s[0];
      }
    } else {
      assert Replace(s, pat, to) == s;
    }
  }

  lemma ReplaceHit(s: string, pat: string, to: string)
    requires pat != ""
    ensures Replace(pat + s, pat, to) == to + Replace(s, pat, to)
  {
    assert (pat + s)[..|pat|] == pat && (pat + s)[|pat|..] == s;
  }

  /** The two whole-string replacements of `encode` act as one simultaneous pass. */
  lemma {:induction false} EncodeIsOnePass(s: string)
    ensures Encode(s) == EncodeOnce(s)
  {
    if s == "" {
    } else if |s| >= 2 && s[0] == '\\' && s[1] == '&' {
      EncodeIsOnePass(s[2..]);
      assert s == "\\&" + s[2..];
      ReplaceHit(s[2..], "\\&", [BEL]);
      ReplaceSkip(BEL, Replace(s[2..], "\\&", [BEL]), "\\|", [BS]);
    } else if |s| >= 2 && s[0] == '\\' && s[1] == '|' {
      EncodeIsOnePass(s[2..]);
      var r := Replace(s[2..], "\\&", [BEL]);
      assert s == ['\\'] + (['|'] + s[2..]);
      ReplaceSkip('|', s[2..], "\\&", [BEL]);
      ReplaceSkip('\\', ['|'] + s[2..], "\\&", [BEL]);
      assert ['\\'] + (['|'] + r) == "\\|" + r;
      ReplaceHit(r, "\\|", [BS]);
    } else {
      EncodeIsOnePass(s[1..]);
      var r := Replace(s[1..], "\\&", [BEL]);
      assert s == [s[0]] + s[1..];
      ReplaceSkip(s[0], s[1..], "\\&", [BEL]);
      assert StartsWith(r, '|') ==> StartsWith(s[1..], '|');
      ReplaceSkip(s[0], r, "\\|", [BS]);
    }
  }

  /** The two replacements that put the separators back, character by character. */
  function RestoreAll(s: string): string {
    Replace(Replace(s, [BEL], "&"), [BS], "|")
  }

  /** The three replacements that remove the escapes. */
  function StripEscapes(s: string): string {
    Replace(Replace(Replace(s, "\\\\", [BS]), "\\", ""), [BS], "\\")
  }

  lemma RestoreCons(c: char, s: string)
    ensures RestoreAll([c] + s) == [Restore(c)] + RestoreAll(s)
  {
    var t := Replace(s, [BEL], "&");
    if c == BEL {
      ReplaceHit(s, [BEL], "&");
      ReplaceSkip('&', t, [BS], "|");
    } else {
      ReplaceSkip(c, s, [BEL], "&");
      if c == BS { ReplaceHit(t, [BS], "|"); } else { ReplaceSkip(c, t, [BS], "|"); }
    }
  }

  lemma StripPlain(c: char, s: string)
    requires c != '\\' && c != BS
    ensures StripEscapes([c] + s) == [c] + StripEscapes(s)
  {
    var t := Replace(s, "\\\\", [BS]);
    ReplaceSkip(c, s, "\\\\", [BS]);
    ReplaceSkip(c, t, "\\", "");
    ReplaceSkip(c, Replace(t, "\\", ""), [BS], "\\");
  }

  lemma StripEscaped(c: char, s: string)
    requires c != BS
    ensures StripEscapes(['\\', c] + s) == [c] + StripEscapes(s)
  {
    var t := Replace(s, "\\\\", [BS]);
    if c == '\\' {
      assert ['\\', c] + s == "\\\\" + s;
      ReplaceHit(s, "\\\\", [BS]);
      ReplaceSkip(BS, t, "\\", "");
      ReplaceHit(Replace(t, "\\", ""), [BS], "\\");
    } else {
      assert ['\\', c] + s == ['\\'] + ([c] + s);
      ReplaceSkip('\\', [c] + s, "\\\\", [BS]);
      ReplaceSkip(c, s, "\\\\", [BS]);
      var u := Replace(t, "\\", "");
      ReplaceHit([c] + t, "\\", "");
      assert "\\" + ([c] + t) == ['\\'] + ([c] + t);
      ReplaceSkip(c, t, "\\", "");
      assert "" + ([c] + u) == [c] + u;
      ReplaceSkip(c, u, [BS], "\\");
    }
  }

  /**
   * The five whole-string replacements of `decode` act as one unescaping pass, on every string:
   * each sees what the previous ones left, yet no intermediate control character is confused.
   */
  lemma {:induction false} DecodeIsOnePass(s: string)
    ensures Decode(s) == Unescape(s)
  {
    if s == "" {
    } else if s[0] != '\\' {
      DecodeIsOnePass(s[1..]);
      assert s == [s[0]] + s[1..];
      RestoreCons(s[0], s[1..]);
      StripPlain(Restore(s[0]), RestoreAll(s[1..]));
    } else if |s| == 1 {
      assert s == ['\\'] + "";
      RestoreCons('\\', "");
      ReplaceSkip('\\', "", "\\\\", [BS]);
      ReplaceHit("", "\\", "");
      assert StripEscapes("\\" + "") == "";
    } else {
      DecodeIsOnePass(s[2..]);
      assert s == ['\\'] + ([s[1]] + s[2..]);
      RestoreCons('\\', [s[1]] + s[2..]);
      RestoreCons(s[1], s[2..]);
      assert ['\\'] + ([Restore(s[1])] + RestoreAll(s[2..])) == ['\\', Restore(s[1])] + RestoreAll(s[2..]);
      StripEscaped(Restore(s[1]), RestoreAll(s[2..]));
    }
  }

  /** What the pass emits for the first character or escaped separator of `s`. */
  function Emitted(s: string): (r: (string, nat))
    requires s != ""
    ensures 1 <= r.1 <= |s|
  {
    if |s| >= 2 && s[0] == '\\' && s[1] == '&' then ([BEL], 2)
    else if |s| >= 2 && s[0] == '\\' && s[1] == '|' then ([BS], 2)
    else ([s[0]], 1)
  }

  lemma EncodeStep(s: string)
    requires s != ""
    ensures EncodeOnce(s) == Emitted(s).0 + EncodeOnce(s[Emitted(s).1..])
  {
  }

  /** Text appended later does not change what is emitted first, nor where that ends. */
  lemma EmittedAppend(a: string, b: string)
    requires a != ""
    requires EndsWith(a, '\\') ==> !StartsWith(b, '&') && !StartsWith(b, '|')
    ensures Emitted(a + b) == Emitted(a)
    ensures (a + b)[Emitted(a).1..] == a[Emitted(a).1..] + b
    ensures EndsWith(a[Emitted(a).1..], '\\') ==> EndsWith(a, '\\')
  {
  }

  lemma Assoc(x: string, y: string, z: string)
    ensures x + (y + z) == (x + y) + z
  {
  }

  /** Encoding is compositional unless the boundary falls inside an escaped separator. */
  lemma {:induction false} EncodeAppend(a: string, b: string)
    requires EndsWith(a, '\\') ==> !StartsWith(b, '&') && !StartsWith(b, '|')
    ensures EncodeOnce(a + b) == EncodeOnce(a) + EncodeOnce(b)
  {
    if a == "" {
      assert a + b == b;
      assert EncodeOnce(a) + EncodeOnce(b) == EncodeOnce(b);
    } else {
      var (out, n) := Emitted(a);
      EmittedAppend(a, b);
      EncodeStep(a);
      EncodeStep(a + b);
      EncodeAppend(a[n..], b);
      Assoc(out, EncodeOnce(a[n..]), EncodeOnce(b));
    }
  }

  /** Occurrences of `c` not preceded by a backslash; `escaped` tells whether one precedes `s`. */
  function Unescaped(s: string, c: char, escaped: bool := false): nat {
    if s == "" then 0
    else (if s[0] == c && !escaped then 1 else 0) + Unescaped(s[1..], c, s[0] == '\\')
  }

  lemma {:induction false} UnescapedAppend(a: string, b: string, c: char, escaped: bool := false)
    ensures Unescaped(a + b, c, escaped)
         == Unescaped(a, c, escaped) + Unescaped(b, c, if a == "" then escaped else EndsWith(a, '\\'))
  {
    if a == "" {
      assert a + b == b;
    } else {
      UnescapedAppend(a[1..], b, c, a[0] == '\\');
      assert (a + b)[1..] == a[1..] + b;
    }
  }

  /** A separator survives encoding exactly when no backslash precedes it. */
  lemma {:induction false} EncodeCount(s: string, c: char)
    requires c == '&' || c == '|'
    ensures Count(EncodeOnce(s), c) == Unescaped(s, c)
  {
    if s == "" {
    } else if |s| >= 2 && s[0] == '\\' && (s[1] == '&' || s[1] == '|') {
      EncodeCount(s[2..], c);
      assert s[1..][1..] == s[2..];
    } else {
      EncodeCount(s[1..], c);
      if s[0] == '\\' && |s| >= 2 {
        assert s[1] != c;
      }
    }
  }

  /** The string has no text after its last unescaped `&`. */
  predicate Terminated(s: string) {
    s == "" || (EndsWith(s, '&') && (|s| >= 2 ==> s[|s| - 2] != '\\'))
  }

  lemma TerminatedRest(s: string)
    requires s != ""
    ensures var (out, n) := Emitted(s);
            if s[n..] == "" then Terminated(s) <==> out == "&" else Terminated(s) <==> Terminated(s[n..])
  {
    var (out, n) := Emitted(s);
    var rest := s[n..];
    if rest != "" {
      assert rest[|rest| - 1] == s[|s| - 1];
      if |rest| >= 2 {
        assert rest[|rest| - 2] == s[|s| - 2];
      } else {
        assert s[|s| - 2] == s[n - 1];
      }
    }
  }

  predicate Ended(e: string) {
    e == "" || EndsWith(e, '&')
  }

  lemma {:induction false} EncodeTerminated(s: string)
    ensures EncodeOnce(s) == "" <==> s == ""
    ensures Ended(EncodeOnce(s)) <==> Terminated(s)
  {
    if s != "" {
      var (out, n) := Emitted(s);
      EncodeStep(s);
      TerminatedRest(s);
      EncodeTerminated(s[n..]);
    }
  }

  lemma PiecesOf(e: string)
    ensures |SplitTerminator(e, '&')| == Count(e, '&') + if Ended(e) then 0 else 1
  {
    SplitParts(e, '&');
    SplitLast(e, '&');
  }

  /** The number of constraints in a query, read off the raw text. */
  lemma ParseLength(q: string)
    ensures |Parse(q)| == Unescaped(q, '&') + if Terminated(q) then 0 else 1
  {
    PiecesOf(Encode(q));
    EncodeIsOnePass(q);
    EncodeCount(q, '&');
    EncodeTerminated(q);
  }
}
