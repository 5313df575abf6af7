/** Failure-carrying results shared by the other modules. */
module Results {
  datatype Option<+T> = None | Some(value: T)

  datatype Result<+T, +E> = Ok(value: T) | Err(error: E)
}

/** The string operations of the Rust standard library that the modelled code calls. */
module Strings {
  /** `str::replace`: every non-overlapping occurrence, left to right. */
  function Replace(s: string, pat: string, to: string): string
    requires pat != ""
  {
    if |s| < |pat| then s
    else if s[..|pat|] == pat then to + Replace(s[|pat|..], pat, to)
    else [s[0]] + Replace(s[1..], pat, to)
  }

  /** `str::split` on one character: always at least one part. */
  function Split(s: string, sep: char): (parts: seq<string>)
    ensures |parts| >= 1
  {
    if s == "" then [""]
    else if s[0] == sep then [""] + Split(s[1..], sep)
    else var rest := Split(s[1..], sep); [[s[0]] + rest[0]] + rest[1..]
  }

  /** `str::split_terminator`: as `Split`, but a trailing empty part is skipped. */
  function SplitTerminator(s: string, sep: char): seq<string> {
    var parts := Split(s, sep);
    if parts[|parts| - 1] == "" then parts[..|parts| - 1] else parts
  }

  function Join(parts: seq<string>, sep: string): string {
    if parts == [] then ""
    else if |parts| == 1 then parts[0]
    else parts[0] + sep + Join(parts[1..], sep)
  }

  function Count(s: string, c: char): nat {
    if s == "" then 0 else (if s[0] == c then 1 else 0) + Count(s[1..], c)
  }

  /** Prefixes every character of `special` with a backslash. */
  function Escape(v: string, special: set<char>): string {
    if v == "" then ""
    else (if v[0] in special then ['\\', v[0]] else [v[0]]) + Escape(v[1..], special)
  }

  lemma {:induction false} EscapeAppend(a: string, b: string, special: set<char>)
    ensures Escape(a + b, special) == Escape(a, special) + Escape(b, special)
  {
    if a == "" {
      assert a + b == b;
    } else {
      EscapeAppend(a[1..], b, special);
      assert (a + b)[1..] == a[1..] + b;
      var first := if a[0] in special then ['\\', a[0]] else [a[0]];
      assert first + (Escape(a[1..], special) + Escape(b, special))
          == (first + Escape(a[1..], special)) + Escape(b, special);
    }
  }

  predicate EndsWith(s: string, c: char) {
    s != "" && s[|s| - 1] == c
  }

  predicate StartsWith(s: string, c: char) {
    s != "" && s[0] == c
  }

  /** Lexicographic order by code point, which is also the byte order of UTF-8. */
  predicate Less(a: string, b: string) {
    b != "" && (a == "" || a[0] < b[0] || (a[0] == b[0] && Less(a[1..], b[1..])))
  }

  lemma {:induction false} LessIsStrict(a: string, b: string)
    ensures Less(a, b) ==> a != b && !Less(b, a)
    ensures a == b || Less(a, b) || Less(b, a)
  {
    if a != "" && b != "" && a[0] == b[0] {
      LessIsStrict(a[1..], b[1..]);
      assert a == [a[0]] + a[1..] && b == [b[0]] + b[1..];
    }
  }

  lemma {:induction false} LessIsTransitive(a: string, b: string, c: string)
    requires Less(a, b) && Less(b, c)
    ensures Less(a, c)
  {
    if a != "" && a[0] == b[0] == c[0] {
      LessIsTransitive(a[1..], b[1..], c[1..]);
    }
  }

  lemma {:induction false} CountAppend(a: string, b: string, c: char)
    ensures Count(a + b, c) == Count(a, c) + Count(b, c)
  {
    if a == "" {
      assert a + b == b;
    } else {
      CountAppend(a[1..], b, c);
      assert (a + b)[1..] == a[1..] + b;
    }
  }

  lemma {:induction false} CountZero(s: string, c: char)
    ensures Count(s, c) == 0 <==> c !in s
  {
    if s != "" {
      CountZero(s[1..], c);
      assert s == [s[0]] + s[1..];
    }
  }

  lemma SplitCons(c: char, s: string, sep: char)
    ensures var rest := Split(s, sep);
            Split([c] + s, sep) == if c == sep then [""] + rest else [[c] + rest[0]] + rest[1..]
  {
    assert ([c] + s)[1..] == s;
  }

  lemma HeadAppend(c: char, x: seq<string>, y: seq<string>)
    requires x != []
    ensures [[c] + (x + y)[0]] + (x + y)[1..] == ([[c] + x[0]] + x[1..]) + y
    ensures [""] + (x + y) == ([""] + x) + y
  {
  }

  lemma {:induction false} SplitAt(a: string, sep: char, b: string)
    ensures Split(a + [sep] + b, sep) == Split(a, sep) + Split(b, sep)
  {
    if a == "" {
      assert a + [sep] + b == [sep] + b;
      SplitCons(sep, b, sep);
    } else {
      var c, rest := a[0], a[1..];
      SplitAt(rest, sep, b);
      assert a == [c] + rest && a + [sep] + b == [c] + (rest + [sep] + b);
      SplitCons(c, rest, sep);
      SplitCons(c, rest + [sep] + b, sep);
      HeadAppend(c, Split(rest, sep), Split(b, sep));
    }
  }

  lemma {:induction false} SplitWhole(s: string, sep: char)
    requires sep !in s
    ensures Split(s, sep) == [s]
  {
    if s != "" {
      assert forall c :: c in s[1..] ==> c in s;
      SplitWhole(s[1..], sep);
      assert s == [s[0]] + s[1..];
    }
  }

  /** Splitting undoes joining exactly when no part holds the separator. */
  lemma {:induction false} SplitOfJoin(parts: seq<string>, sep: char)
    requires parts != []
    requires forall p :: p in parts ==> sep !in p
    ensures Split(Join(parts, [sep]), sep) == parts
  {
    if |parts| == 1 {
      SplitWhole(parts[0], sep);
    } else {
      var rest := Join(parts[1..], [sep]);
      assert Split(rest, sep) == parts[1..] by {
        assert forall p :: p in parts[1..] ==> p in parts;
        SplitOfJoin(parts[1..], sep);
      }
      assert Split(parts[0], sep) == [parts[0]] by { SplitWhole(parts[0], sep); }
      SplitAt(parts[0], sep, rest);
      assert parts == [parts[0]] + parts[1..];
    }
  }

  lemma JoinHead(c: char, parts: seq<string>, sep: string)
    requires parts != []
    ensures Join([[c] + parts[0]] + parts[1..], sep) == [c] + Join(parts, sep)
    ensures Join([""] + parts, sep) == sep + Join(parts, sep)
  {
    assert ([[c] + parts[0]] + parts[1..])[1..] == parts[1..];
    assert ([""] + parts)[1..] == parts;
  }

  /** Joining undoes splitting on every string. */
  lemma {:induction false} JoinOfSplit(s: string, sep: char)
    ensures Join(Split(s, sep), [sep]) == s
  {
    if s != "" {
      var c, rest := s[0], s[1..];
      JoinOfSplit(rest, sep);
      assert s == [c] + rest;
      SplitCons(c, rest, sep);
      JoinHead(c, Split(rest, sep), [sep]);
    }
  }

  lemma {:induction false} SplitParts(s: string, sep: char)
    ensures |Split(s, sep)| == Count(s, sep) + 1
    ensures forall p :: p in Split(s, sep) ==> sep !in p && forall c :: c in p ==> c in s
  {
    if s != "" {
      SplitParts(s[1..], sep);
      assert s == [s[0]] + s[1..];
    }
  }

  /** The last part is empty exactly for the empty string and for one that ends in the separator. */
  lemma {:induction false} SplitLast(s: string, sep: char)
    ensures var parts := Split(s, sep); parts[|parts| - 1] == "" <==> s == "" || EndsWith(s, sep)
  {
    if s != "" {
      var rest := Split(s[1..], sep);
      SplitLast(s[1..], sep);
      assert |s| > 1 ==> s[1..][|s| - 2] == s[|s| - 1];
      if s[0] == sep {
        assert Split(s, sep)[|rest|] == rest[|rest| - 1];
      } else if |rest| > 1 {
        assert Split(s, sep)[|rest| - 1] == rest[|rest| - 1];
        assert |s| > 1;
      } else {
        SplitParts(s[1..], sep);
        CountZero(s[1..], sep);
      }
    }
  }
}
