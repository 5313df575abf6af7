/** The generated sort key of vulnerability identifiers: two regular-expression rewrites. */
module SortKey {
  import opened Results
  import opened Strings

  const WIDTH := 19

  predicate IsDigit(c: char) {
    '0' <= c <= '9'
  }

  predicate AllDigits(s: string) {
    forall c :: c in s ==> IsDigit(c)
  }

  /** A word character by the database's locale; digits always are. */
  type WordTest = w: char -> bool | forall c :: IsDigit(c) ==> w(c) witness (c: char) => true

  // ------------------------------------------------- the regular expressions

  /** `\y`: exactly one of the two neighbouring positions holds a word character. */
  predicate Boundary(before: bool, after: bool) {
    before != after
  }

  /**
   * The first `n` characters of `s` match `\y[0-9]{least,}\y`. `inWord` tells whether a word
   * character comes right before `s`.
   */
  predicate IsMatch(s: string, inWord: bool, n: nat, least: nat, word: WordTest) {
    && 1 <= n <= |s| && least <= n && (forall c :: c in s[..n] ==> c in "0123456789")
    && Boundary(inWord, word(s[0]))
    && Boundary(word(s[n - 1]), n < |s| && word(s[n]))
  }

  /** Length of the run of digits at the start of `s`. */
  function DigitRun(s: string): (n: nat)
    ensures n <= |s| && (n < |s| ==> !IsDigit(s[n]))
    ensures forall i :: 0 <= i < n ==> IsDigit(s[i])
  {
    if s == "" || !IsDigit(s[0]) then 0 else 1 + DigitRun(s[1..])
  }

  predicate AtWordEnd(s: string, n: nat, word: WordTest)
    requires n <= |s|
  {
    n == |s| || !word(s[n])
  }

  /** A whole word of digits starts here. */
  predicate NumberHere(s: string, inWord: bool, word: WordTest) {
    !inWord && DigitRun(s) >= 1 && AtWordEnd(s, DigitRun(s), word)
  }

  lemma TenDigits(c: char)
    ensures c in "0123456789" <==> IsDigit(c)
  {
    if IsDigit(c) {
      assert "0123456789"[(c as int) - ('0' as int)] == c;
    }
  }

  /** At each position at most one match is possible: the run of digits, when it is a whole word. */
  lemma MatchExactly(s: string, inWord: bool, n: nat, least: nat, word: WordTest)
    ensures IsMatch(s, inWord, n, least, word) <==> NumberHere(s, inWord, word) && n == DigitRun(s) && n >= least
  {
    var m := DigitRun(s);
    forall c ensures c in "0123456789" <==> IsDigit(c) {
      TenDigits(c);
    }
    if IsMatch(s, inWord, n, least, word) {
      forall i | 0 <= i < n ensures IsDigit(s[i]) {
        assert s[..n][i] in s[..n];
      }
      assert n <= m;
      assert forall i :: 0 <= i < m ==> word(s[i]);
    }
  }

  /** `REGEXP_REPLACE(s, …, 'g')`: leftmost matches, each search continuing after the last match. */
  function ReplaceAll(s: string, inWord: bool, least: nat, f: string -> string, word: WordTest): string
    decreases |s|
  {
    if s == "" then ""
    else
      var n := DigitRun(s);
      if NumberHere(s, inWord, word) && n >= least then f(s[..n]) + ReplaceAll(s[n..], true, least, f, word)
      else [s[0]] + ReplaceAll(s[1..], word(s[0]), least, f, word)
  }

  function Zeros(n: nat): (z: string)
    ensures |z| == n
    ensures forall i :: 0 <= i < n ==> z[i] == '0'
  {
    if n == 0 then "" else "0" + Zeros(n - 1)
  }

  /** The first replacement: nineteen zeros and the group. */
  function Pad(d: string): string {
    Zeros(WIDTH) + d
  }

  /** The second replacement: the group of the last nineteen digits. */
  function KeepLast(d: string): string {
    if |d| >= WIDTH then d[|d| - WIDTH..] else d
  }

  function Key(id: string, word: WordTest): string {
    ReplaceAll(ReplaceAll(id, false, 1, Pad, word), false, WIDTH + 1, KeepLast, word)
  }

  // ------------------------------------------------- numbers and the text around them

  /** An identifier as its all-digit words and the characters in between. */
  datatype Token = Number(digits: string) | Other(c: char)

  function Tokens(s: string, inWord: bool, word: WordTest): seq<Token>
    decreases |s|
  {
    if s == "" then []
    else if NumberHere(s, inWord, word) then
      var n := DigitRun(s);
      [Number(s[..n])] + Tokens(s[n..], true, word)
    else [Other(s[0])] + Tokens(s[1..], word(s[0]), word)
  }

  function Text(t: Token): string {
    match t case Number(d) => d case Other(c) => [c]
  }

  function Render(ts: seq<Token>): string {
    if ts == [] then "" else Text(ts[0]) + Render(ts[1..])
  }

  function Change(t: Token, f: string -> string): Token {
    match t case Number(d) => Number(f(d)) case Other(_) => t
  }

  function ChangeAll(ts: seq<Token>, f: string -> string): seq<Token> {
    if ts == [] then [] else [Change(ts[0], f)] + ChangeAll(ts[1..], f)
  }

  lemma RenderCons(t: Token, ts: seq<Token>)
    ensures Render([t] + ts) == Text(t) + Render(ts)
  {
    assert ([t] + ts)[1..] == ts;
  }

  lemma ChangeCons(t: Token, ts: seq<Token>, f: string -> string)
    ensures ChangeAll([t] + ts, f) == [Change(t, f)] + ChangeAll(ts, f)
    ensures Render(ChangeAll([t] + ts, f)) == Text(Change(t, f)) + Render(ChangeAll(ts, f))
  {
    assert ([t] + ts)[1..] == ts;
    RenderCons(Change(t, f), ChangeAll(ts, f));
  }

  /** Rendering the tokens gives back the text. */
  lemma {:induction false} RenderOfTokens(s: string, inWord: bool, word: WordTest)
    ensures Render(Tokens(s, inWord, word)) == s
    decreases |s|
  {
    if s == "" {
    } else if NumberHere(s, inWord, word) {
      var n := DigitRun(s);
      RenderOfTokens(s[n..], true, word);
      RenderCons(Number(s[..n]), Tokens(s[n..], true, word));
      assert s == s[..n] + s[n..];
    } else {
      RenderOfTokens(s[1..], word(s[0]), word);
      RenderCons(Other(s[0]), Tokens(s[1..], word(s[0]), word));
      assert s == [s[0]] + s[1..];
    }
  }

  /** Every number has at least so many digits. */
  predicate Wide(ts: seq<Token>, least: nat) {
    forall t :: t in ts && t.Number? ==> |t.digits| >= least
  }

  lemma WideCons(t: Token, ts: seq<Token>, least: nat)
    requires Wide([t] + ts, least)
    ensures Wide(ts, least) && (t.Number? ==> |t.digits| >= least)
  {
    assert t in [t] + ts && forall u :: u in ts ==> u in [t] + ts;
  }

  /** A global replacement changes the numbers, when all are wide enough, and nothing else. */
  lemma {:induction false} ReplaceByTokens(s: string, inWord: bool, least: nat, f: string -> string, word: WordTest)
    requires Wide(Tokens(s, inWord, word), least)
    ensures ReplaceAll(s, inWord, least, f, word) == Render(ChangeAll(Tokens(s, inWord, word), f))
    decreases |s|
  {
    if s == "" {
    } else if NumberHere(s, inWord, word) {
      var n := DigitRun(s);
      var ts := Tokens(s[n..], true, word);
      WideCons(Number(s[..n]), ts, least);
      ReplaceByTokens(s[n..], true, least, f, word);
      ChangeCons(Number(s[..n]), ts, f);
    } else {
      var ts := Tokens(s[1..], word(s[0]), word);
      WideCons(Other(s[0]), ts, least);
      ReplaceByTokens(s[1..], word(s[0]), least, f, word);
      ChangeCons(Other(s[0]), ts, f);
    }
  }

  /** Turns a word of digits into another. */
  ghost predicate KeepsNumbers(f: string -> string) {
    forall d :: d != "" && AllDigits(d) ==> f(d) != "" && AllDigits(f(d))
  }

  /** The same run of digits, followed by the same character or by nothing. */
  predicate SameRun(s: string, r: string) {
    var n := DigitRun(s);
    DigitRun(r) == n && (n < |s| <==> n < |r|) && (n < |s| ==> r[n] == s[n])
  }

  /** Inside a word, the digits that follow are copied up to the first character that is none. */
  lemma {:induction false} RunIsCopied(s: string, f: string -> string, word: WordTest)
    ensures SameRun(s, Render(ChangeAll(Tokens(s, true, word), f)))
  {
    if s != "" {
      var ts := Tokens(s[1..], word(s[0]), word);
      var rest := Render(ChangeAll(ts, f));
      ChangeCons(Other(s[0]), ts, f);
      assert ([s[0]] + rest)[1..] == rest;
      if IsDigit(s[0]) {
        RunIsCopied(s[1..], f, word);
      }
    }
  }

  lemma {:induction false} DigitRunAppend(d: string, r: string)
    requires AllDigits(d) && DigitRun(r) == 0
    ensures DigitRun(d + r) == |d|
  {
    if d == "" {
      assert d + r == r;
    } else {
      assert d[0] in d;
      DigitRunAppend(d[1..], r);
      assert (d + r)[1..] == d[1..] + r;
    }
  }

  /** Changing the numbers does not change what is a number. */
  lemma {:induction false} TokensOfChanged(s: string, inWord: bool, f: string -> string, word: WordTest)
    requires KeepsNumbers(f)
    ensures Tokens(Render(ChangeAll(Tokens(s, inWord, word), f)), inWord, word) == ChangeAll(Tokens(s, inWord, word), f)
    decreases |s|
  {
    if s == "" {
    } else if NumberHere(s, inWord, word) {
      var n := DigitRun(s);
      var d, ts := s[..n], Tokens(s[n..], true, word);
      ChangeCons(Number(d), ts, f);
      TokensOfChanged(s[n..], true, f, word);
      NumberChanged(s[n..], d, f, word);
    } else {
      var ts := Tokens(s[1..], word(s[0]), word);
      ChangeCons(Other(s[0]), ts, f);
      TokensOfChanged(s[1..], word(s[0]), f, word);
      OtherChanged(s, inWord, f, word);
    }
  }

  lemma NumberChanged(rest: string, d: string, f: string -> string, word: WordTest)
    requires KeepsNumbers(f) && d != "" && AllDigits(d) && AtWordEnd(rest, 0, word)
    ensures var r := Render(ChangeAll(Tokens(rest, true, word), f));
            Tokens(f(d) + r, false, word) == [Number(f(d))] + Tokens(r, true, word)
  {
    var r := Render(ChangeAll(Tokens(rest, true, word), f));
    assert rest != "" ==> !IsDigit(rest[0]);
    RunIsCopied(rest, f, word);
    DigitRunAppend(f(d), r);
    var t := f(d) + r;
    assert t[..|f(d)|] == f(d) && t[|f(d)|..] == r;
    assert r != "" ==> t[|f(d)|] == r[0];
  }

  lemma StillNoNumber(c: char, s: string, r: string, inWord: bool, word: WordTest)
    requires !NumberHere([c] + s, inWord, word) && (IsDigit(c) ==> SameRun(s, r))
    ensures !NumberHere([c] + r, inWord, word)
  {
    assert ([c] + s)[1..] == s && ([c] + r)[1..] == r;
  }

  lemma OtherChanged(s: string, inWord: bool, f: string -> string, word: WordTest)
    requires s != "" && !NumberHere(s, inWord, word)
    ensures var r := Render(ChangeAll(Tokens(s[1..], word(s[0]), word), f));
            Tokens([s[0]] + r, inWord, word) == [Other(s[0])] + Tokens(r, word(s[0]), word)
  {
    var r := Render(ChangeAll(Tokens(s[1..], word(s[0]), word), f));
    if IsDigit(s[0]) {
      RunIsCopied(s[1..], f, word);
    }
    assert s == [s[0]] + s[1..];
    StillNoNumber(s[0], s[1..], r, inWord, word);
    assert ([s[0]] + r)[1..] == r;
  }

  // ------------------------------------------------- the key by tokens

  /** A number brought to nineteen digits. */
  function Fix(d: string): string {
    KeepLast(Pad(d))
  }

  lemma FixIsDigits(d: string)
    requires AllDigits(d)
    ensures |Fix(d)| == WIDTH && AllDigits(Fix(d)) && AllDigits(Pad(d)) && |Pad(d)| == WIDTH + |d|
  {
  }

  lemma {:induction false} TokensAreNumbers(s: string, inWord: bool, word: WordTest)
    ensures forall t :: t in Tokens(s, inWord, word) && t.Number? ==> t.digits != "" && AllDigits(t.digits)
    decreases |s|
  {
    if s == "" {
    } else if NumberHere(s, inWord, word) {
      var n := DigitRun(s);
      TokensAreNumbers(s[n..], true, word);
      assert AllDigits(s[..n]) by {
        forall c | c in s[..n] ensures IsDigit(c) {
          var i :| 0 <= i < n && s[i] == c;
        }
      }
    } else {
      TokensAreNumbers(s[1..], word(s[0]), word);
    }
  }

  lemma {:induction false} ChangedIn(ts: seq<Token>, f: string -> string)
    ensures |ChangeAll(ts, f)| == |ts|
    ensures forall i :: 0 <= i < |ts| ==> ChangeAll(ts, f)[i] == Change(ts[i], f)
  {
    if ts != [] {
      ChangedIn(ts[1..], f);
    }
  }

  lemma FixAll(ts: seq<Token>)
    ensures ChangeAll(ChangeAll(ts, Pad), KeepLast) == ChangeAll(ts, Fix)
  {
    ChangedIn(ts, Pad);
    ChangedIn(ts, Fix);
    ChangedIn(ChangeAll(ts, Pad), KeepLast);
  }

  lemma PadAndFixKeepNumbers()
    ensures KeepsNumbers(Pad) && KeepsNumbers(Fix)
  {
    forall d | d != "" && AllDigits(d) ensures Pad(d) != "" && AllDigits(Pad(d)) && Fix(d) != "" && AllDigits(Fix(d)) {
      FixIsDigits(d);
    }
  }

  lemma PaddedAreWide(ts: seq<Token>)
    requires forall t :: t in ts && t.Number? ==> t.digits != "" && AllDigits(t.digits)
    ensures Wide(ChangeAll(ts, Pad), WIDTH + 1)
  {
    ChangedIn(ts, Pad);
    forall t | t in ChangeAll(ts, Pad) && t.Number? ensures |t.digits| >= WIDTH + 1 {
      var i :| 0 <= i < |ts| && ChangeAll(ts, Pad)[i] == t;
      assert ts[i] in ts;
      FixIsDigits(ts[i].digits);
    }
  }

  /** The two rewrites bring every number to nineteen digits and leave all other text alone. */
  lemma KeyTokens(id: string, word: WordTest)
    ensures Key(id, word) == Render(ChangeAll(Tokens(id, false, word), Fix))
    ensures Tokens(Key(id, word), false, word) == ChangeAll(Tokens(id, false, word), Fix)
  {
    var ts := Tokens(id, false, word);
    TokensAreNumbers(id, false, word);
    PadAndFixKeepNumbers();
    assert ReplaceAll(id, false, 1, Pad, word) == Render(ChangeAll(ts, Pad)) by {
      ReplaceByTokens(id, false, 1, Pad, word);
    }
    TokensOfChanged(id, false, Pad, word);
    assert Key(id, word) == Render(ChangeAll(ChangeAll(ts, Pad), KeepLast)) by {
      PaddedAreWide(ts);
      ReplaceByTokens(Render(ChangeAll(ts, Pad)), false, WIDTH + 1, KeepLast, word);
    }
    FixAll(ts);
    TokensOfChanged(id, false, Fix, word);
  }

  /** Every all-digit word of a key has exactly nineteen digits. */
  lemma KeyNumbersHaveFixedWidth(id: string, word: WordTest)
    ensures forall t :: t in Tokens(Key(id, word), false, word) && t.Number? ==> |t.digits| == 19
  {
    var ts := Tokens(id, false, word);
    KeyTokens(id, word);
    TokensAreNumbers(id, false, word);
    ChangedIn(ts, Fix);
    forall t | t in ChangeAll(ts, Fix) && t.Number? ensures |t.digits| == 19 {
      var i :| 0 <= i < |ts| && ChangeAll(ts, Fix)[i] == t;
      assert ts[i] in ts;
      FixIsDigits(ts[i].digits);
    }
  }

  // ------------------------------------------------- numeric order

  function Pow10(n: nat): (p: nat)
    ensures p > 0
  {
    if n == 0 then 1 else 10 * Pow10(n - 1)
  }

  function Digit(c: char): nat
    requires IsDigit(c)
  {
    (c as int) - ('0' as int)
  }

  function Number10(d: string): nat
    requires AllDigits(d)
  {
    if d == "" then 0
    else
      assert d[0] in d && forall c :: c in d[1..] ==> c in d;
      Digit(d[0]) * Pow10(|d| - 1) + Number10(d[1..])
  }

  lemma {:induction false} NumberBound(d: string)
    requires AllDigits(d)
    ensures Number10(d) < Pow10(|d|)
  {
    if d != "" {
      assert d[0] in d && forall c :: c in d[1..] ==> c in d;
      NumberBound(d[1..]);
      DigitBound(Digit(d[0]), Pow10(|d| - 1), Number10(d[1..]));
    }
  }

  lemma DigitBound(a: nat, p: nat, x: nat)
    requires a <= 9 && x < p
    ensures a * p + x < 10 * p
  {
    assert a * p <= 9 * p;
  }

  /** For digits of one length, text order is numeric order. */
  lemma {:induction false} LessIsNumeric(d: string, e: string)
    requires AllDigits(d) && AllDigits(e) && |d| == |e|
    ensures Less(d, e) <==> Number10(d) < Number10(e)
    ensures d == e <==> Number10(d) == Number10(e)
  {
    if d != "" {
      assert d[0] in d && e[0] in e;
      assert (forall c :: c in d[1..] ==> c in d) && forall c :: c in e[1..] ==> c in e;
      assert d == [d[0]] + d[1..] && e == [e[0]] + e[1..];
      LessIsNumeric(d[1..], e[1..]);
      NumberBound(d[1..]);
      NumberBound(e[1..]);
      LeadingDigit(Digit(d[0]), Digit(e[0]), Pow10(|d| - 1), Number10(d[1..]), Number10(e[1..]));
    }
  }

  lemma LeadingDigit(a: nat, b: nat, p: nat, x: nat, y: nat)
    requires x < p && y < p
    ensures a < b ==> a * p + x < b * p + y
    ensures b < a ==> b * p + y < a * p + x
  {
    if a < b {
      assert b * p >= (a + 1) * p == a * p + p;
    } else if b < a {
      assert a * p >= (b + 1) * p == b * p + p;
    }
  }

  lemma {:induction false} NumberAppend(d: string, e: string)
    requires AllDigits(d) && AllDigits(e)
    ensures AllDigits(d + e) && Number10(d + e) == Number10(d) * Pow10(|e|) + Number10(e)
  {
    if d == "" {
      assert d + e == e;
    } else {
      assert d[0] in d && forall c :: c in d[1..] ==> c in d;
      NumberAppend(d[1..], e);
      assert (d + e)[1..] == d[1..] + e;
      PowAppend(|d| - 1, |e|);
      Distribute(Digit(d[0]), Pow10(|d| - 1), Number10(d[1..]), Pow10(|e|));
    }
  }

  lemma Distribute(a: nat, p: nat, x: nat, q: nat)
    ensures (a * p + x) * q == a * (p * q) + x * q
  {
  }

  lemma Associate(a: nat, b: nat, c: nat)
    ensures a * (b * c) == (a * b) * c
  {
  }

  lemma {:induction false} PowAppend(m: nat, n: nat)
    ensures Pow10(m + n) == Pow10(m) * Pow10(n)
  {
    if m > 0 {
      PowAppend(m - 1, n);
      assert Pow10(m) == 10 * Pow10(m - 1) && Pow10(m + n) == 10 * Pow10(m - 1 + n);
      Associate(10, Pow10(m - 1), Pow10(n));
    }
  }

  lemma {:induction false} ZerosAreZero(n: nat)
    ensures AllDigits(Zeros(n)) && Number10(Zeros(n)) == 0
  {
    if n > 0 {
      ZerosAreZero(n - 1);
      assert Zeros(n)[1..] == Zeros(n - 1);
    }
  }

  lemma Remainder(h: nat, p: nat, x: nat)
    requires x < p
    ensures (h * p + x) % p == x
  {
    var y := h * p + x;
    var q, r := y / p, y % p;
    assert y == q * p + r;
    LeadingDigit(h, q, p, x, r);
  }

  lemma SmallRemainder(n: nat, p: nat)
    requires p > 0
    ensures n % p == n <==> n < p
  {
  }

  lemma TenToTheNineteenth()
    ensures Pow10(WIDTH) == 10000000000000000000
  {
    assert Pow10(5) == 100000 by {
      assert Pow10(3) == 1000;
    }
    PowAppend(5, 5);
    PowAppend(5, 4);
    assert Pow10(10) == 10000000000;
    assert Pow10(4) == 10000 by {
      assert Pow10(2) == 100;
    }
    PowAppend(10, 9);
  }

  /** The key keeps a number modulo ten to the nineteenth. */
  lemma FixedNumber(d: string)
    requires AllDigits(d)
    ensures AllDigits(Fix(d)) && Number10(Fix(d)) == Number10(d) % 10000000000000000000
  {
    TenToTheNineteenth();
    FixIsDigits(d);
    ZerosAreZero(WIDTH);
    NumberAppend(Zeros(WIDTH), d);
    var p := Pad(d);
    var h, t := p[..|d|], p[|d|..];
    assert p == h + t && t == Fix(d);
    assert AllDigits(h);
    NumberAppend(h, t);
    NumberBound(t);
    Remainder(Number10(h), Pow10(WIDTH), Number10(t));
  }

  // ------------------------------------------------- the order of keys

  /** The same text with numbers in the same places. */
  predicate SameSkeleton(a: seq<Token>, b: seq<Token>) {
    && |a| == |b|
    && forall i :: 0 <= i < |a| ==> (a[i].Number? && b[i].Number?) || a[i] == b[i]
  }

  /** Every number is a number. */
  predicate Proper(ts: seq<Token>) {
    forall t :: t in ts && t.Number? ==> AllDigits(t.digits)
  }

  /** What the key retains of a number. */
  function Kept(d: string): nat
    requires AllDigits(d)
  {
    Number10(d) % 10000000000000000000
  }

  /** The tuples of retained numbers compare so, first difference first. */
  predicate NumbersLess(a: seq<Token>, b: seq<Token>)
    requires SameSkeleton(a, b) && Proper(a) && Proper(b)
  {
    a != [] &&
    (assert a[0] in a && b[0] in b && (forall t :: t in a[1..] ==> t in a) && forall t :: t in b[1..] ==> t in b;
     if a[0].Number? && Kept(a[0].digits) != Kept(b[0].digits) then Kept(a[0].digits) < Kept(b[0].digits)
     else NumbersLess(a[1..], b[1..]))
  }

  predicate NumbersEqual(a: seq<Token>, b: seq<Token>)
    requires SameSkeleton(a, b) && Proper(a) && Proper(b)
  {
    forall i :: 0 <= i < |a| && a[i].Number? ==>
      (assert a[i] in a && b[i] in b; Kept(a[i].digits) == Kept(b[i].digits))
  }

  lemma {:induction false} LessAfter(d: string, e: string, x: string, y: string)
    requires |d| == |e|
    ensures Less(d + x, e + y) <==> Less(d, e) || (d == e && Less(x, y))
    ensures d + x == e + y <==> d == e && x == y
  {
    if d == "" {
      assert d + x == x && e + y == y;
    } else {
      assert (d + x)[1..] == d[1..] + x && (e + y)[1..] == e[1..] + y;
      assert d == [d[0]] + d[1..] && e == [e[0]] + e[1..];
      assert d + x == [d[0]] + (d[1..] + x) && e + y == [e[0]] + (e[1..] + y);
      LessAfter(d[1..], e[1..], x, y);
    }
  }

  lemma RenderedTail(a: seq<Token>)
    requires a != []
    ensures Render(ChangeAll(a, Fix)) == Text(Change(a[0], Fix)) + Render(ChangeAll(a[1..], Fix))
  {
    assert a == [a[0]] + a[1..];
    ChangeCons(a[0], a[1..], Fix);
  }

  lemma Tails(a: seq<Token>, b: seq<Token>)
    requires SameSkeleton(a, b) && Proper(a) && Proper(b) && a != []
    ensures SameSkeleton(a[1..], b[1..]) && Proper(a[1..]) && Proper(b[1..])
    ensures a[0] in a && b[0] in b && ((a[0].Number? && b[0].Number?) || a[0] == b[0])
  {
    assert (forall t :: t in a[1..] ==> t in a) && forall t :: t in b[1..] ==> t in b;
  }

  lemma {:induction false} RenderedOrder(a: seq<Token>, b: seq<Token>)
    requires SameSkeleton(a, b) && Proper(a) && Proper(b)
    ensures Less(Render(ChangeAll(a, Fix)), Render(ChangeAll(b, Fix))) <==> NumbersLess(a, b)
    ensures Render(ChangeAll(a, Fix)) == Render(ChangeAll(b, Fix)) <==> NumbersEqual(a, b)
  {
    if a != [] {
      var x, y := Render(ChangeAll(a[1..], Fix)), Render(ChangeAll(b[1..], Fix));
      Tails(a, b);
      RenderedTail(a);
      RenderedTail(b);
      RenderedOrder(a[1..], b[1..]);
      EqualCons(a, b);
      FirstToken(a[0], b[0], x, y);
    }
  }

  lemma EqualCons(a: seq<Token>, b: seq<Token>)
    requires SameSkeleton(a, b) && Proper(a) && Proper(b) && a != []
    requires SameSkeleton(a[1..], b[1..]) && Proper(a[1..]) && Proper(b[1..])
    requires a[0] in a && b[0] in b
    ensures NumbersEqual(a, b)
       <==> (a[0].Number? ==> Kept(a[0].digits) == Kept(b[0].digits)) && NumbersEqual(a[1..], b[1..])
  {
    if NumbersEqual(a[1..], b[1..]) {
      forall i | 0 < i < |a| && a[i].Number? ensures Kept(a[i].digits) == Kept(b[i].digits) {
        assert a[1..][i - 1] == a[i] && b[1..][i - 1] == b[i];
      }
    }
    if NumbersEqual(a, b) {
      EqualTail(a, b);
    }
  }

  lemma EqualTail(a: seq<Token>, b: seq<Token>)
    requires SameSkeleton(a, b) && Proper(a) && Proper(b) && a != [] && NumbersEqual(a, b)
    requires SameSkeleton(a[1..], b[1..]) && Proper(a[1..]) && Proper(b[1..])
    ensures NumbersEqual(a[1..], b[1..])
  {
    var p, q := a[1..], b[1..];
    forall i | 0 <= i < |p| && p[i].Number? ensures Kept(p[i].digits) == Kept(q[i].digits) {
      assert p[i] == a[i + 1] && q[i] == b[i + 1];
    }
  }

  /** One pair of tokens decides, or leaves it to the rest. */
  lemma FirstToken(s: Token, t: Token, x: string, y: string)
    requires (s.Number? && t.Number? && AllDigits(s.digits) && AllDigits(t.digits)) || (s == t && s.Other?)
    ensures var u, v := Text(Change(s, Fix)), Text(Change(t, Fix));
            if s.Other? then (Less(u + x, v + y) <==> Less(x, y)) && (u + x == v + y <==> x == y)
            else
              && (Less(u + x, v + y)
                  <==> Kept(s.digits) < Kept(t.digits) || (Kept(s.digits) == Kept(t.digits) && Less(x, y)))
              && (u + x == v + y <==> Kept(s.digits) == Kept(t.digits) && x == y)
  {
    var u, v := Text(Change(s, Fix)), Text(Change(t, Fix));
    if s.Number? {
      FixIsDigits(s.digits);
      FixIsDigits(t.digits);
      FixedNumber(s.digits);
      FixedNumber(t.digits);
      LessIsNumeric(u, v);
    }
    LessAfter(u, v, x, y);
    LessIsStrict(u, v);
  }

  /** Identifiers with the same text around their numbers. */
  predicate SameShape(a: string, b: string, word: WordTest) {
    SameSkeleton(Tokens(a, false, word), Tokens(b, false, word))
  }

  /**
   * Main result: for identifiers of one shape, sorting by key is sorting by the tuple of numbers
   * modulo ten to the nineteenth.
   */
  lemma KeyOrder(a: string, b: string, word: WordTest)
    requires SameShape(a, b, word)
    ensures Proper(Tokens(a, false, word)) && Proper(Tokens(b, false, word))
    ensures Less(Key(a, word), Key(b, word)) <==> NumbersLess(Tokens(a, false, word), Tokens(b, false, word))
  {
    KeyTokens(a, word);
    KeyTokens(b, word);
    TokensAreNumbers(a, false, word);
    TokensAreNumbers(b, false, word);
    RenderedOrder(Tokens(a, false, word), Tokens(b, false, word));
  }

  /** Two identifiers share a key exactly when they have one shape and equal retained numbers. */
  lemma KeyEquality(a: string, b: string, word: WordTest)
    ensures Proper(Tokens(a, false, word)) && Proper(Tokens(b, false, word))
    ensures Key(a, word) == Key(b, word)
       <==> SameShape(a, b, word) && NumbersEqual(Tokens(a, false, word), Tokens(b, false, word))
  {
    KeyTokens(a, word);
    KeyTokens(b, word);
    var ta, tb := Tokens(a, false, word), Tokens(b, false, word);
    TokensAreNumbers(a, false, word);
    TokensAreNumbers(b, false, word);
    if Key(a, word) == Key(b, word) {
      ChangedIn(ta, Fix);
      ChangedIn(tb, Fix);
      forall i | 0 <= i < |ta| ensures (ta[i].Number? && tb[i].Number?) || ta[i] == tb[i] {
        assert Change(ta[i], Fix) == Change(tb[i], Fix);
      }
    }
    if SameShape(a, b, word) {
      RenderedOrder(ta, tb);
    }
  }

  /** A number of at most nineteen digits is kept as it is, so its order is the plain numeric one. */
  lemma KeptExactly(d: string)
    requires AllDigits(d)
    ensures Kept(d) == Number10(d) <==> Number10(d) < 10000000000000000000
    ensures |d| <= 19 ==> Kept(d) == Number10(d)
  {
    TenToTheNineteenth();
    SmallRemainder(Number10(d), Pow10(WIDTH));
    NumberBound(d);
    if |d| <= WIDTH {
      PowMonotone(|d|, WIDTH);
    }
  }

  lemma {:induction false} PowMonotone(m: nat, n: nat)
    requires m <= n
    ensures Pow10(m) <= Pow10(n)
  {
    if m < n {
      PowMonotone(m, n - 1);
    }
  }

  /** Building the key of a key changes nothing. */
  lemma KeyIsIdempotent(id: string, word: WordTest)
    ensures Key(Key(id, word), word) == Key(id, word)
  {
    var ts := Tokens(id, false, word);
    KeyTokens(id, word);
    KeyTokens(Key(id, word), word);
    KeyNumbersHaveFixedWidth(id, word);
    ChangedIn(ChangeAll(ts, Fix), Fix);
    forall i | 0 <= i < |ChangeAll(ts, Fix)|
      ensures Change(ChangeAll(ts, Fix)[i], Fix) == ChangeAll(ts, Fix)[i]
    {
      var t := ChangeAll(ts, Fix)[i];
      assert t in ChangeAll(ts, Fix);
      if t.Number? {
        assert Pad(t.digits)[|t.digits|..] == t.digits;
      }
    }
    assert ChangeAll(ChangeAll(ts, Fix), Fix) == ChangeAll(ts, Fix);
  }

  // ------------------------------------------------- identifiers with numbers of at most nineteen digits

  /** Every number is one that nineteen digits can hold. */
  predicate Small(ts: seq<Token>) {
    forall t :: t in ts && t.Number? ==> AllDigits(t.digits) && Number10(t.digits) < 10000000000000000000
  }

  /** The value of number `i`. */
  function NumberAt(ts: seq<Token>, i: nat): nat
    requires i < |ts| && Proper(ts) && ts[i].Number?
  {
    assert ts[i] in ts;
    Number10(ts[i].digits)
  }

  /** The numbers agree before position `i`. */
  predicate AgreeBefore(a: seq<Token>, b: seq<Token>, i: nat)
    requires SameSkeleton(a, b) && Proper(a) && Proper(b) && i <= |a|
  {
    forall j :: 0 <= j < i && a[j].Number? ==> NumberAt(a, j) == NumberAt(b, j)
  }

  /** The numbers first differ at position `i`, where the first identifier has the smaller one. */
  predicate SmallerAt(a: seq<Token>, b: seq<Token>, i: nat)
    requires SameSkeleton(a, b) && Proper(a) && Proper(b) && i < |a|
  {
    a[i].Number? && AgreeBefore(a, b, i) && NumberAt(a, i) < NumberAt(b, i)
  }

  /** At the first number in which they differ the first identifier has the smaller one. */
  predicate FirstSmaller(a: seq<Token>, b: seq<Token>)
    requires SameSkeleton(a, b) && Proper(a) && Proper(b)
  {
    exists i :: 0 <= i < |a| && SmallerAt(a, b, i)
  }

  lemma SmallIsKept(t: Token)
    requires t.Number? && AllDigits(t.digits) && Number10(t.digits) < 10000000000000000000
    ensures Kept(t.digits) == Number10(t.digits)
  {
    KeptExactly(t.digits);
  }

  lemma {:induction false} SmallOrder(a: seq<Token>, b: seq<Token>)
    requires SameSkeleton(a, b) && Proper(a) && Proper(b) && Small(a) && Small(b)
    ensures NumbersLess(a, b) <==> FirstSmaller(a, b)
  {
    if a != [] {
      Tails(a, b);
      assert Small(a[1..]) && Small(b[1..]) by {
        assert (forall t :: t in a[1..] ==> t in a) && forall t :: t in b[1..] ==> t in b;
      }
      SmallOrder(a[1..], b[1..]);
      FirstSmallerCons(a, b);
      if a[0].Number? {
        SmallIsKept(a[0]);
        SmallIsKept(b[0]);
      }
    }
  }

  lemma SmallerAtCons(a: seq<Token>, b: seq<Token>, i: nat)
    requires SameSkeleton(a, b) && Proper(a) && Proper(b) && i + 1 < |a|
    requires SameSkeleton(a[1..], b[1..]) && Proper(a[1..]) && Proper(b[1..])
    ensures SmallerAt(a, b, i + 1)
       <==> (a[0].Number? ==> NumberAt(a, 0) == NumberAt(b, 0)) && SmallerAt(a[1..], b[1..], i)
  {
    AgreeCons(a, b, i);
    assert a[1..][i] == a[i + 1] && b[1..][i] == b[i + 1];
    assert a[i + 1] in a && b[i + 1] in b;
  }

  lemma FirstSmallerCons(a: seq<Token>, b: seq<Token>)
    requires SameSkeleton(a, b) && Proper(a) && Proper(b) && a != []
    requires SameSkeleton(a[1..], b[1..]) && Proper(a[1..]) && Proper(b[1..])
    ensures FirstSmaller(a, b)
       <==> if a[0].Number? && NumberAt(a, 0) != NumberAt(b, 0) then NumberAt(a, 0) < NumberAt(b, 0)
            else FirstSmaller(a[1..], b[1..])
  {
    forall i | 0 <= i < |a| - 1
      ensures SmallerAt(a, b, i + 1)
         <==> (a[0].Number? ==> NumberAt(a, 0) == NumberAt(b, 0)) && SmallerAt(a[1..], b[1..], i)
    {
      SmallerAtCons(a, b, i);
    }
    assert SmallerAt(a, b, 0) <==> a[0].Number? && NumberAt(a, 0) < NumberAt(b, 0);
    if i :| 0 <= i < |a| && SmallerAt(a, b, i) {
      assert i > 0 ==> SmallerAt(a, b, (i - 1) + 1) && SmallerAt(a[1..], b[1..], i - 1);
    }
  }

  /** The same pair of numbers, counted from one token later. */
  lemma NumberInTail(a: seq<Token>, j: nat)
    requires j + 1 < |a| && Proper(a) && Proper(a[1..]) && a[j + 1].Number?
    ensures a[1..][j].Number? && NumberAt(a[1..], j) == NumberAt(a, j + 1)
  {
  }

  lemma AgreeCons(a: seq<Token>, b: seq<Token>, i: nat)
    requires SameSkeleton(a, b) && Proper(a) && Proper(b) && i < |a|
    requires SameSkeleton(a[1..], b[1..]) && Proper(a[1..]) && Proper(b[1..])
    ensures AgreeBefore(a, b, i + 1)
       <==> (a[0].Number? ==> NumberAt(a, 0) == NumberAt(b, 0)) && AgreeBefore(a[1..], b[1..], i)
  {
    forall j | 0 <= j < i && a[j + 1].Number?
      ensures NumberAt(a[1..], j) == NumberAt(a, j + 1) && NumberAt(b[1..], j) == NumberAt(b, j + 1)
    {
      NumberInTail(a, j);
      NumberInTail(b, j);
    }
    if AgreeBefore(a, b, i + 1) {
      AgreeTail(a, b, i);
    }
    if AgreeBefore(a[1..], b[1..], i) && (a[0].Number? ==> NumberAt(a, 0) == NumberAt(b, 0)) {
      forall j | 0 < j < i + 1 && a[j].Number? ensures NumberAt(a, j) == NumberAt(b, j) {
        NumberInTail(a, j - 1);
        NumberInTail(b, j - 1);
      }
    }
  }

  lemma AgreeTail(a: seq<Token>, b: seq<Token>, i: nat)
    requires SameSkeleton(a, b) && Proper(a) && Proper(b) && i < |a| && AgreeBefore(a, b, i + 1)
    requires SameSkeleton(a[1..], b[1..]) && Proper(a[1..]) && Proper(b[1..])
    ensures AgreeBefore(a[1..], b[1..], i)
  {
    forall j | 0 <= j < i && a[1..][j].Number? ensures NumberAt(a[1..], j) == NumberAt(b[1..], j) {
      NumberInTail(a, j);
      NumberInTail(b, j);
    }
  }

  /**
   * What the key is for: among identifiers of one shape with numbers below ten to the nineteenth,
   * sorting by key is sorting by the numbers, and only equal numbers share a key.
   */
  lemma SmallNumbersSort(a: string, b: string, word: WordTest)
    requires SameShape(a, b, word) && Small(Tokens(a, false, word)) && Small(Tokens(b, false, word))
    ensures var ta, tb := Tokens(a, false, word), Tokens(b, false, word);
      && Proper(ta) && Proper(tb)
      && (Less(Key(a, word), Key(b, word)) <==> FirstSmaller(ta, tb))
      && (Key(a, word) == Key(b, word) <==> AgreeBefore(ta, tb, |ta|))
  {
    var ta, tb := Tokens(a, false, word), Tokens(b, false, word);
    KeyOrder(a, b, word);
    KeyEquality(a, b, word);
    SmallOrder(ta, tb);
    forall i | 0 <= i < |ta| && ta[i].Number?
      ensures Kept(ta[i].digits) == NumberAt(ta, i) && Kept(tb[i].digits) == NumberAt(tb, i)
    {
      assert ta[i] in ta && tb[i] in tb;
      SmallIsKept(ta[i]);
      SmallIsKept(tb[i]);
    }
  }
}
