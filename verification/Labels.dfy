/** Importer labels: validation and updates, whatever order the hash map is visited in. */
module Labels {
  import opened Results
  import opened Strings

  /** The Unicode White_Space property, which `str::trim` goes by. */
  predicate IsWhitespace(c: char) {
    var n := c as int;
    || 0x9 <= n <= 0xD || n == 0x20 || n == 0x85 || n == 0xA0 || n == 0x1680
    || 0x2000 <= n <= 0x200A || n == 0x2028 || n == 0x2029 || n == 0x202F || n == 0x205F || n == 0x3000
  }

  function TrimStart(s: string): string {
    if s != "" && IsWhitespace(s[0]) then TrimStart(s[1..]) else s
  }

  function TrimEnd(s: string): string {
    if s != "" && IsWhitespace(s[|s| - 1]) then TrimEnd(s[..|s| - 1]) else s
  }

  function Trim(s: string): string {
    TrimEnd(TrimStart(s))
  }

  type Map = map<string, string>

  datatype Error = EmptyKey | BadKey(key: string) | BadValue(key: string)

  /** The checks on one trimmed entry, in order. */
  function Check(k: string, v: string): Option<Error> {
    if k == "" then Some(EmptyKey)
    else if '=' in k || '\\' in k then Some(BadKey(k))
    else if '=' in v then Some(BadValue(k))
    else None
  }

  /** A way to visit every entry once. */
  ghost predicate IsOrder<V>(order: seq<string>, m: map<string, V>) {
    && (forall k :: k in order <==> k in m)
    && forall i, j :: 0 <= i < j < |order| ==> order[i] != order[j]
  }

  predicate Covers<V>(order: seq<string>, m: map<string, V>) {
    forall k :: k in order ==> k in m
  }

  /** Validates the entries in the given order, adding them to `done`. */
  function ValidateFrom(labels: Map, order: seq<string>, done: Map): Result<Map, Error>
    requires Covers(order, labels)
  {
    if order == [] then Ok(done)
    else
      var k, v := Trim(order[0]), Trim(labels[order[0]]);
      match Check(k, v)
      case Some(e) => Err(e)
      case None => ValidateFrom(labels, order[1..], done[k := v])
  }

  function Validate(labels: Map, order: seq<string>): Result<Map, Error>
    requires Covers(order, labels)
  {
    ValidateFrom(labels, order, map[])
  }

  class LabelSet {
    var entries: Map

    constructor (entries: Map)
      ensures this.entries == entries
    {
      this.entries := entries;
    }

    /** `order` is the order in which the hash map happens to yield its entries. */
    method ValidateMut(order: seq<string>) returns (r: Result<(), Error>)
      requires IsOrder(order, entries)
      modifies this
      ensures match Validate(old(entries), order)
              case Ok(m) => r == Ok(()) && entries == m
              case Err(e) => r == Err(e) && entries == old(entries)
    {
      var result: Map := map[];
      for i := 0 to |order|
        invariant entries == old(entries)
        invariant ValidateFrom(entries, order[i..], result) == Validate(entries, order)
      {
        assert order[i..][1..] == order[i + 1..];
        var k, v := Trim(order[i]), Trim(entries[order[i]]);
        if k == "" {
          return Err(EmptyKey);
        }
        if '=' in k || '\\' in k {
          return Err(BadKey(k));
        }
        if '=' in v {
          return Err(BadValue(k));
        }
        result := result[k := v];
      }
      entries := result;
      r := Ok(());
    }

    /** Applies an update: a value sets the label, no value removes it. */
    method ApplyUpdate(update: map<string, Option<string>>, order: seq<string>)
      requires IsOrder(order, update)
      modifies this
      ensures entries == Updated(old(entries), update)
    {
      for i := 0 to |order|
        invariant entries == ApplyIn(old(entries), update, order[..i])
      {
        var k := order[i];
        assert order[..i + 1][..i] == order[..i];
        match update[k] {
          case Some(v) => entries := entries[k := v];
          case None => entries := entries - {k};
        }
      }
      assert order[..|order|] == order;
      ApplyInAnyOrder(old(entries), update, order);
    }
  }

  // ---------------------------------------------------------------- trimming

  lemma {:induction false} TrimStartFacts(s: string)
    ensures TrimStart(s) != "" ==> !IsWhitespace(TrimStart(s)[0])
    ensures TrimStart(TrimStart(s)) == TrimStart(s)
  {
    if s != "" && IsWhitespace(s[0]) {
      TrimStartFacts(s[1..]);
    }
  }

  lemma {:induction false} TrimEndFacts(s: string)
    ensures TrimEnd(s) <= s
    ensures TrimEnd(TrimEnd(s)) == TrimEnd(s)
  {
    if s != "" && IsWhitespace(s[|s| - 1]) {
      TrimEndFacts(s[..|s| - 1]);
      assert s[..|s| - 1] <= s;
    }
  }

  lemma TrimIdempotent(s: string)
    ensures Trim(Trim(s)) == Trim(s)
  {
    TrimStartFacts(s);
    TrimEndFacts(TrimStart(s));
    var t := Trim(s);
    assert t != "" ==> t[0] == TrimStart(s)[0];
  }

  /** The characters with the Unicode White_Space property, one by one. */
  const WHITE_SPACE := {
    0x9, 0xA, 0xB, 0xC, 0xD, 0x20, 0x85, 0xA0, 0x1680, 0x2000, 0x2001, 0x2002, 0x2003, 0x2004, 0x2005, 0x2006, 0x2007,
    0x2008, 0x2009, 0x200A, 0x2028, 0x2029, 0x202F, 0x205F, 0x3000}

  predicate Blank(s: string) {
    forall c :: c in s ==> c as int in WHITE_SPACE
  }

  /** No white space at either end. */
  predicate Bare(s: string) {
    s != "" ==> s[0] as int !in WHITE_SPACE && s[|s| - 1] as int !in WHITE_SPACE
  }

  /** `t` is `s` without the white space around it. */
  ghost predicate TrimsTo(s: string, t: string) {
    Bare(t) && exists a, b :: Blank(a) && Blank(b) && s == a + t + b
  }

  lemma {:induction false} TrimStartCuts(s: string) returns (a: string)
    ensures Blank(a) && s == a + TrimStart(s)
    ensures TrimStart(s) != "" ==> TrimStart(s)[0] as int !in WHITE_SPACE
  {
    a := "";
    if s != "" && IsWhitespace(s[0]) {
      var more := TrimStartCuts(s[1..]);
      a := [s[0]] + more;
      assert s == [s[0]] + s[1..];
    }
  }

  lemma {:induction false} TrimEndCuts(s: string) returns (b: string)
    ensures Blank(b) && s == TrimEnd(s) + b
    ensures var t := TrimEnd(s); t != "" ==> t[|t| - 1] as int !in WHITE_SPACE
  {
    b := "";
    if s != "" && IsWhitespace(s[|s| - 1]) {
      var more := TrimEndCuts(s[..|s| - 1]);
      b := more + [s[|s| - 1]];
      assert s == s[..|s| - 1] + [s[|s| - 1]];
    }
  }

  lemma TrimCuts(s: string)
    ensures TrimsTo(s, Trim(s))
  {
    var a := TrimStartCuts(s);
    var b := TrimEndCuts(TrimStart(s));
    assert s == a + Trim(s) + b;
    assert Trim(s) != "" ==> Trim(s)[0] == TrimStart(s)[0];
  }

  lemma BlankEnds(a: string, t: string, b: string)
    requires Blank(a) && Blank(b)
    ensures var s := a + t + b; forall i :: 0 <= i < |a| || |a + t| <= i < |s| ==> s[i] as int in WHITE_SPACE
  {
    assert forall i :: 0 <= i < |a| ==> (a + t + b)[i] == a[i] && a[i] in a;
    assert forall i :: 0 <= i < |b| ==> (a + t + b)[|a + t| + i] == b[i] && b[i] in b;
  }

  /** What is left starts at one place and ends at one place. */
  lemma SamePlace(a: string, t: string, b: string, c: string, u: string, d: string)
    requires a + t + b == c + u + d && Bare(t) && t != "" && Bare(u)
    requires Blank(a) && Blank(b) && Blank(c) && Blank(d)
    ensures u != "" && |a| == |c| && |b| == |d|
  {
    var s := a + t + b;
    BlankEnds(a, t, b);
    BlankEnds(c, u, d);
    assert s[|a|] == t[0] && s[|a + t| - 1] == t[|t| - 1];
    assert u != "" ==> s[|c|] == u[0] && s[|c + u| - 1] == u[|u| - 1];
  }

  /** Trimming finds the one text that is left when the white space at both ends goes. */
  lemma TrimExactly(s: string, t: string)
    ensures Trim(s) == t <==> TrimsTo(s, t)
  {
    TrimCuts(s);
    if TrimsTo(s, t) {
      var u := Trim(s);
      var a, b :| Blank(a) && Blank(b) && s == a + t + b;
      var c, d :| Blank(c) && Blank(d) && s == c + u + d;
      if t != "" {
        SamePlace(a, t, b, c, u, d);
      } else if u != "" {
        SamePlace(c, u, d, a, t, b);
      }
      assert t == s[|a|..|s| - |b|] && u == s[|c|..|s| - |d|];
    }
  }

  /** Trimming takes nothing visible away. */
  lemma TrimKeeps(s: string, c: char)
    requires c as int !in WHITE_SPACE
    ensures c in Trim(s) <==> c in s
    ensures Trim(s) == "" <==> Blank(s)
  {
    TrimCuts(s);
    var a, b :| Blank(a) && Blank(b) && s == a + Trim(s) + b;
    assert forall d :: d in s <==> d in a || d in Trim(s) || d in b;
    assert Trim(s) != "" ==> Trim(s)[0] in Trim(s);
  }

  // ---------------------------------------------------------------- validation

  ghost predicate AllValid(labels: Map) {
    forall k :: k in labels ==> Check(Trim(k), Trim(labels[k])) == None
  }

  /** What every stored label map looks like: nothing to trim, nothing to reject. */
  predicate Clean(labels: Map) {
    forall k :: k in labels ==> Trim(k) == k && Trim(labels[k]) == labels[k] && Check(k, labels[k]) == None
  }

  lemma {:induction false} ValidateFromFacts(labels: Map, order: seq<string>, done: Map)
    requires Covers(order, labels)
    ensures var r := ValidateFrom(labels, order, done);
            && (r.Ok? <==> forall k :: k in order ==> Check(Trim(k), Trim(labels[k])) == None)
            && (Clean(done) && r.Ok? ==> Clean(r.value))
            && (r.Ok? ==> forall k :: k in r.value <==> k in done || exists o :: o in order && Trim(o) == k)
  {
    if order != [] {
      var o, rest := order[0], order[1..];
      var k, v := Trim(o), Trim(labels[o]);
      assert order == [o] + rest;
      if Check(k, v) == None {
        var next := done[k := v];
        assert Clean(done) ==> Clean(next) by {
          TrimIdempotent(o);
          TrimIdempotent(labels[o]);
        }
        ValidateFromFacts(labels, rest, next);
      }
    }
  }

  /** What validation asks of one entry, before any trimming. */
  predicate Acceptable(k: string, v: string) {
    !Blank(k) && '=' !in k && '\\' !in k && '=' !in v
  }

  /** The one error that an entry deserves. */
  ghost predicate Deserves(k: string, v: string, e: Error) {
    match e
    case EmptyKey => Blank(k)
    case BadKey(t) => TrimsTo(k, t) && ('=' in k || '\\' in k)
    case BadValue(t) => TrimsTo(k, t) && !Blank(k) && '=' !in k && '\\' !in k && '=' in v
  }

  lemma CheckMeans(k: string, v: string)
    ensures Check(Trim(k), Trim(v)) == None <==> Acceptable(k, v)
    ensures forall e :: Check(Trim(k), Trim(v)) == Some(e) <==> Deserves(k, v, e)
  {
    TrimKeeps(k, '=');
    TrimKeeps(k, '\\');
    TrimKeeps(v, '=');
    forall t ensures Trim(k) == t <==> TrimsTo(k, t) {
      TrimExactly(k, t);
    }
  }

  /** Whether validation succeeds does not depend on the order; the order only picks the error. */
  lemma ValidateSucceeds(labels: Map, order: seq<string>)
    requires IsOrder(order, labels)
    ensures Validate(labels, order).Ok? <==> AllValid(labels)
    ensures AllValid(labels) <==> forall k :: k in labels ==> Acceptable(k, labels[k])
  {
    ValidateFromFacts(labels, order, map[]);
    forall k | k in labels ensures Check(Trim(k), Trim(labels[k])) == None <==> Acceptable(k, labels[k]) {
      CheckMeans(k, labels[k]);
    }
  }

  /** Entry number `i` in the order is the first one to be rejected, with error `e`. */
  ghost predicate RejectedAt(labels: Map, order: seq<string>, i: nat, e: Error)
    requires Covers(order, labels) && i < |order|
  {
    && (forall j :: 0 <= j < i ==> Acceptable(order[j], labels[order[j]]))
    && Deserves(order[i], labels[order[i]], e)
  }

  /** Validation fails with the error of the first entry that is not acceptable. */
  lemma {:induction false} FirstRejection(labels: Map, order: seq<string>, done: Map, e: Error)
    requires Covers(order, labels)
    ensures ValidateFrom(labels, order, done) == Err(e)
       <==> exists i: nat :: i < |order| && RejectedAt(labels, order, i, e)
  {
    if order != [] {
      var o, rest := order[0], order[1..];
      CheckMeans(o, labels[o]);
      if Acceptable(o, labels[o]) {
        FirstRejection(labels, rest, done[Trim(o) := Trim(labels[o])], e);
        RejectedLater(labels, order, e);
      } else {
        RejectedFirst(labels, order, e);
      }
    }
  }

  lemma RejectedLater(labels: Map, order: seq<string>, e: Error)
    requires order != [] && Covers(order, labels) && Acceptable(order[0], labels[order[0]])
    ensures (exists i: nat :: i < |order| && RejectedAt(labels, order, i, e))
       <==> exists i: nat :: i < |order[1..]| && RejectedAt(labels, order[1..], i, e)
  {
    var rest := order[1..];
    CheckMeans(order[0], labels[order[0]]);
    if i: nat :| i < |rest| && RejectedAt(labels, rest, i, e) {
      assert forall j :: 0 < j < i + 1 ==> order[j] == rest[j - 1];
      assert RejectedAt(labels, order, i + 1, e);
    }
    if i: nat :| i < |order| && RejectedAt(labels, order, i, e) {
      assert i > 0;
      assert forall j :: 0 <= j < i - 1 ==> rest[j] == order[j + 1];
      assert RejectedAt(labels, rest, i - 1, e);
    }
  }

  lemma RejectedFirst(labels: Map, order: seq<string>, e: Error)
    requires order != [] && Covers(order, labels) && !Acceptable(order[0], labels[order[0]])
    ensures (exists i: nat :: i < |order| && RejectedAt(labels, order, i, e))
       <==> Deserves(order[0], labels[order[0]], e)
  {
    if Deserves(order[0], labels[order[0]], e) {
      assert RejectedAt(labels, order, 0, e);
    }
  }

  /** The error reported is that of the first entry, in the order visited, that is not acceptable. */
  lemma RejectionIsFirst(labels: Map, order: seq<string>, e: Error)
    requires IsOrder(order, labels)
    ensures Validate(labels, order) == Err(e) <==> exists i: nat :: i < |order| && RejectedAt(labels, order, i, e)
  {
    FirstRejection(labels, order, map[], e);
  }

  lemma {:induction false} CleanStays(labels: Map, order: seq<string>, done: Map)
    requires Clean(labels) && Covers(order, labels)
    requires forall k :: k in done ==> k in labels && done[k] == labels[k]
    ensures var r := ValidateFrom(labels, order, done);
            r.Ok? && (forall k :: k in r.value <==> k in done || k in order)
            && forall k :: k in r.value ==> k in labels && r.value[k] == labels[k]
  {
    if order != [] {
      var o := order[0];
      CleanStays(labels, order[1..], done[o := labels[o]]);
      assert order == [o] + order[1..];
    }
  }

  /** Clean maps are exactly the fixed points of validation, in every order. */
  lemma FixedPoint(labels: Map, order: seq<string>)
    requires IsOrder(order, labels)
    ensures Clean(labels) <==> Validate(labels, order) == Ok(labels)
  {
    if Clean(labels) {
      CleanStays(labels, order, map[]);
      var m := Validate(labels, order).value;
      assert m.Keys == labels.Keys;
      assert m == labels;
    } else if Validate(labels, order) == Ok(labels) {
      ValidateFromFacts(labels, order, map[]);
      assert Clean(map[]);
    }
  }

  /** Validating what validation returned changes nothing, whatever the two orders. */
  lemma ValidateTwice(labels: Map, order: seq<string>, again: seq<string>)
    requires IsOrder(order, labels) && Validate(labels, order).Ok?
    requires IsOrder(again, Validate(labels, order).value)
    ensures Validate(Validate(labels, order).value, again) == Validate(labels, order)
  {
    ValidateFromFacts(labels, order, map[]);
    assert Clean(map[]);
    FixedPoint(Validate(labels, order).value, again);
  }

  /** No two keys trim to the same key with different trimmed values. */
  ghost predicate NoConflict(labels: Map) {
    forall j, k :: j in labels && k in labels && Trim(j) == Trim(k) ==> Trim(labels[j]) == Trim(labels[k])
  }

  /** Each entry of the result is the trimmed form of some visited entry. */
  lemma {:induction false} ValueOrigin(labels: Map, order: seq<string>, done: Map, k: string)
    requires Covers(order, labels)
    requires ValidateFrom(labels, order, done).Ok? && k in ValidateFrom(labels, order, done).value
    ensures var v := ValidateFrom(labels, order, done).value[k];
            (k in done && done[k] == v) || exists o :: o in order && Trim(o) == k && Trim(labels[o]) == v
  {
    if order != [] {
      var o := order[0];
      ValueOrigin(labels, order[1..], done[Trim(o) := Trim(labels[o])], k);
      assert order == [o] + order[1..];
    }
  }

  /** Of the entries that trim to one key the last one visited wins. */
  lemma {:induction false} LastWins(labels: Map, order: seq<string>, done: Map, i: nat)
    requires Covers(order, labels) && i < |order| && ValidateFrom(labels, order, done).Ok?
    requires forall j :: i < j < |order| ==> Trim(order[j]) != Trim(order[i])
    ensures var m := ValidateFrom(labels, order, done).value;
            Trim(order[i]) in m && m[Trim(order[i])] == Trim(labels[order[i]])
  {
    var k, v := Trim(order[0]), Trim(labels[order[0]]);
    if i > 0 {
      LastWins(labels, order[1..], done[k := v], i - 1);
    } else {
      Untouched(labels, order[1..], done[k := v], k);
    }
  }

  lemma {:induction false} Untouched(labels: Map, order: seq<string>, done: Map, k: string)
    requires Covers(order, labels) && ValidateFrom(labels, order, done).Ok? && k in done
    requires forall o :: o in order ==> Trim(o) != k
    ensures var m := ValidateFrom(labels, order, done).value; k in m && m[k] == done[k]
  {
    if order != [] {
      Untouched(labels, order[1..], done[Trim(order[0]) := Trim(labels[order[0]])], k);
    }
  }

  /** `v` is the trimmed value of an entry whose key trims to `k`. */
  ghost predicate Entry(labels: Map, k: string, v: string) {
    exists o :: o in labels && Trim(o) == k && Trim(labels[o]) == v
  }

  ghost function TrimmedKeys(labels: Map): set<string> {
    set o | o in labels :: Trim(o)
  }

  lemma ResultEntries(labels: Map, order: seq<string>)
    requires IsOrder(order, labels) && AllValid(labels)
    ensures Validate(labels, order).Ok?
    ensures var m := Validate(labels, order).value;
            m.Keys == TrimmedKeys(labels) && forall k :: k in m ==> Entry(labels, k, m[k])
  {
    ValidateFromFacts(labels, order, map[]);
    var m := Validate(labels, order).value;
    assert m.Keys == TrimmedKeys(labels);
    forall k | k in m ensures Entry(labels, k, m[k]) {
      ValueOrigin(labels, order, map[], k);
    }
  }

  /**
   * Validated labels begin and end with something visible and hold none of the reserved characters;
   * each entry is what trimming leaves of the last one visited with its key.
   */
  lemma ValidatedLabels(labels: Map, order: seq<string>)
    requires IsOrder(order, labels) && Validate(labels, order).Ok?
    ensures var m := Validate(labels, order).value;
      && (forall k :: k in m ==> Bare(k) && Bare(m[k]) && k != "" && '=' !in k && '\\' !in k && '=' !in m[k])
      && forall i :: 0 <= i < |order| && (forall j :: i < j < |order| ==> !TrimsTo(order[j], Trim(order[i]))) ==>
           Trim(order[i]) in m && m[Trim(order[i])] == Trim(labels[order[i]])
  {
    var m := Validate(labels, order).value;
    ValidateFromFacts(labels, order, map[]);
    assert Clean(m);
    forall k | k in m ensures Bare(k) && Bare(m[k]) && k != "" && '=' !in k && '\\' !in k && '=' !in m[k] {
      TrimCuts(k);
      TrimCuts(m[k]);
    }
    forall i | 0 <= i < |order| && (forall j :: i < j < |order| ==> !TrimsTo(order[j], Trim(order[i])))
      ensures Trim(order[i]) in m && m[Trim(order[i])] == Trim(labels[order[i]])
    {
      forall j | i < j < |order| ensures Trim(order[j]) != Trim(order[i]) {
        TrimCuts(order[j]);
      }
      LastWins(labels, order, map[], i);
    }
  }

  /** The results of two orders can differ in the value of a key only by a conflict. */
  lemma SameEntry(labels: Map, k: string, v: string, w: string)
    requires Entry(labels, k, v) && Entry(labels, k, w) && v != w
    ensures !NoConflict(labels)
  {
  }

  lemma SameWithoutConflict(labels: Map, a: seq<string>, b: seq<string>)
    requires IsOrder(a, labels) && IsOrder(b, labels) && AllValid(labels)
    ensures Validate(labels, a) == Validate(labels, b) || !NoConflict(labels)
  {
    ResultEntries(labels, a);
    ResultEntries(labels, b);
    Differ(labels, Validate(labels, a).value, Validate(labels, b).value);
  }

  lemma Differ(labels: Map, x: Map, y: Map)
    requires x.Keys == y.Keys
    requires forall k :: k in x ==> Entry(labels, k, x[k])
    requires forall k :: k in y ==> Entry(labels, k, y[k])
    ensures x == y || !NoConflict(labels)
  {
    if k :| k in x && x[k] != y[k] {
      SameEntry(labels, k, x[k], y[k]);
    } else {
      assert x == y;
    }
  }

  lemma OrderEnding(labels: Map, rest: seq<string>, j: string, k: string)
    requires j in labels && k in labels && j != k
    requires IsOrder(rest, labels - {j, k})
    ensures IsOrder(rest + [j] + [k], labels)
  {
    var a := rest + [j] + [k];
    assert forall o :: o in a <==> o in rest || o == j || o == k;
    forall x, y | 0 <= x < y < |a| ensures a[x] != a[y] {
      assert x < |rest| ==> a[x] == rest[x] && rest[x] in rest;
      assert y < |rest| ==> a[y] == rest[y];
    }
  }

  lemma DifferWithConflict(labels: Map, j: string, k: string) returns (a: seq<string>, b: seq<string>)
    requires AllValid(labels) && j in labels && k in labels
    requires Trim(j) == Trim(k) && Trim(labels[j]) != Trim(labels[k])
    ensures IsOrder(a, labels) && IsOrder(b, labels) && Validate(labels, a) != Validate(labels, b)
  {
    var rest := SomeOrder(labels.Keys - {j, k});
    a, b := rest + [j] + [k], rest + [k] + [j];
    OrderEnding(labels, rest, j, k);
    assert {j, k} == {k, j};
    OrderEnding(labels, rest, k, j);
    ValidateSucceeds(labels, a);
    ValidateSucceeds(labels, b);
    LastWins(labels, a, map[], |rest| + 1);
    LastWins(labels, b, map[], |rest| + 1);
  }

  lemma {:induction false} SomeOrder(keys: set<string>) returns (order: seq<string>)
    ensures forall k :: k in order <==> k in keys
    ensures forall i, j :: 0 <= i < j < |order| ==> order[i] != order[j]
  {
    if keys == {} {
      order := [];
    } else {
      var k :| k in keys;
      var rest := SomeOrder(keys - {k});
      order := rest + [k];
    }
  }

  function Failure(labels: Map, k: string): Option<Error>
    requires k in labels
  {
    Check(Trim(k), Trim(labels[k]))
  }

  /** All entries that are rejected are rejected with one error. */
  ghost predicate OneError(labels: Map) {
    forall j, k :: j in labels && k in labels && Failure(labels, j).Some? && Failure(labels, k).Some? ==>
      Failure(labels, j) == Failure(labels, k)
  }

  lemma {:induction false} ErrorOrigin(labels: Map, order: seq<string>, done: Map)
    requires Covers(order, labels) && ValidateFrom(labels, order, done).Err?
    ensures exists o :: o in order && Failure(labels, o) == Some(ValidateFrom(labels, order, done).error)
  {
    var o := order[0];
    if Failure(labels, o) == None {
      ErrorOrigin(labels, order[1..], done[Trim(o) := Trim(labels[o])]);
      assert order == [o] + order[1..];
    }
  }

  lemma ErrorFirst(labels: Map, k: string) returns (order: seq<string>)
    requires k in labels && Failure(labels, k).Some?
    ensures IsOrder(order, labels) && Validate(labels, order) == Err(Failure(labels, k).value)
  {
    var rest := SomeOrder(labels.Keys - {k});
    order := [k] + rest;
    assert forall o :: o in order <==> o == k || o in rest;
    forall i, j | 0 <= i < j < |order| ensures order[i] != order[j] {
      assert order[j] == rest[j - 1] && order[j] in rest;
    }
  }

  lemma SameWithOneError(labels: Map, a: seq<string>, b: seq<string>)
    requires IsOrder(a, labels) && IsOrder(b, labels) && !AllValid(labels) && OneError(labels)
    ensures Validate(labels, a) == Validate(labels, b)
  {
    ValidateSucceeds(labels, a);
    ValidateSucceeds(labels, b);
    ErrorOrigin(labels, a, map[]);
    ErrorOrigin(labels, b, map[]);
  }

  lemma DifferWithErrors(labels: Map, j: string, k: string) returns (a: seq<string>, b: seq<string>)
    requires j in labels && k in labels && Failure(labels, j).Some? && Failure(labels, k).Some?
    requires Failure(labels, j) != Failure(labels, k)
    ensures IsOrder(a, labels) && IsOrder(b, labels) && Validate(labels, a) != Validate(labels, b)
  {
    a := ErrorFirst(labels, j);
    b := ErrorFirst(labels, k);
  }

  ghost predicate Independent(labels: Map) {
    forall a, b :: IsOrder(a, labels) && IsOrder(b, labels) ==> Validate(labels, a) == Validate(labels, b)
  }

  /**
   * The outcome of validation is independent of the iteration order exactly when, if all entries are
   * acceptable, no two keys collide with different values, and otherwise all rejections agree.
   */
  lemma OrderIndependence(labels: Map)
    ensures Independent(labels) <==> if AllValid(labels) then NoConflict(labels) else OneError(labels)
  {
    if AllValid(labels) {
      IndependentWhenValid(labels);
    } else if OneError(labels) {
      forall a, b | IsOrder(a, labels) && IsOrder(b, labels) ensures Validate(labels, a) == Validate(labels, b) {
        SameWithOneError(labels, a, b);
      }
    } else {
      var j, k :| j in labels && k in labels && Failure(labels, j).Some? && Failure(labels, k).Some?
        && Failure(labels, j) != Failure(labels, k);
      var a, b := DifferWithErrors(labels, j, k);
    }
  }

  lemma IndependentWhenValid(labels: Map)
    requires AllValid(labels)
    ensures Independent(labels) <==> NoConflict(labels)
  {
    if NoConflict(labels) {
      forall a, b | IsOrder(a, labels) && IsOrder(b, labels) ensures Validate(labels, a) == Validate(labels, b) {
        SameWithoutConflict(labels, a, b);
      }
    } else {
      var j, k :| j in labels && k in labels && Trim(j) == Trim(k) && Trim(labels[j]) != Trim(labels[k]);
      var a, b := DifferWithConflict(labels, j, k);
    }
  }

  // ---------------------------------------------------------------- updates

  /** What an update leaves, with no order involved. */
  function Updated(labels: Map, update: map<string, Option<string>>): Map {
    map k | k in labels.Keys + update.Keys && (k in update ==> update[k].Some?)
      :: if k in update then update[k].value else labels[k]
  }

  function ApplyIn(labels: Map, update: map<string, Option<string>>, order: seq<string>): Map
    requires Covers(order, update)
  {
    if order == [] then labels
    else
      var before := ApplyIn(labels, update, order[..|order| - 1]);
      var k := order[|order| - 1];
      match update[k]
      case Some(v) => before[k := v]
      case None => before - {k}
  }

  lemma {:induction false} ApplyInFacts(labels: Map, update: map<string, Option<string>>, order: seq<string>, k: string)
    requires Covers(order, update)
    ensures var m := ApplyIn(labels, update, order);
            if k in order then (k in m <==> update[k].Some?) && (k in m ==> m[k] == update[k].value)
            else (k in m <==> k in labels) && (k in m ==> m[k] == labels[k])
  {
    if order != [] {
      ApplyInFacts(labels, update, order[..|order| - 1], k);
      assert order == order[..|order| - 1] + [order[|order| - 1]];
    }
  }

  /**
   * Applying an update entry by entry gives the same labels in every order: those with a value are
   * set, those without one are gone, and the others are as they were.
   */
  lemma ApplyInAnyOrder(labels: Map, update: map<string, Option<string>>, order: seq<string>)
    requires IsOrder(order, update)
    ensures ApplyIn(labels, update, order) == Updated(labels, update)
    ensures var m := ApplyIn(labels, update, order);
      forall k :: if k !in update then (k in m <==> k in labels) && (k in m ==> m[k] == labels[k])
                  else if update[k] == None then k !in m
                  else k in m && Some(m[k]) == update[k]
  {
    var m, n := ApplyIn(labels, update, order), Updated(labels, update);
    forall k ensures (k in m <==> k in n) && (k in m ==> m[k] == n[k]) {
      ApplyInFacts(labels, update, order, k);
    }
    assert m.Keys == n.Keys;
  }
}
