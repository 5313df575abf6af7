/** Claims that a package is affected, not affected or fixed, by version. */
module Assertions {
  import opened Results

  datatype Claimant = Claimant(identifier: string, sha256: string)

  datatype Assertion =
    | Affected(vulnerability: string, claimant: Claimant, startVersion: string, endVersion: string)
    | NotAffected(vulnerability: string, claimant: Claimant, version: string)
    | Fixed(vulnerability: string, claimant: Claimant, version: string)

  /** The lenient parser of versions: a place in the total order of versions, or `None` on a syntax error. */
  type Parser = string -> Option<int>

  /** An error names the text that is not a version. */
  type Checked<T> = Result<T, string>

  // ---------------------------------------------------------------------------------------------
  // The program.

  method NotAffectedClaimantsForVersion(assertions: seq<Assertion>, candidate: string, parse: Parser)
    returns (result: Checked<seq<Claimant>>)
    ensures result == NotAffectedFor(assertions, candidate, parse)
  {
    var candidateVersion := parse(candidate);
    if candidateVersion == None {
      return Err(candidate);
    }
    var claimants := [];
    for i := 0 to |assertions|
      invariant FirstBad(assertions[..i], NotAffectedTexts, parse) == None
      invariant claimants == Claiming(assertions[..i], a => RulesOut(a, candidateVersion.value, parse))
    {
      Prefix(assertions, i);
      FirstBadSnoc(assertions[..i], assertions[i], assertions[i + 1..], NotAffectedTexts, parse);
      match assertions[i] {
        case NotAffected(_, claimant, version) =>
          var v := parse(version);
          if v == None {
            return Err(version);
          }
          if v == candidateVersion {
            claimants := claimants + [claimant];
          }
        case _ =>
      }
    }
    assert assertions[..|assertions|] == assertions;
    return Ok(claimants);
  }

  method AffectedClaimantsForVersion(assertions: seq<Assertion>, candidate: string, parse: Parser)
    returns (result: Checked<seq<Claimant>>)
    ensures result == AffectedFor(assertions, candidate, parse)
  {
    var candidateVersion := parse(candidate);
    if candidateVersion == None {
      return Err(candidate);
    }
    var claimants := [];
    for i := 0 to |assertions|
      invariant FirstBad(assertions[..i], AffectedTexts, parse) == None
      invariant claimants == Claiming(assertions[..i], a => Hits(a, candidateVersion.value, parse))
    {
      Prefix(assertions, i);
      FirstBadSnoc(assertions[..i], assertions[i], assertions[i + 1..], AffectedTexts, parse);
      match assertions[i] {
        case Affected(_, claimant, startVersion, endVersion) =>
          TwoTexts(startVersion, endVersion, parse);
          var start := parse(startVersion);
          if start == None {
            return Err(startVersion);
          }
          var end := parse(endVersion);
          if end == None {
            return Err(endVersion);
          }
          if start.value <= candidateVersion.value < end.value {
            claimants := claimants + [claimant];
          }
        case _ =>
      }
    }
    assert assertions[..|assertions|] == assertions;
    var notAffected := NotAffectedClaimantsForVersion(assertions, candidate, parse);
    match notAffected {
      case Err(text) => return Err(text);
      case Ok(excluded) => return Ok(Without(claimants, excluded));
    }
  }

  method FilterByVersion(assertions: seq<Assertion>, version: string, parse: Parser)
    returns (result: Checked<seq<Assertion>>)
    ensures result == FilteredBy(assertions, version, parse)
  {
    var semver := parse(version);
    if semver == None {
      return Err(version);
    }
    var filtered := [];
    for i := 0 to |assertions|
      invariant FirstBad(assertions[..i], AllTexts, parse) == None
      invariant filtered == Keeping(assertions[..i], semver.value, parse)
    {
      Prefix(assertions, i);
      FirstBadSnoc(assertions[..i], assertions[i], assertions[i + 1..], AllTexts, parse);
      var assertion := assertions[i];
      match assertion {
        case Affected(_, _, startVersion, endVersion) =>
          TwoTexts(startVersion, endVersion, parse);
          var start := parse(startVersion);
          if start == None {
            return Err(startVersion);
          }
          var end := parse(endVersion);
          if end == None {
            return Err(endVersion);
          }
          if start.value <= semver.value < end.value {
            filtered := filtered + [assertion];
          }
        case NotAffected(_, _, text) =>
          var v := parse(text);
          if v == None {
            return Err(text);
          }
          if v == semver {
            filtered := filtered + [assertion];
          }
        case Fixed(_, _, text) =>
          var v := parse(text);
          if v == None {
            return Err(text);
          }
          if v == semver {
            filtered := filtered + [assertion];
          }
      }
    }
    assert assertions[..|assertions|] == assertions;
    return Ok(filtered);
  }

  // ---------------------------------------------------------------------------------------------
  // What the program computes.

  function AffectedTexts(a: Assertion): seq<string> {
    if a.Affected? then [a.startVersion, a.endVersion] else []
  }

  function NotAffectedTexts(a: Assertion): seq<string> {
    if a.NotAffected? then [a.version] else []
  }

  function AllTexts(a: Assertion): seq<string> {
    match a
    case Affected(_, _, s, e) => [s, e]
    case NotAffected(_, _, v) => [v]
    case Fixed(_, _, v) => [v]
  }

  function FirstBadText(texts: seq<string>, parse: Parser): Option<string> {
    if texts == [] then None
    else if parse(texts[0]) == None then Some(texts[0])
    else FirstBadText(texts[1..], parse)
  }

  /** The first of the given version texts that does not parse. */
  function FirstBad(assertions: seq<Assertion>, texts: Assertion -> seq<string>, parse: Parser): Option<string> {
    if assertions == [] then None
    else
      var bad := FirstBadText(texts(assertions[0]), parse);
      if bad.Some? then bad else FirstBad(assertions[1..], texts, parse)
  }

  /** An `Affected` assertion whose range holds the version. */
  predicate Hits(a: Assertion, version: int, parse: Parser) {
    a.Affected? && parse(a.startVersion).Some? && parse(a.endVersion).Some?
    && parse(a.startVersion).value <= version < parse(a.endVersion).value
  }

  /** A `NotAffected` assertion about exactly this version. */
  predicate RulesOut(a: Assertion, version: int, parse: Parser) {
    a.NotAffected? && parse(a.version) == Some(version)
  }

  predicate Repairs(a: Assertion, version: int, parse: Parser) {
    a.Fixed? && parse(a.version) == Some(version)
  }

  function Claiming(assertions: seq<Assertion>, about: Assertion -> bool): seq<Claimant> {
    if assertions == [] then []
    else
      var last := assertions[|assertions| - 1];
      Claiming(assertions[..|assertions| - 1], about) + if about(last) then [last.claimant] else []
  }

  predicate Applies(a: Assertion, version: int, parse: Parser) {
    Hits(a, version, parse) || RulesOut(a, version, parse) || Repairs(a, version, parse)
  }

  function Keeping(assertions: seq<Assertion>, version: int, parse: Parser): seq<Assertion> {
    if assertions == [] then []
    else
      var last := assertions[|assertions| - 1];
      Keeping(assertions[..|assertions| - 1], version, parse) + if Applies(last, version, parse) then [last] else []
  }

  function Without(claimants: seq<Claimant>, excluded: seq<Claimant>): seq<Claimant> {
    if claimants == [] then []
    else
      (if IsExcluded(claimants[0], excluded) then [] else [claimants[0]]) + Without(claimants[1..], excluded)
  }

  predicate IsExcluded(c: Claimant, excluded: seq<Claimant>) {
    exists e :: e in excluded && c.sha256 == e.sha256 && c.identifier == e.identifier
  }

  function NotAffectedFor(assertions: seq<Assertion>, candidate: string, parse: Parser): Checked<seq<Claimant>> {
    match parse(candidate)
    case None => Err(candidate)
    case Some(version) =>
      var bad := FirstBad(assertions, NotAffectedTexts, parse);
      if bad.Some? then Err(bad.value) else Ok(Claiming(assertions, a => RulesOut(a, version, parse)))
  }

  function AffectedFor(assertions: seq<Assertion>, candidate: string, parse: Parser): Checked<seq<Claimant>> {
    match parse(candidate)
    case None => Err(candidate)
    case Some(version) =>
      var bad := FirstBad(assertions, AffectedTexts, parse);
      if bad.Some? then Err(bad.value)
      else
        match NotAffectedFor(assertions, candidate, parse)
        case Err(text) => Err(text)
        case Ok(excluded) => Ok(Without(Claiming(assertions, a => Hits(a, version, parse)), excluded))
  }

  function FilteredBy(assertions: seq<Assertion>, candidate: string, parse: Parser): Checked<seq<Assertion>> {
    match parse(candidate)
    case None => Err(candidate)
    case Some(version) =>
      var bad := FirstBad(assertions, AllTexts, parse);
      if bad.Some? then Err(bad.value) else Ok(Keeping(assertions, version, parse))
  }

  // ---------------------------------------------------------------------------------------------
  // Lists.

  lemma Prefix(assertions: seq<Assertion>, i: nat)
    requires i < |assertions|
    ensures assertions[..i + 1][..i] == assertions[..i]
    ensures assertions == assertions[..i] + ([assertions[i]] + assertions[i + 1..])
    ensures assertions[..i + 1] == assertions[..i] + ([assertions[i]] + [])
  {
  }

  lemma {:induction false} FirstBadSnoc(
    good: seq<Assertion>, a: Assertion, rest: seq<Assertion>, texts: Assertion -> seq<string>, parse: Parser)
    requires FirstBad(good, texts, parse) == None
    ensures FirstBadText(texts(a), parse).Some?
        ==> FirstBad(good + ([a] + rest), texts, parse) == FirstBadText(texts(a), parse)
    ensures FirstBadText(texts(a), parse) == None ==> FirstBad(good + ([a] + []), texts, parse) == None
  {
    if good == [] {
      assert good + ([a] + rest) == [a] + rest && good + ([a] + []) == [a];
    } else {
      FirstBadSnoc(good[1..], a, rest, texts, parse);
      assert (good + ([a] + rest))[1..] == good[1..] + ([a] + rest);
      assert (good + ([a] + []))[1..] == good[1..] + ([a] + []);
    }
  }

  lemma OneText(v: string, parse: Parser)
    ensures FirstBadText([v], parse) == if parse(v) == None then Some(v) else None
  {
    assert [v][1..] == [];
  }

  lemma TwoTexts(s: string, e: string, parse: Parser)
    ensures FirstBadText([s, e], parse)
         == if parse(s) == None then Some(s) else if parse(e) == None then Some(e) else None
  {
    assert [s, e][1..] == [e];
    OneText(e, parse);
  }

  lemma {:induction false} FirstBadMeans(assertions: seq<Assertion>, texts: Assertion -> seq<string>, parse: Parser)
    ensures FirstBad(assertions, texts, parse) == None
       <==> forall a :: a in assertions ==> FirstBadText(texts(a), parse) == None
  {
    if assertions != [] {
      FirstBadMeans(assertions[1..], texts, parse);
      assert assertions == [assertions[0]] + assertions[1..];
    }
  }

  lemma {:induction false} KeepingMembers(assertions: seq<Assertion>, version: int, parse: Parser, a: Assertion)
    ensures a in Keeping(assertions, version, parse) <==> a in assertions && Applies(a, version, parse)
  {
    if assertions != [] {
      var last := |assertions| - 1;
      KeepingMembers(assertions[..last], version, parse, a);
      assert assertions == assertions[..last] + [assertions[last]];
    }
  }

  lemma {:induction false} ClaimingMembers(assertions: seq<Assertion>, about: Assertion -> bool, c: Claimant)
    ensures c in Claiming(assertions, about) <==> exists a :: a in assertions && about(a) && a.claimant == c
  {
    if assertions != [] {
      var last := |assertions| - 1;
      ClaimingMembers(assertions[..last], about, c);
      assert assertions == assertions[..last] + [assertions[last]];
    }
  }

  lemma {:induction false} ClaimingAfterKeeping(
    assertions: seq<Assertion>, about: Assertion -> bool, version: int, parse: Parser)
    requires forall a :: about(a) ==> Applies(a, version, parse)
    ensures Claiming(Keeping(assertions, version, parse), about) == Claiming(assertions, about)
  {
    if assertions != [] {
      var rest, last := assertions[..|assertions| - 1], assertions[|assertions| - 1];
      ClaimingAfterKeeping(rest, about, version, parse);
      var kept := Keeping(rest, version, parse);
      assert (kept + [last])[..|kept|] == kept;
      assert kept + [] == kept;
      assert Claiming(rest, about) + [] == Claiming(rest, about);
    }
  }

  lemma {:induction false} KeepingAfterKeeping(assertions: seq<Assertion>, version: int, parse: Parser)
    ensures Keeping(Keeping(assertions, version, parse), version, parse) == Keeping(assertions, version, parse)
  {
    if assertions != [] {
      var rest, last := assertions[..|assertions| - 1], assertions[|assertions| - 1];
      KeepingAfterKeeping(rest, version, parse);
      var kept := Keeping(rest, version, parse);
      assert (kept + [last])[..|kept|] == kept;
      assert kept + [] == kept;
    }
  }

  lemma {:induction false} WithoutMembers(claimants: seq<Claimant>, excluded: seq<Claimant>, c: Claimant)
    ensures c in Without(claimants, excluded) <==> c in claimants && c !in excluded
  {
    if claimants != [] {
      WithoutMembers(claimants[1..], excluded, c);
      assert claimants == [claimants[0]] + claimants[1..];
      SameClaimant(claimants[0], excluded);
    }
  }

  lemma SameClaimant(c: Claimant, excluded: seq<Claimant>)
    ensures IsExcluded(c, excluded) <==> c in excluded
  {
  }

  // ---------------------------------------------------------------------------------------------
  // Main results.

  /** Every version of the assertion is one. */
  predicate Parses(a: Assertion, parse: Parser) {
    match a
    case Affected(_, _, start, end) => parse(start).Some? && parse(end).Some?
    case NotAffected(_, _, version) => parse(version).Some?
    case Fixed(_, _, version) => parse(version).Some?
  }

  /** The text is the first in the assertion that is not a version. */
  predicate FailsAt(a: Assertion, parse: Parser, text: string) {
    match a
    case Affected(_, _, start, end) =>
      (parse(start) == None && text == start) || (parse(start).Some? && parse(end) == None && text == end)
    case NotAffected(_, _, version) => parse(version) == None && text == version
    case Fixed(_, _, version) => parse(version) == None && text == version
  }

  /** The first assertion of interest with a text that is not a version fails at this one. */
  ghost predicate FirstFailure(assertions: seq<Assertion>, of: Assertion -> bool, parse: Parser, text: string) {
    exists i :: 0 <= i < |assertions| && of(assertions[i]) && FailsAt(assertions[i], parse, text)
                && forall j :: 0 <= j < i && of(assertions[j]) ==> Parses(assertions[j], parse)
  }

  lemma FirstFailureCons(assertions: seq<Assertion>, of: Assertion -> bool, parse: Parser, text: string)
    requires assertions != []
    ensures var a := assertions[0];
      FirstFailure(assertions, of, parse, text)
      <==> (of(a) && FailsAt(a, parse, text))
           || ((of(a) ==> Parses(a, parse)) && FirstFailure(assertions[1..], of, parse, text))
  {
    var a, rest := assertions[0], assertions[1..];
    if i :| 0 <= i < |rest| && of(rest[i]) && FailsAt(rest[i], parse, text)
            && forall j :: 0 <= j < i && of(rest[j]) ==> Parses(rest[j], parse) {
      if of(a) ==> Parses(a, parse) {
        assert assertions[i + 1] == rest[i];
        assert forall j :: 0 < j < i + 1 ==> assertions[j] == rest[j - 1];
      }
    }
    if i :| 0 < i < |assertions| && of(assertions[i]) && FailsAt(assertions[i], parse, text)
            && forall j :: 0 <= j < i && of(assertions[j]) ==> Parses(assertions[j], parse) {
      assert rest[i - 1] == assertions[i];
      assert forall j :: 0 <= j < i - 1 ==> rest[j] == assertions[j + 1];
    }
  }

  /** `texts` are the versions of the assertions of interest. */
  ghost predicate TextsOf(texts: Assertion -> seq<string>, of: Assertion -> bool, parse: Parser) {
    forall a :: if of(a) then
                  (FirstBadText(texts(a), parse) == None <==> Parses(a, parse))
                  && forall t :: FirstBadText(texts(a), parse) == Some(t) <==> FailsAt(a, parse, t)
                else texts(a) == []
  }

  lemma {:induction false} FirstBadIsFirst(
    assertions: seq<Assertion>, texts: Assertion -> seq<string>, of: Assertion -> bool, parse: Parser, text: string)
    requires TextsOf(texts, of, parse)
    ensures FirstBad(assertions, texts, parse) == Some(text) <==> FirstFailure(assertions, of, parse, text)
  {
    if assertions != [] {
      FirstBadIsFirst(assertions[1..], texts, of, parse, text);
      FirstFailureCons(assertions, of, parse, text);
    }
  }

  lemma TextsAreVersions(parse: Parser)
    ensures TextsOf(AffectedTexts, (a: Assertion) => a.Affected?, parse)
    ensures TextsOf(NotAffectedTexts, (a: Assertion) => a.NotAffected?, parse)
    ensures TextsOf(AllTexts, (a: Assertion) => true, parse)
  {
    forall a: Assertion
      ensures FirstBadText(AllTexts(a), parse) == None <==> Parses(a, parse)
      ensures forall t :: FirstBadText(AllTexts(a), parse) == Some(t) <==> FailsAt(a, parse, t)
    {
      match a
      case Affected(_, _, start, end) => TwoTexts(start, end, parse);
      case NotAffected(_, _, version) => OneText(version, parse);
      case Fixed(_, _, version) => OneText(version, parse);
    }
    assert forall a: Assertion :: a.Affected? ==> AffectedTexts(a) == AllTexts(a);
    assert forall a: Assertion :: a.NotAffected? ==> NotAffectedTexts(a) == AllTexts(a);
  }

  /**
   * Each query fails with the candidate, when that is no version, or else with the first text it
   * comes to that is none: in the order of the list, the start of a range before its end, and for
   * the affected claimants all ranges before any version that is not affected.
   */
  lemma FirstErrors(assertions: seq<Assertion>, candidate: string, parse: Parser, text: string)
    ensures parse(candidate) == None ==>
      && FilteredBy(assertions, candidate, parse) == Err(candidate)
      && NotAffectedFor(assertions, candidate, parse) == Err(candidate)
      && AffectedFor(assertions, candidate, parse) == Err(candidate)
    ensures parse(candidate).Some? ==>
      && (FilteredBy(assertions, candidate, parse) == Err(text) <==> FirstFailure(assertions, _ => true, parse, text))
      && (NotAffectedFor(assertions, candidate, parse) == Err(text)
          <==> FirstFailure(assertions, (a: Assertion) => a.NotAffected?, parse, text))
      && (AffectedFor(assertions, candidate, parse) == Err(text)
          <==> || FirstFailure(assertions, (a: Assertion) => a.Affected?, parse, text)
               || ((forall a :: a in assertions && a.Affected? ==> Parses(a, parse))
                   && FirstFailure(assertions, (a: Assertion) => a.NotAffected?, parse, text)))
  {
    TextsAreVersions(parse);
    FirstBadIsFirst(assertions, AllTexts, (a: Assertion) => true, parse, text);
    FirstBadIsFirst(assertions, NotAffectedTexts, (a: Assertion) => a.NotAffected?, parse, text);
    FirstBadIsFirst(assertions, AffectedTexts, (a: Assertion) => a.Affected?, parse, text);
    FirstBadMeans(assertions, AffectedTexts, parse);
  }

  /** Filtering succeeds exactly when the claimant query does and every `Fixed` version parses too. */
  lemma FilterSucceeds(assertions: seq<Assertion>, candidate: string, parse: Parser)
    ensures FilteredBy(assertions, candidate, parse).Ok?
       <==> && AffectedFor(assertions, candidate, parse).Ok?
            && forall a :: a in assertions && a.Fixed? ==> parse(a.version).Some?
  {
    FirstBadMeans(assertions, AllTexts, parse);
    FirstBadMeans(assertions, AffectedTexts, parse);
    FirstBadMeans(assertions, NotAffectedTexts, parse);
    forall a: Assertion
      ensures FirstBadText(AllTexts(a), parse) == None
         <==> && FirstBadText(AffectedTexts(a), parse) == None && FirstBadText(NotAffectedTexts(a), parse) == None
              && (a.Fixed? ==> parse(a.version).Some?)
    {
      if !a.Affected? {
        OneText(a.version, parse);
      }
    }
  }

  lemma FilteredStillParses(assertions: seq<Assertion>, candidate: string, parse: Parser)
    requires FilteredBy(assertions, candidate, parse).Ok?
    ensures FilteredBy(FilteredBy(assertions, candidate, parse).value, candidate, parse).Ok?
  {
    var version := parse(candidate).value;
    FirstBadMeans(assertions, AllTexts, parse);
    FirstBadMeans(Keeping(assertions, version, parse), AllTexts, parse);
    forall a | a in Keeping(assertions, version, parse) ensures FirstBadText(AllTexts(a), parse) == None {
      KeepingMembers(assertions, version, parse, a);
    }
  }

  /**
   * Filtering by a version before asking who is affected at that version changes no answer: the
   * query cannot fail, lists the same claimants in the same order, and a second filter does nothing.
   */
  lemma FilterCommutes(assertions: seq<Assertion>, candidate: string, parse: Parser)
    requires FilteredBy(assertions, candidate, parse).Ok?
    ensures var filtered := FilteredBy(assertions, candidate, parse).value;
      && AffectedFor(assertions, candidate, parse).Ok?
      && AffectedFor(filtered, candidate, parse) == AffectedFor(assertions, candidate, parse)
      && NotAffectedFor(filtered, candidate, parse) == NotAffectedFor(assertions, candidate, parse)
      && FilteredBy(filtered, candidate, parse) == Ok(filtered)
  {
    var version := parse(candidate).value;
    var filtered := Keeping(assertions, version, parse);
    FilterSucceeds(assertions, candidate, parse);
    FilteredStillParses(assertions, candidate, parse);
    FilterSucceeds(filtered, candidate, parse);
    ClaimingAfterKeeping(assertions, a => Hits(a, version, parse), version, parse);
    ClaimingAfterKeeping(assertions, a => RulesOut(a, version, parse), version, parse);
    KeepingAfterKeeping(assertions, version, parse);
  }

  /** The version is at or after the start and before the end. */
  predicate Within(start: string, end: string, version: int, parse: Parser) {
    parse(start).Some? && parse(end).Some? && parse(start).value <= version && version < parse(end).value
  }

  /** The claimant gives a range that holds the version. */
  ghost predicate ClaimsRange(assertions: seq<Assertion>, version: int, parse: Parser, c: Claimant) {
    exists v, start, end :: Affected(v, c, start, end) in assertions && Within(start, end, version, parse)
  }

  /** The claimant says of some vulnerability that this very version is not affected. */
  ghost predicate ClaimsNot(assertions: seq<Assertion>, version: int, parse: Parser, c: Claimant) {
    exists v, text :: NotAffected(v, c, text) in assertions && parse(text) == Some(version)
  }

  lemma ClaimsAreAssertions(assertions: seq<Assertion>, version: int, parse: Parser, c: Claimant)
    ensures (exists a :: a in assertions && Hits(a, version, parse) && a.claimant == c)
       <==> ClaimsRange(assertions, version, parse, c)
    ensures (exists a :: a in assertions && RulesOut(a, version, parse) && a.claimant == c)
       <==> ClaimsNot(assertions, version, parse, c)
  {
    forall a | a in assertions && Hits(a, version, parse) && a.claimant == c
      ensures Affected(a.vulnerability, c, a.startVersion, a.endVersion) in assertions
    {
    }
    forall a | a in assertions && RulesOut(a, version, parse) && a.claimant == c
      ensures NotAffected(a.vulnerability, c, a.version) in assertions
    {
    }
    if v, start, end :| Affected(v, c, start, end) in assertions && Within(start, end, version, parse) {
      assert Hits(Affected(v, c, start, end), version, parse);
    }
    if v, text :| NotAffected(v, c, text) in assertions && parse(text) == Some(version) {
      assert RulesOut(NotAffected(v, c, text), version, parse);
    }
  }

  lemma AffectedMembers(assertions: seq<Assertion>, candidate: string, parse: Parser, c: Claimant)
    requires AffectedFor(assertions, candidate, parse).Ok?
    ensures var version := parse(candidate).value;
      c in AffectedFor(assertions, candidate, parse).value
      <==> && (exists a :: a in assertions && Hits(a, version, parse) && a.claimant == c)
           && !(exists a :: a in assertions && RulesOut(a, version, parse) && a.claimant == c)
  {
    var version := parse(candidate).value;
    var hits := a => Hits(a, version, parse);
    var rulesOut := a => RulesOut(a, version, parse);
    ClaimingMembers(assertions, hits, c);
    ClaimingMembers(assertions, rulesOut, c);
    WithoutMembers(Claiming(assertions, hits), Claiming(assertions, rulesOut), c);
    assert forall a: Assertion :: hits(a) == Hits(a, version, parse) && rulesOut(a) == RulesOut(a, version, parse);
  }

  /**
   * A claimant is listed exactly when one of its ranges holds the version and it says of no
   * vulnerability at all that this very version is not affected.
   */
  lemma AffectedMeans(assertions: seq<Assertion>, candidate: string, parse: Parser, c: Claimant)
    requires AffectedFor(assertions, candidate, parse).Ok?
    ensures var version := parse(candidate).value;
      c in AffectedFor(assertions, candidate, parse).value
      <==> ClaimsRange(assertions, version, parse, c) && !ClaimsNot(assertions, version, parse, c)
  {
    AffectedMembers(assertions, candidate, parse, c);
    ClaimsAreAssertions(assertions, parse(candidate).value, parse, c);
  }

  /** The range holds the version, or the single version is that one. */
  predicate Concerns(a: Assertion, version: int, parse: Parser) {
    match a
    case Affected(_, _, start, end) => Within(start, end, version, parse)
    case NotAffected(_, _, text) => parse(text) == Some(version)
    case Fixed(_, _, text) => parse(text) == Some(version)
  }

  /** Who says that the version is not affected, and what a filter keeps. */
  lemma FilterKeeps(assertions: seq<Assertion>, candidate: string, parse: Parser, c: Claimant, a: Assertion)
    requires parse(candidate).Some?
    ensures var version := parse(candidate).value;
      NotAffectedFor(assertions, candidate, parse).Ok? ==>
        (c in NotAffectedFor(assertions, candidate, parse).value <==> ClaimsNot(assertions, version, parse, c))
    ensures var version := parse(candidate).value;
      FilteredBy(assertions, candidate, parse).Ok? ==>
        (a in FilteredBy(assertions, candidate, parse).value <==> a in assertions && Concerns(a, version, parse))
  {
    var version := parse(candidate).value;
    ClaimingMembers(assertions, b => RulesOut(b, version, parse), c);
    ClaimsAreAssertions(assertions, version, parse, c);
    KeepingMembers(assertions, version, parse, a);
  }

  lemma {:induction false} ClaimingAppend(a: seq<Assertion>, b: seq<Assertion>, about: Assertion -> bool)
    ensures Claiming(a + b, about) == Claiming(a, about) + Claiming(b, about)
  {
    if b == [] {
      assert a + b == a;
    } else {
      var rest, last := b[..|b| - 1], b[|b| - 1];
      ClaimingAppend(a, rest, about);
      assert (a + b)[..|a + b| - 1] == a + rest;
    }
  }

  lemma {:induction false} KeepingAppend(a: seq<Assertion>, b: seq<Assertion>, version: int, parse: Parser)
    ensures Keeping(a + b, version, parse) == Keeping(a, version, parse) + Keeping(b, version, parse)
  {
    if b == [] {
      assert a + b == a;
    } else {
      var rest, last := b[..|b| - 1], b[|b| - 1];
      KeepingAppend(a, rest, version, parse);
      assert (a + b)[..|a + b| - 1] == a + rest;
    }
  }

  lemma WithoutCons(c: Claimant, rest: seq<Claimant>, excluded: seq<Claimant>)
    ensures Without([c] + rest, excluded) == (if IsExcluded(c, excluded) then [] else [c]) + Without(rest, excluded)
  {
    assert ([c] + rest)[1..] == rest;
  }

  lemma Regroup(a: seq<Claimant>, b: seq<Claimant>, c: seq<Claimant>)
    ensures a + (b + c) == a + b + c
  {
  }

  lemma {:induction false} WithoutAppend(a: seq<Claimant>, b: seq<Claimant>, excluded: seq<Claimant>)
    ensures Without(a + b, excluded) == Without(a, excluded) + Without(b, excluded)
  {
    if a == [] {
      assert a + b == b;
    } else {
      WithoutAppend(a[1..], b, excluded);
      assert a == [a[0]] + a[1..] && a + b == [a[0]] + (a[1..] + b);
      WithoutCons(a[0], a[1..], excluded);
      WithoutCons(a[0], a[1..] + b, excluded);
      Regroup(if IsExcluded(a[0], excluded) then [] else [a[0]], Without(a[1..], excluded), Without(b, excluded));
    }
  }

  lemma ParsesBoth(a: seq<Assertion>, b: seq<Assertion>, texts: Assertion -> seq<string>, parse: Parser)
    ensures FirstBad(a + b, texts, parse) == None
       <==> FirstBad(a, texts, parse) == None && FirstBad(b, texts, parse) == None
  {
    FirstBadMeans(a, texts, parse);
    FirstBadMeans(b, texts, parse);
    FirstBadMeans(a + b, texts, parse);
    assert forall x :: x in a + b <==> x in a || x in b;
  }

  /**
   * Results come in the order of the assertions: what two lists give together is what the first one
   * gives followed by what the second one gives, where the lists rule nothing out for the affected.
   */
  lemma ResultsInOrder(a: seq<Assertion>, b: seq<Assertion>, candidate: string, parse: Parser)
    requires FilteredBy(a, candidate, parse).Ok? && FilteredBy(b, candidate, parse).Ok?
    ensures FilteredBy(a + b, candidate, parse)
         == Ok(FilteredBy(a, candidate, parse).value + FilteredBy(b, candidate, parse).value)
    ensures NotAffectedFor(a, candidate, parse).Ok? && NotAffectedFor(b, candidate, parse).Ok?
    ensures NotAffectedFor(a + b, candidate, parse)
         == Ok(NotAffectedFor(a, candidate, parse).value + NotAffectedFor(b, candidate, parse).value)
    ensures AffectedFor(a, candidate, parse).Ok? && AffectedFor(b, candidate, parse).Ok?
    ensures NotAffectedFor(a + b, candidate, parse) == Ok([]) ==>
              AffectedFor(a + b, candidate, parse)
              == Ok(AffectedFor(a, candidate, parse).value + AffectedFor(b, candidate, parse).value)
  {
    var version := parse(candidate).value;
    FilterSucceeds(a, candidate, parse);
    FilterSucceeds(b, candidate, parse);
    ParsesBoth(a, b, AllTexts, parse);
    ParsesBoth(a, b, AffectedTexts, parse);
    ParsesBoth(a, b, NotAffectedTexts, parse);
    KeepingAppend(a, b, version, parse);
    ClaimingAppend(a, b, x => RulesOut(x, version, parse));
    ClaimingAppend(a, b, x => Hits(x, version, parse));
    WithoutAppend(Claiming(a, x => Hits(x, version, parse)), Claiming(b, x => Hits(x, version, parse)), []);
  }

  // ---------------------------------------------------------------------------------------------
  // Claims taken vulnerability by vulnerability.

  predicate HitBy(assertions: seq<Assertion>, version: int, parse: Parser, c: Claimant, vulnerability: string) {
    exists a :: a in assertions && Hits(a, version, parse) && a.claimant == c && a.vulnerability == vulnerability
  }

  predicate RuledOutBy(assertions: seq<Assertion>, version: int, parse: Parser, c: Claimant, vulnerability: string) {
    exists a :: a in assertions && RulesOut(a, version, parse) && a.claimant == c && a.vulnerability == vulnerability
  }

  /** The claimant says of some vulnerability that the version is affected, and does not withdraw that. */
  ghost predicate StillClaims(assertions: seq<Assertion>, version: int, parse: Parser, c: Claimant) {
    exists v :: HitBy(assertions, version, parse, c, v) && !RuledOutBy(assertions, version, parse, c, v)
  }

  ghost predicate RulesOutNothing(assertions: seq<Assertion>, version: int, parse: Parser, c: Claimant) {
    forall v :: !RuledOutBy(assertions, version, parse, c, v)
  }

  ghost predicate RulesOutEveryHit(assertions: seq<Assertion>, version: int, parse: Parser, c: Claimant) {
    forall v :: HitBy(assertions, version, parse, c, v) ==> RuledOutBy(assertions, version, parse, c, v)
  }

  lemma ListedByVulnerability(assertions: seq<Assertion>, candidate: string, parse: Parser, c: Claimant)
    requires AffectedFor(assertions, candidate, parse).Ok?
    ensures var version := parse(candidate).value;
      c in AffectedFor(assertions, candidate, parse).value
      <==> (exists v :: HitBy(assertions, version, parse, c, v)) && RulesOutNothing(assertions, version, parse, c)
  {
    var version := parse(candidate).value;
    AffectedMembers(assertions, candidate, parse, c);
    forall a | a in assertions && Hits(a, version, parse) && a.claimant == c
      ensures HitBy(assertions, version, parse, c, a.vulnerability) {
    }
    forall a | a in assertions && RulesOut(a, version, parse) && a.claimant == c
      ensures RuledOutBy(assertions, version, parse, c, a.vulnerability) {
    }
  }

  /**
   * The list agrees with the claims taken vulnerability by vulnerability exactly for the claimants
   * that rule the version out for nothing, or for everything they claim it is affected by.
   */
  lemma ListsStandingClaims(assertions: seq<Assertion>, candidate: string, parse: Parser, c: Claimant)
    requires AffectedFor(assertions, candidate, parse).Ok?
    ensures var version := parse(candidate).value;
      (c in AffectedFor(assertions, candidate, parse).value <==> StillClaims(assertions, version, parse, c))
      <==> RulesOutNothing(assertions, version, parse, c) || RulesOutEveryHit(assertions, version, parse, c)
  {
    ListedByVulnerability(assertions, candidate, parse, c);
  }

  lemma HeadIsMember(claimants: seq<Claimant>)
    ensures claimants != [] ==> claimants[0] in claimants
  {
  }

  /** Ruling out one vulnerability withdraws a claim about another. */
  lemma ClaimIsLost(c: Claimant, one: string, other: string, start: string, end: string, at: string, parse: Parser)
    requires one != other && parse(start).Some? && parse(end).Some? && parse(at).Some?
    requires parse(start).value <= parse(at).value < parse(end).value
    ensures var assertions := [Affected(one, c, start, end), NotAffected(other, c, at)];
      && AffectedFor(assertions, at, parse) == Ok([])
      && StillClaims(assertions, parse(at).value, parse, c)
  {
    var hit, ruling := Affected(one, c, start, end), NotAffected(other, c, at);
    var assertions, version := [hit, ruling], parse(at).value;
    FirstBadMeans(assertions, AffectedTexts, parse);
    FirstBadMeans(assertions, NotAffectedTexts, parse);
    TwoTexts(start, end, parse);
    OneText(at, parse);
    assert forall a :: a in assertions ==> a == hit || a == ruling;
    assert AffectedFor(assertions, at, parse).Ok?;
    assert hit in assertions && ruling in assertions;
    forall d ensures d !in AffectedFor(assertions, at, parse).value {
      AffectedMembers(assertions, at, parse, d);
    }
    HeadIsMember(AffectedFor(assertions, at, parse).value);
    assert HitBy(assertions, version, parse, c, one) && !RuledOutBy(assertions, version, parse, c, one);
  }
}
