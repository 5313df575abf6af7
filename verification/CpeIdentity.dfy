/** What a CPE URI retains of the attributes it was built from. */
module CpeIdentity {
  import opened Results
  import opened Strings
  import opened Identifiers
  import opened PercentEncoding
  import opened Cpe

  // ------------------------------------------------- the parts of a URI

  /** The edition and the four extended attributes, unpacked. */
  function EditionFields(s: string): (r: Option<seq<string>>)
    ensures r.Some? ==> |r.value| == 5
  {
    if !StartsWith(s, '~') then Some([s, "", "", "", ""])
    else
      var parts := Split(s, '~');
      if |parts| != 6 then None else Some(parts[1..])
  }

  /** A missing component is empty. */
  function At(components: seq<string>, i: nat): string {
    if i < |components| then components[i] else ""
  }

  /** Part, vendor, product, version, update, edition, the four extended attributes and language. */
  function UriFields(uri: string): (r: Option<seq<string>>)
    ensures r.Some? ==> |r.value| == 11
  {
    if !("cpe:/" <= uri) then None
    else
      var c := Split(uri[5..], ':');
      if |c| > 7 then None
      else
        match EditionFields(At(c, 5))
        case None => None
        case Some(e) => Some(Around(c, e))
  }

  /** The edition's five fields in place of the edition. */
  function Around(c: seq<string>, e: seq<string>): (r: seq<string>)
    requires |e| == 5
    ensures |r| == 11
  {
    [At(c, 0), At(c, 1), At(c, 2), At(c, 3), At(c, 4), e[0], e[1], e[2], e[3], e[4], At(c, 6)]
  }

  function BoundFields(n: Name): (r: seq<string>)
    ensures |r| == 11
  {
    [n.part, BindComponent(n.vendor), BindComponent(n.product), BindComponent(n.version), BindComponent(n.update),
     BindComponent(n.edition), BindComponent(n.swEdition), BindComponent(n.targetSw), BindComponent(n.targetHw),
     BindComponent(n.other), BindLanguage(n.language)]
  }

  // ------------------------------------------------- the values read from a URI

  /** The value of a component: percent-decoded, a wildcard as its character. */
  function UnbindComponent(s: string): Option<Component> {
    if s == "" then Some(Any)
    else if s == "-" then Some(NotApplicable)
    else match Decode(s) case Some(v) => Some(Value(v)) case None => None
  }

  function UnbindLanguage(s: string): Language {
    if s == "" then AnyLanguage else Tag(s)
  }

  function ValueOf(s: string): Component
    requires UnbindComponent(s).Some?
  {
    UnbindComponent(s).value
  }

  function UnbindFields(f: seq<string>): Option<Name>
    requires |f| == 11
  {
    if forall i :: 1 <= i < 10 ==> UnbindComponent(f[i]).Some? then
      Some(Name(f[0], ValueOf(f[1]), ValueOf(f[2]), ValueOf(f[3]), ValueOf(f[4]), ValueOf(f[5]),
                UnbindLanguage(f[10]), ValueOf(f[6]), ValueOf(f[7]), ValueOf(f[8]), ValueOf(f[9])))
    else None
  }

  predicate FieldsAre(f: seq<string>, n: Name)
    requires |f| == 11
  {
    && f[0] == n.part && UnbindLanguage(f[10]) == n.language
    && UnbindComponent(f[1]) == Some(n.vendor) && UnbindComponent(f[2]) == Some(n.product)
    && UnbindComponent(f[3]) == Some(n.version) && UnbindComponent(f[4]) == Some(n.update)
    && EditionIs(f, n)
  }

  predicate EditionIs(f: seq<string>, n: Name)
    requires |f| == 11
  {
    && UnbindComponent(f[5]) == Some(n.edition) && UnbindComponent(f[6]) == Some(n.swEdition)
    && UnbindComponent(f[7]) == Some(n.targetSw) && UnbindComponent(f[8]) == Some(n.targetHw)
    && UnbindComponent(f[9]) == Some(n.other)
  }

  lemma FieldsExactly(f: seq<string>, n: Name)
    requires |f| == 11
    ensures UnbindFields(f) == Some(n) <==> FieldsAre(f, n)
  {
    if FieldsAre(f, n) {
      forall i | 1 <= i < 10 ensures UnbindComponent(f[i]).Some? {
      }
    }
  }

  function Unbind(uri: string): Option<Name> {
    match UriFields(uri) case None => None case Some(f) => UnbindFields(f)
  }

  // ------------------------------------------------- one component

  /** What one component becomes on its way through a URI. */
  function Settled(c: Component): Component {
    match c
    case Value(v) => if v == "" then Any else if v == "-" then NotApplicable else Value(WildcardAll(v))
    case _ => c
  }

  predicate ComponentOk(c: Component) {
    c.Value? ==> c.text != "" && c.text != "-" && ControlFree(c.text)
  }

  lemma WildcardTwice(v: string)
    ensures WildcardAll(WildcardAll(v)) == WildcardAll(v)
    ensures WildcardAll(v) == "-" ==> v == "-"
    ensures WildcardAll(v) == "" ==> v == ""
  {
    if WildcardAll(v) == "-" {
      assert WildcardAll(v)[0] == Wildcard(v[0]);
    }
  }

  lemma UnbindText(s: string, v: string)
    requires s == "" <==> v == ""
    requires s == "-" <==> v == "-"
    requires Decode(s) == Some(WildcardAll(v))
    ensures UnbindComponent(s) == Some(Settled(Value(v)))
  {
  }

  lemma ValueThroughUri(v: string)
    ensures UnbindComponent(Encode(v)) == Some(Settled(Value(v)))
    ensures ':' !in Encode(v) && '~' !in Encode(v)
    ensures Encode(v) == "" ==> v == ""
  {
    assert UnbindComponent(Encode(v)) == Some(Settled(Value(v))) by {
      EncodedAlphabet(v);
      DecodeOfEncode(v);
      UnbindText(Encode(v), v);
    }
    EncodedAlphabet(v);
    assert !Unreserved(':') && !Unreserved('~');
  }

  lemma SettledValue(v: string)
    ensures Settled(Value(v)) == Value(v) <==> ComponentOk(Value(v))
  {
    EncodingRoundTrip(v);
    DecodeOfEncode(v);
  }

  lemma ComponentThroughUri(c: Component)
    ensures UnbindComponent(BindComponent(c)) == Some(Settled(c))
    ensures Settled(c) == c <==> ComponentOk(c)
    ensures Settled(Settled(c)) == Settled(c)
    ensures BindComponent(c) == "" ==> Settled(c) == Any
    ensures ':' !in BindComponent(c) && '~' !in BindComponent(c)
  {
    if c.Value? {
      ValueThroughUri(c.text);
      SettledValue(c.text);
      WildcardTwice(c.text);
    }
  }

  // ------------------------------------------------- the edition

  lemma PlainEdition(e: string)
    requires '~' !in e
    ensures EditionFields(e) == Some([e, "", "", "", ""])
  {
    assert e != "" ==> e[0] in e;
  }

  lemma PackedEdition(parts: seq<string>)
    requires |parts| == 5 && forall p :: p in parts ==> '~' !in p
    ensures EditionFields("~" + Join(parts, "~")) == Some(parts)
  {
    var s := "~" + Join(parts, "~");
    assert s == "" + ['~'] + Join(parts, "~");
    SplitAt("", '~', Join(parts, "~"));
    SplitOfJoin(parts, '~');
    assert ([""] + parts)[1..] == parts;
  }

  /** Edition and extended attributes as they are bound one by one. */
  function BoundEdition(n: Name): (r: seq<string>)
    ensures |r| == 5
  {
    [BindComponent(n.edition), BindComponent(n.swEdition), BindComponent(n.targetSw), BindComponent(n.targetHw),
     BindComponent(n.other)]
  }

  lemma BoundAlphabet(n: Name)
    ensures forall p :: p in BoundEdition(n) ==> ':' !in p && '~' !in p
  {
    ComponentThroughUri(n.edition);
    ComponentThroughUri(n.swEdition);
    ComponentThroughUri(n.targetSw);
    ComponentThroughUri(n.targetHw);
    ComponentThroughUri(n.other);
  }

  /** Packing the extended attributes into the edition loses none of the five. */
  lemma EditionThroughUri(n: Name)
    ensures EditionFields(BindEdition(n)) == Some(BoundEdition(n))
    ensures ':' !in BindEdition(n)
  {
    var parts := BoundEdition(n);
    BoundAlphabet(n);
    assert parts == [parts[0]] + parts[1..];
    if parts[1..] == ["", "", "", ""] {
      PlainEdition(parts[0]);
    } else {
      PackedEdition(parts);
      ColonFreeJoin(parts);
    }
  }

  lemma {:induction false} ColonFreeJoin(parts: seq<string>)
    requires forall p :: p in parts ==> ':' !in p
    ensures ':' !in Join(parts, "~")
  {
    if |parts| > 1 {
      assert parts == [parts[0]] + parts[1..];
      ColonFreeJoin(parts[1..]);
    }
  }

  // ------------------------------------------------- the whole name

  predicate LanguageOk(l: Language) {
    l.Tag? ==> l.text != ""
  }

  /** The two texts that are copied into the URI as they are hold no separator. */
  predicate ColonFree(n: Name) {
    ':' !in n.part && (n.language.Tag? ==> ':' !in n.language.text)
  }

  predicate Faithful(n: Name) {
    && ColonFree(n) && LanguageOk(n.language)
    && ComponentOk(n.vendor) && ComponentOk(n.product) && ComponentOk(n.version) && ComponentOk(n.update)
    && ComponentOk(n.edition) && ComponentOk(n.swEdition) && ComponentOk(n.targetSw)
    && ComponentOk(n.targetHw) && ComponentOk(n.other)
  }

  function SettledName(n: Name): Name {
    Name(n.part, Settled(n.vendor), Settled(n.product), Settled(n.version), Settled(n.update), Settled(n.edition),
         if n.language == Tag("") then AnyLanguage else n.language,
         Settled(n.swEdition), Settled(n.targetSw), Settled(n.targetHw), Settled(n.other))
  }

  lemma {:induction false} DropTrailingFacts(c: seq<string>)
    ensures DropTrailingEmpty(c) <= c
    ensures DropTrailingEmpty(c) == [] || DropTrailingEmpty(c)[|DropTrailingEmpty(c)| - 1] != ""
    ensures forall i :: |DropTrailingEmpty(c)| <= i < |c| ==> c[i] == ""
  {
    if c != [] && c[|c| - 1] == "" {
      DropTrailingFacts(c[..|c| - 1]);
      forall i | |DropTrailingEmpty(c)| <= i < |c| ensures c[i] == "" {
        if i < |c| - 1 {
          assert c[i] == c[..|c| - 1][i];
        }
      }
    }
  }

  /** Dropping trailing empty components and joining with colons loses nothing. */
  lemma ComponentsThroughUri(c: seq<string>)
    requires |c| == 7 && forall p :: p in c ==> ':' !in p
    ensures var back := Split(Join(DropTrailingEmpty(c), ":"), ':');
            |back| <= 7 && forall i :: 0 <= i < 7 ==> At(back, i) == c[i]
  {
    DropTrailingFacts(c);
    var kept := DropTrailingEmpty(c);
    if kept == [] {
      assert Split("", ':') == [""];
    } else {
      forall p | p in kept ensures ':' !in p {
        var i :| 0 <= i < |kept| && kept[i] == p;
        assert c[i] == p;
      }
      SplitOfJoin(kept, ':');
    }
  }

  lemma BoundAreColonFree(n: Name)
    requires ColonFree(n)
    ensures forall p :: p in BoundComponents(n) ==> ':' !in p
  {
    ComponentThroughUri(n.vendor);
    ComponentThroughUri(n.product);
    ComponentThroughUri(n.version);
    ComponentThroughUri(n.update);
    EditionThroughUri(n);
  }

  /** The URI holds every bound attribute, whatever the values. */
  lemma FieldsThroughUri(n: Name)
    requires ColonFree(n)
    ensures UriFields(BindUri(n)) == Some(BoundFields(n))
  {
    var c, tail := BoundComponents(n), BindUri(n)[5..];
    assert tail == Join(DropTrailingEmpty(c), ":");
    BoundAreColonFree(n);
    ComponentsThroughUri(c);
    assert Around(Split(tail, ':'), BoundEdition(n)) == BoundFields(n);
    assert At(Split(tail, ':'), 5) == BindEdition(n);
    EditionThroughUri(n);
  }

  lemma {:induction false} JoinEnd(parts: seq<string>, sep: string)
    requires parts != [] && parts[|parts| - 1] != ""
    ensures var s, last := Join(parts, sep), parts[|parts| - 1]; s != "" && s[|s| - 1] == last[|last| - 1]
  {
    if |parts| > 1 {
      JoinEnd(parts[1..], sep);
    }
  }

  /** A URI has no trailing separators: it is as short as its attributes allow. */
  lemma NoTrailingColon(n: Name)
    requires ColonFree(n)
    ensures BindUri(n)[|BindUri(n)| - 1] != ':'
  {
    var c := BoundComponents(n);
    var kept := DropTrailingEmpty(c);
    DropTrailingFacts(c);
    BoundAreColonFree(n);
    if kept != [] {
      JoinEnd(kept, ":");
      var last := kept[|kept| - 1];
      assert last == c[|kept| - 1] && last in c && last[|last| - 1] in last;
    }
  }

  lemma FieldValue(c: Component)
    ensures UnbindComponent(BindComponent(c)) == Some(Settled(c))
  {
    ComponentThroughUri(c);
  }

  lemma EditionValues(n: Name)
    ensures EditionIs(BoundFields(n), SettledName(n))
  {
    FieldValue(n.edition);
    FieldValue(n.swEdition);
    FieldValue(n.targetSw);
    FieldValue(n.targetHw);
    FieldValue(n.other);
  }

  lemma FieldValues(n: Name)
    ensures UnbindFields(BoundFields(n)) == Some(SettledName(n))
  {
    assert FieldsAre(BoundFields(n), SettledName(n)) by {
      FieldValue(n.vendor);
      FieldValue(n.product);
      FieldValue(n.version);
      FieldValue(n.update);
      EditionValues(n);
    }
    FieldsExactly(BoundFields(n), SettledName(n));
  }

  /** The values any name has on its way through a URI. */
  lemma NameThroughUri(n: Name)
    requires ColonFree(n)
    ensures Unbind(BindUri(n)) == Some(SettledName(n))
  {
    FieldsThroughUri(n);
    FieldValues(n);
  }

  lemma SettledExactly(n: Name)
    ensures SettledName(n) == n && ColonFree(n) <==> Faithful(n)
    ensures SettledName(SettledName(n)) == SettledName(n)
  {
    ComponentThroughUri(n.vendor);
    ComponentThroughUri(n.product);
    ComponentThroughUri(n.version);
    ComponentThroughUri(n.update);
    ComponentThroughUri(n.edition);
    ComponentThroughUri(n.swEdition);
    ComponentThroughUri(n.targetSw);
    ComponentThroughUri(n.targetHw);
    ComponentThroughUri(n.other);
  }

  lemma UnboundIsColonFree(uri: string)
    ensures UriFields(uri).Some? ==> ':' !in UriFields(uri).value[0] && ':' !in UriFields(uri).value[10]
    ensures Unbind(uri).Some? ==> ColonFree(Unbind(uri).value)
  {
    if UriFields(uri).Some? {
      var c := Split(uri[5..], ':');
      SplitParts(uri[5..], ':');
      assert At(c, 0) == "" || At(c, 0) in c;
      assert At(c, 6) == "" || At(c, 6) in c;
    }
  }

  /** The URI determines the values of all eleven attributes exactly for faithful names. */
  lemma UriRoundTrip(n: Name)
    ensures Unbind(BindUri(n)) == Some(n) <==> Faithful(n)
  {
    SettledExactly(n);
    if ColonFree(n) {
      NameThroughUri(n);
    } else {
      UnboundIsColonFree(BindUri(n));
    }
  }

  // ------------------------------------------------- identity

  function Text(c: Component): string {
    match c case Any => "*" case NotApplicable => "" case Value(v) => v
  }

  function LanguageText(l: Language): string {
    match l case AnyLanguage => "*" case Tag(t) => t
  }

  function PartText(part: string): string {
    if part == "" then "*" else part
  }

  function CpeUuid(n: Name): Uuid {
    var u := V5(Root, PartText(n.part));
    var u := V5(u, Text(n.vendor));
    var u := V5(u, Text(n.product));
    var u := V5(u, Text(n.version));
    var u := V5(u, Text(n.update));
    var u := V5(u, Text(n.edition));
    V5(u, LanguageText(n.language))
  }

  /** The first `k` hashed attributes have equal texts, in the order in which they are hashed. */
  predicate SameFirst(a: Name, b: Name, k: nat) {
    && (k >= 1 ==> PartText(a.part) == PartText(b.part))
    && (k >= 2 ==> Text(a.vendor) == Text(b.vendor))
    && (k >= 3 ==> Text(a.product) == Text(b.product))
    && (k >= 4 ==> Text(a.version) == Text(b.version))
    && (k >= 5 ==> Text(a.update) == Text(b.update))
    && (k >= 6 ==> Text(a.edition) == Text(b.edition))
    && (k >= 7 ==> LanguageText(a.language) == LanguageText(b.language))
  }

  /**
   * Two identifiers share their ancestors exactly as far as part, vendor, product, version, update,
   * edition and language, in this order, have equal texts.
   */
  lemma SharedAncestors(a: Name, b: Name, k: nat)
    ensures Ancestor(CpeUuid(a), k) == Ancestor(CpeUuid(b), k) <==> SameFirst(a, b, k)
    ensures Depth(CpeUuid(a)) == 7
  {
    var u, w := V5(Root, PartText(a.part)), V5(Root, PartText(b.part));
    SharedLink(Root, PartText(a.part), Root, PartText(b.part), k);
    SharedLink(u, Text(a.vendor), w, Text(b.vendor), k);
    u, w := V5(u, Text(a.vendor)), V5(w, Text(b.vendor));
    SharedLink(u, Text(a.product), w, Text(b.product), k);
    u, w := V5(u, Text(a.product)), V5(w, Text(b.product));
    SharedLink(u, Text(a.version), w, Text(b.version), k);
    u, w := V5(u, Text(a.version)), V5(w, Text(b.version));
    SharedLink(u, Text(a.update), w, Text(b.update), k);
    u, w := V5(u, Text(a.update)), V5(w, Text(b.update));
    SharedLink(u, Text(a.edition), w, Text(b.edition), k);
    u, w := V5(u, Text(a.edition)), V5(w, Text(b.edition));
    SharedLink(u, LanguageText(a.language), w, LanguageText(b.language), k);
  }

  /** Identifiers of names that differ in nothing but the language differ in nothing but the last name. */
  lemma LanguageComesLast(a: Name, language: Language)
    ensures Ancestor(CpeUuid(a), 6) == Ancestor(CpeUuid(a.(language := language)), 6)
    ensures CpeUuid(a) == V5(Ancestor(CpeUuid(a), 6), LanguageText(a.language))
  {
    SharedAncestors(a, a.(language := language), 6);
    var u := CpeUuid(a);
    Link(u.parent, u.name, 6);
  }

  /** Equal texts are equal attributes, but for `*` and the empty text, which stand for ANY and NA. */
  lemma EqualTexts(c: Component, d: Component)
    ensures Text(c) == Text(d) <==> c == d || {c, d} == {Any, Value("*")} || {c, d} == {NotApplicable, Value("")}
  {
    assert c != d ==> c in {c, d} && d in {c, d};
  }

  /** The version and the extended attributes set to ANY. */
  function Stripped(n: Name): Name {
    n.(version := Any, swEdition := Any, targetSw := Any, targetHw := Any, other := Any)
  }

  /** The URI is built anew and parsed; a parse error would keep the original. */
  method WithAnyVersion(n: Name) returns (r: Name)
    ensures r == AnyVersion(n)
  {
    var vendor := BindComponent(n.vendor);
    var product := BindComponent(n.product);
    var update := BindComponent(n.update);
    var edition := BindComponent(n.edition);
    var language := BindLanguage(n.language);
    assert BindEdition(Stripped(n)) == edition;
    assert [n.part, vendor, product, "", update, edition, language] == BoundComponents(Stripped(n));
    var components := PopTrailingEmpty([n.part, vendor, product, "", update, edition, language]);
    var parsed := Unbind(PREFIX + Join(components, ":"));
    match parsed {
      case Some(u) => r := u;
      case None => r := n;
    }
  }

  function AnyVersion(n: Name): Name {
    match Unbind(BindUri(Stripped(n))) case Some(u) => u case None => n
  }

  /**
   * Normalizing never takes its error branch, keeps the other attributes exactly when they
   * are faithful, and doing it twice changes nothing.
   */
  lemma AnyVersionKeeps(n: Name)
    requires ColonFree(n)
    ensures Unbind(BindUri(Stripped(n))).Some?
    ensures AnyVersion(n) == Stripped(n) <==> Faithful(Stripped(n))
    ensures AnyVersion(AnyVersion(n)) == AnyVersion(n)
  {
    var s := Stripped(n);
    NameThroughUri(s);
    SettledExactly(s);
    var t := AnyVersion(n);
    assert t == SettledName(s) && Stripped(t) == t;
    NameThroughUri(t);
  }

  /**
   * What is left after normalizing: neither a version nor an extended attribute, and each of the
   * other attributes as far as a URI can carry it.
   */
  lemma AnyVersionFields(n: Name)
    requires ColonFree(n)
    ensures var r := AnyVersion(n);
      && r.version == Any && r.swEdition == Any && r.targetSw == Any && r.targetHw == Any && r.other == Any
      && r.part == n.part && r.vendor == Settled(n.vendor) && r.product == Settled(n.product)
      && r.update == Settled(n.update) && r.edition == Settled(n.edition)
      && r.language == if n.language == Tag("") then AnyLanguage else n.language
  {
    NameThroughUri(Stripped(n));
  }

  predicate SameIdentity(a: Name, b: Name) {
    && PartText(a.part) == PartText(b.part)
    && Text(a.vendor) == Text(b.vendor) && Text(a.product) == Text(b.product)
    && Text(a.update) == Text(b.update) && Text(a.edition) == Text(b.edition)
    && LanguageText(a.language) == LanguageText(b.language)
  }

  lemma AnyVersionSettles(n: Name)
    requires ColonFree(n)
    ensures AnyVersion(n) == SettledName(Stripped(n))
    ensures Faithful(Stripped(n)) ==> SettledName(Stripped(n)) == Stripped(n)
  {
    NameThroughUri(Stripped(n));
    SettledExactly(Stripped(n));
  }

  /**
   * After normalization two names get one identifier exactly when they agree outside the version, as
   * far as a URI can carry what they hold; for faithful names that is plain agreement.
   */
  lemma AnyVersionIdentity(a: Name, b: Name)
    requires ColonFree(a) && ColonFree(b)
    ensures CpeUuid(AnyVersion(a)) == CpeUuid(AnyVersion(b)) <==> SameIdentity(SettledName(a), SettledName(b))
    ensures Faithful(Stripped(a)) && Faithful(Stripped(b))
        ==> (CpeUuid(AnyVersion(a)) == CpeUuid(AnyVersion(b)) <==> SameIdentity(a, b))
    ensures CpeUuid(a) == CpeUuid(AnyVersion(a)) <==> Text(a.version) == "*" && SameIdentity(a, SettledName(a))
  {
    AnyVersionSettles(a);
    AnyVersionSettles(b);
  }
}
