/** CPEs as database rows, and back. */
module CpeRow {
  import opened Results
  import opened Strings
  import opened Identifiers
  import opened PercentEncoding
  import opened Cpe
  import opened CpeIdentity

  datatype Row = Row(
    id: Uuid, part: Option<string>, vendor: Option<string>, product: Option<string>, version: Option<string>,
    update: Option<string>, edition: Option<string>, language: Option<string>, swEdition: Option<string>,
    targetSw: Option<string>, targetHw: Option<string>, other: Option<string>)

  function Column(c: Component): Option<string> {
    match c
    case Any => Some("*")
    case NotApplicable => None
    case Value(v) => Some(v)
  }

  function FromCpe(n: Name): Row {
    Row(CpeUuid(n), Some(PartText(n.part)), Column(n.vendor), Column(n.product), Column(n.version), Column(n.update),
        Column(n.edition), Some(LanguageText(n.language)), Column(n.swEdition), Column(n.targetSw),
        Column(n.targetHw), Column(n.other))
  }

  /** `*` and absent columns both mean ANY to the packing. */
  function Present(v: Option<string>): Option<string> {
    if v == Some("*") then None else v
  }

  function OrEmpty(v: Option<string>): string {
    if v.Some? then v.value else ""
  }

  method PackColumns(
    edition: Option<string>, swEdition: Option<string>, targetSw: Option<string>, targetHw: Option<string>,
    other: Option<string>)
    returns (packed: Option<string>)
    ensures packed == Packed(edition, swEdition, targetSw, targetHw, other)
  {
    var e, s, t, h, o := Present(edition), Present(swEdition), Present(targetSw), Present(targetHw), Present(other);
    if s == None && t == None && h == None && o == None {
      return e;
    }
    PackedText(OrEmpty(e), OrEmpty(s), OrEmpty(t), OrEmpty(h), OrEmpty(o));
    return Some("~" + OrEmpty(e) + "~" + OrEmpty(s) + "~" + OrEmpty(t) + "~" + OrEmpty(h) + "~" + OrEmpty(o));
  }

  function Packed(
    edition: Option<string>, swEdition: Option<string>, targetSw: Option<string>, targetHw: Option<string>,
    other: Option<string>): Option<string>
  {
    var extended := [Told(swEdition), Told(targetSw), Told(targetHw), Told(other)];
    if Present(swEdition) == None && Present(targetSw) == None && Present(targetHw) == None && Present(other) == None
    then Present(edition)
    else Some("~" + Join([Told(edition)] + extended, "~"))
  }

  /** What the URI builder is told about a component: nothing and `*` leave it ANY. */
  function Told(v: Option<string>): string {
    OrEmpty(Present(v))
  }

  /** The language field is told `ANY` for `*`. */
  function ToldLanguage(v: Option<string>): string {
    if Told(v) == "ANY" then "" else Told(v)
  }

  function PackedRow(row: Row): string {
    OrEmpty(Packed(row.edition, row.swEdition, row.targetSw, row.targetHw, row.other))
  }

  function ToldFields(row: Row, e: seq<string>): (r: seq<string>)
    requires |e| == 5
    ensures |r| == 11
  {
    [Told(row.part), Told(row.vendor), Told(row.product), Told(row.version), Told(row.update),
     e[0], e[1], e[2], e[3], e[4], ToldLanguage(row.language)]
  }

  function ToCpe(row: Row): Option<Name> {
    match EditionFields(PackedRow(row))
    case None => None
    case Some(e) => UnbindFields(ToldFields(row, e))
  }

  /** What a column says of its attribute: absent for NA, `*` for ANY, or the value. */
  predicate Says(column: Option<string>, c: Component) {
    if column == None then c == NotApplicable else c == Value(column.value) || (c == Any && column.value == "*")
  }

  /** Every attribute has a column of its own; a missing part or language is written as `*`. */
  lemma ColumnsSay(n: Name)
    ensures var row := FromCpe(n);
      && Says(row.vendor, n.vendor) && Says(row.product, n.product) && Says(row.version, n.version)
      && Says(row.update, n.update) && Says(row.edition, n.edition) && Says(row.swEdition, n.swEdition)
      && Says(row.targetSw, n.targetSw) && Says(row.targetHw, n.targetHw) && Says(row.other, n.other)
      && row.part == Some(if n.part == "" then "*" else n.part)
      && row.language == Some(if n.language.Tag? then n.language.text else "*")
  {
  }

  // ---------------------------------------------------------------------------------------------
  // What a row retains.

  /** A value that stands for itself in a URI, or a lone `*`. */
  predicate Plain(c: Component) {
    c.Value? ==> c.text != "" && (c.text == "*" || forall d :: d in c.text ==> Unreserved(d))
  }

  predicate PlainName(n: Name) {
    && n.part != "*"
    && Plain(n.vendor) && Plain(n.product) && Plain(n.version) && Plain(n.update) && Plain(n.edition)
    && Plain(n.swEdition) && Plain(n.targetSw) && Plain(n.targetHw) && Plain(n.other)
  }

  /** A row cannot tell NA from ANY, nor the value `*`, and reads the value `-` as NA. */
  function Kept(c: Component): Component {
    match c
    case Any => Any
    case NotApplicable => Any
    case Value(v) => if v == "*" then Any else if v == "-" then NotApplicable else c
  }

  function KeptLanguage(l: Language): Language {
    if l.Tag? && l.text in ["*", "ANY", ""] then AnyLanguage else l
  }

  function KeptName(n: Name): Name {
    Name(n.part, Kept(n.vendor), Kept(n.product), Kept(n.version), Kept(n.update), Kept(n.edition),
         KeptLanguage(n.language), Kept(n.swEdition), Kept(n.targetSw), Kept(n.targetHw), Kept(n.other))
  }

  lemma {:induction false} PlainText(v: string)
    requires forall d :: d in v ==> Unreserved(d)
    ensures Encode(v) == v && WildcardAll(v) == v
  {
    if v != "" {
      PlainText(v[1..]);
      assert v[0] in v;
    }
  }

  lemma ComponentThroughRow(c: Component)
    requires Plain(c)
    ensures UnbindComponent(Told(Column(c))) == Some(Kept(c))
    ensures '~' !in Told(Column(c))
    ensures Present(Column(c)) == None <==> Told(Column(c)) == ""
  {
    if c.Value? && c.text != "*" {
      PlainText(c.text);
      DecodeOfEncode(c.text);
      assert !Unreserved('~');
    }
  }

  function ToldEdition(n: Name): (r: seq<string>)
    ensures |r| == 5
  {
    [Told(Column(n.edition)), Told(Column(n.swEdition)), Told(Column(n.targetSw)), Told(Column(n.targetHw)),
     Told(Column(n.other))]
  }

  /** Some extended attribute has a value other than `*`, so the edition is packed. */
  predicate IsPacked(n: Name) {
    !(Present(Column(n.swEdition)) == None && Present(Column(n.targetSw)) == None
      && Present(Column(n.targetHw)) == None && Present(Column(n.other)) == None)
  }

  /** The `~` of the packing cannot be mistaken. */
  predicate EditionOk(n: Name) {
    if IsPacked(n) then forall p :: p in ToldEdition(n) ==> '~' !in p
    else !StartsWith(Told(Column(n.edition)), '~')
  }

  lemma {:induction false} CountJoin(parts: seq<string>)
    requires parts != []
    ensures Count(Join(parts, "~"), '~') >= |parts| - 1
    ensures (exists p :: p in parts && '~' in p) ==> Count(Join(parts, "~"), '~') > |parts| - 1
  {
    CountZero(parts[0], '~');
    if |parts| == 1 {
      assert parts == [parts[0]];
    } else {
      assert parts == [parts[0]] + parts[1..];
      CountJoin(parts[1..]);
      var rest := Join(parts[1..], "~");
      CountAppend(parts[0] + "~", rest, '~');
      CountAppend(parts[0], "~", '~');
    }
  }

  lemma PackedColumns(n: Name)
    requires IsPacked(n)
    ensures PackedRow(FromCpe(n)) == "~" + Join(ToldEdition(n), "~")
  {
    var t := ToldEdition(n);
    assert t == [t[0]] + [t[1], t[2], t[3], t[4]];
  }

  lemma EditionThroughRow(n: Name)
    requires EditionOk(n)
    ensures EditionFields(PackedRow(FromCpe(n))) == Some(ToldEdition(n))
  {
    if IsPacked(n) {
      PackedColumns(n);
      PackedEdition(ToldEdition(n));
    }
  }

  /** A `~` too many: the packed edition is not read at all. */
  lemma TildeInPacked(n: Name)
    requires !EditionOk(n) && IsPacked(n)
    ensures ToCpe(FromCpe(n)) == None
  {
    var j := Join(ToldEdition(n), "~");
    PackedColumns(n);
    CountJoin(ToldEdition(n));
    SplitParts("~" + j, '~');
    assert ("~" + j)[1..] == j;
  }

  /** A plain edition that starts with `~` is read as a packed one, whose edition is shorter. */
  lemma TildeInPlain(n: Name)
    requires !EditionOk(n) && !IsPacked(n) && ToCpe(FromCpe(n)).Some?
    ensures n.edition.Value?
    ensures Text(ToCpe(FromCpe(n)).value.edition) != Text(n.edition)
  {
    var s := PackedRow(FromCpe(n));
    assert n.edition == Value(s) && s != "*";
    var e := EditionFields(s).value;
    assert ToCpe(FromCpe(n)).value.edition == ValueOf(e[0]);
    JoinOfSplit(s, '~');
    var parts := Split(s, '~');
    assert e[0] == parts[1];
    ShorterPart(parts, 1);
    DecodeShortens(e[0]);
  }

  lemma ShorterPart(parts: seq<string>, i: nat)
    requires |parts| >= 2 && i < |parts|
    ensures |parts[i]| < |Join(parts, "~")|
    decreases i
  {
    if i == 0 {
    } else if |parts| == 2 {
      assert parts[1..] == [parts[1]];
    } else {
      ShorterPart(parts[1..], i - 1);
    }
  }

  lemma KeptField(c: Component)
    requires Plain(c)
    ensures UnbindComponent(Told(Column(c))) == Some(Kept(c))
  {
    ComponentThroughRow(c);
  }

  lemma KeptPart(part: string)
    requires part != "*"
    ensures Told(Some(PartText(part))) == part
  {
  }

  lemma KeptTag(l: Language)
    ensures UnbindLanguage(ToldLanguage(Some(LanguageText(l)))) == KeptLanguage(l)
  {
  }

  lemma KeptEdition(n: Name)
    requires PlainName(n)
    ensures EditionIs(ToldFields(FromCpe(n), ToldEdition(n)), KeptName(n))
  {
    KeptField(n.edition);
    KeptField(n.swEdition);
    KeptField(n.targetSw);
    KeptField(n.targetHw);
    KeptField(n.other);
  }

  lemma KeptFields(n: Name)
    requires PlainName(n)
    ensures UnbindFields(ToldFields(FromCpe(n), ToldEdition(n))) == Some(KeptName(n))
  {
    KeptField(n.vendor);
    KeptField(n.product);
    KeptField(n.version);
    KeptField(n.update);
    KeptEdition(n);
    KeptPart(n.part);
    KeptTag(n.language);
    FieldsExactly(ToldFields(FromCpe(n), ToldEdition(n)), KeptName(n));
  }

  lemma PlainEditionIsOk(n: Name)
    requires PlainName(n)
    ensures EditionOk(n)
  {
    ComponentThroughRow(n.edition);
    ComponentThroughRow(n.swEdition);
    ComponentThroughRow(n.targetSw);
    ComponentThroughRow(n.targetHw);
    ComponentThroughRow(n.other);
    assert StartsWith(Told(Column(n.edition)), '~') ==> '~' in Told(Column(n.edition));
  }

  /** Reading back a row of plain values always succeeds, and yields the attributes the row retains. */
  lemma NameThroughRow(n: Name)
    requires PlainName(n)
    ensures ToCpe(FromCpe(n)) == Some(KeptName(n))
  {
    PlainEditionIsOk(n);
    EditionThroughRow(n);
    KeptFields(n);
  }

  // ---------------------------------------------------------------------------------------------
  // Exactly which names come back.

  predicate Retained(c: Component) {
    !c.NotApplicable? && (c.Value? ==> c.text !in {"", "*", "-"} && '%' !in c.text)
  }

  predicate RetainedLanguage(l: Language) {
    l.Tag? ==> l.text !in {"", "*", "ANY"}
  }

  predicate RetainedEdition(n: Name) {
    && Retained(n.edition) && Retained(n.swEdition) && Retained(n.targetSw) && Retained(n.targetHw)
    && Retained(n.other)
  }

  predicate RetainedName(n: Name) {
    && n.part != "*" && RetainedLanguage(n.language) && EditionOk(n)
    && Retained(n.vendor) && Retained(n.product) && Retained(n.version) && Retained(n.update) && RetainedEdition(n)
  }

  lemma RetainedExactly(c: Component)
    ensures UnbindComponent(Told(Column(c))) == Some(c) <==> Retained(c)
  {
    if c.Value? {
      DecodeShortens(c.text);
    }
  }

  lemma LanguageExactly(l: Language)
    ensures UnbindLanguage(ToldLanguage(Some(LanguageText(l)))) == l <==> RetainedLanguage(l)
    ensures LanguageText(UnbindLanguage(ToldLanguage(Some(LanguageText(l))))) == LanguageText(l)
       <==> (l.Tag? ==> l.text !in {"", "ANY"})
  {
  }

  lemma EditionRetained(n: Name)
    ensures RetainedEdition(n) <==> EditionIs(ToldFields(FromCpe(n), ToldEdition(n)), n)
  {
    RetainedExactly(n.edition);
    RetainedExactly(n.swEdition);
    RetainedExactly(n.targetSw);
    RetainedExactly(n.targetHw);
    RetainedExactly(n.other);
  }

  lemma FieldsRetained(n: Name)
    requires EditionOk(n)
    ensures FieldsAre(ToldFields(FromCpe(n), ToldEdition(n)), n) <==> RetainedName(n)
  {
    RetainedExactly(n.vendor);
    RetainedExactly(n.product);
    RetainedExactly(n.version);
    RetainedExactly(n.update);
    EditionRetained(n);
    LanguageExactly(n.language);
    PartExactly(n.part);
  }

  lemma PartExactly(part: string)
    ensures Told(Some(PartText(part))) == part <==> part != "*"
  {
  }

  /**
   * Main result: the trip through the database is the identity exactly on names without NA, without
   * empty values, `*`, `-` and percent signs, without odd languages and with no `~` where it would
   * be taken for the packing.
   */
  lemma RowRoundTrip(n: Name)
    ensures ToCpe(FromCpe(n)) == Some(n) <==> RetainedName(n)
  {
    if EditionOk(n) {
      EditionThroughRow(n);
      FieldsExactly(ToldFields(FromCpe(n), ToldEdition(n)), n);
      FieldsRetained(n);
    } else if IsPacked(n) {
      TildeInPacked(n);
    } else if ToCpe(FromCpe(n)).Some? {
      TildeInPlain(n);
    }
  }

  predicate SameText(c: Component) {
    !c.NotApplicable? && (c.Value? ==> c.text !in {"", "-"} && '%' !in c.text)
  }

  lemma SameTextExactly(c: Component)
    requires UnbindComponent(Told(Column(c))).Some?
    ensures Text(ValueOf(Told(Column(c)))) == Text(c) <==> SameText(c)
  {
    if c.Value? {
      DecodeShortens(c.text);
    }
  }

  predicate SameHash(n: Name) {
    && SameText(n.vendor) && SameText(n.product) && SameText(n.version) && SameText(n.update)
    && SameText(n.edition) && EditionOk(n) && (n.language.Tag? ==> n.language.text !in {"", "ANY"})
  }

  /** For a row that can be read back, the stored identifier is that of the name read exactly then. */
  lemma RowKeepsIdentifier(n: Name)
    requires ToCpe(FromCpe(n)).Some?
    ensures FromCpe(n).id == CpeUuid(ToCpe(FromCpe(n)).value) <==> SameHash(n)
  {
    LanguageExactly(n.language);
    if EditionOk(n) {
      EditionThroughRow(n);
      SameTextExactly(n.vendor);
      SameTextExactly(n.product);
      SameTextExactly(n.version);
      SameTextExactly(n.update);
      SameTextExactly(n.edition);
    } else if IsPacked(n) {
      TildeInPacked(n);
    } else {
      TildeInPlain(n);
    }
  }
}
