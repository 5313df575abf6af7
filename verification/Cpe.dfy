/** CPE names: splitting 2.3 formatted strings and binding them to 2.2 URIs. */
module Cpe {
  import opened Results
  import opened Strings
  import opened PercentEncoding

  // ------------------------------------------------- splitting at unescaped colons

  /** Puts text in front of the first part. */
  function Prepend(text: string, parts: seq<string>): seq<string>
    requires parts != []
  {
    [text + parts[0]] + parts[1..]
  }

  /** The parts between unescaped colons; escapes stay in place. */
  function SplitEscaped(s: string): (parts: seq<string>)
    ensures parts != []
  {
    if s == "" then [""]
    else if s[0] == '\\' then if |s| == 1 then ["\\"] else Prepend(s[..2], SplitEscaped(s[2..]))
    else if s[0] == ':' then [""] + SplitEscaped(s[1..])
    else Prepend([s[0]], SplitEscaped(s[1..]))
  }

  lemma PrependNothing(parts: seq<string>)
    requires parts != []
    ensures Prepend("", parts) == parts
  {
    assert "" + parts[0] == parts[0];
  }

  lemma PrependTwice(a: string, b: string, parts: seq<string>)
    requires parts != []
    ensures Prepend(a, Prepend(b, parts)) == Prepend(a + b, parts)
  {
    assert a + (b + parts[0]) == a + b + parts[0];
  }

  lemma SplitText(text: string, rest: string)
    requires (|text| == 1 && text[0] != ':' && text[0] != '\\') || (|text| == 2 && text[0] == '\\')
    ensures SplitEscaped(text + rest) == Prepend(text, SplitEscaped(rest))
  {
    var s := text + rest;
    assert s[|text|..] == rest && s[..|text|] == text && s[0] == text[0];
    assert |text| == 1 ==> [s[0]] == text;
  }

  /** A plain character or a whole escape moves from the input to the current part. */
  lemma Absorb(cur: string, text: string, rest: string)
    requires (|text| == 1 && text[0] != ':' && text[0] != '\\') || (|text| == 2 && text[0] == '\\')
    ensures Prepend(cur, SplitEscaped(text + rest)) == Prepend(cur + text, SplitEscaped(rest))
  {
    SplitText(text, rest);
    PrependTwice(cur, text, SplitEscaped(rest));
  }

  lemma AbsorbDangling(cur: string)
    ensures Prepend(cur, SplitEscaped("\\")) == Prepend(cur + "\\", SplitEscaped(""))
  {
    assert cur + "\\" + "" == cur + "\\";
  }

  /** An unescaped colon ends the current part. */
  lemma AbsorbColon(cur: string, rest: string)
    ensures Prepend(cur, SplitEscaped(":" + rest)) == [cur] + Prepend("", SplitEscaped(rest))
  {
    assert (":" + rest)[1..] == rest;
    PrependNothing(SplitEscaped(rest));
    assert cur + "" == cur;
  }

  /** The loop of `split_cpe23`: `i` stands for the position of the character iterator. */
  method SplitCpe23(s: string) returns (parts: seq<string>)
    ensures parts == SplitEscaped(s)
  {
    parts := [];
    var cur := "";
    var i := 0;
    PrependNothing(SplitEscaped(s));
    assert s[0..] == s;
    while i < |s|
      invariant 0 <= i <= |s|
      invariant parts + Prepend(cur, SplitEscaped(s[i..])) == SplitEscaped(s)
    {
      var c := s[i];
      i := i + 1;
      assert s[i - 1..] == [c] + s[i..];
      if c == '\\' {
        if i < |s| {
          assert s[i - 1..] == [c, s[i]] + s[i + 1..];
          Absorb(cur, [c, s[i]], s[i + 1..]);
          assert cur + [c, s[i]] == cur + [c] + [s[i]];
          cur := cur + [c] + [s[i]];
          i := i + 1;
        } else {
          assert s[i - 1..] == "\\" && s[i..] == "";
          AbsorbDangling(cur);
          cur := cur + [c];
        }
      } else if c == ':' {
        AbsorbColon(cur, s[i..]);
        parts := parts + [cur];
        cur := "";
      } else {
        Absorb(cur, [c], s[i..]);
        cur := cur + [c];
      }
    }
    assert s[i..] == "" && cur + "" == cur;
    parts := parts + [cur];
  }

  /** Nothing is lost by splitting: joining with colons gives back any input. */
  lemma {:induction false} SplitIsLossless(s: string)
    ensures Join(SplitEscaped(s), ":") == s
  {
    if s == "" || s == "\\" {
    } else if s[0] == '\\' {
      SplitIsLossless(s[2..]);
      JoinPrepend(s[..2], SplitEscaped(s[2..]));
    } else if s[0] == ':' {
      SplitIsLossless(s[1..]);
      var rest := SplitEscaped(s[1..]);
      assert ([""] + rest)[1..] == rest;
    } else {
      SplitIsLossless(s[1..]);
      JoinPrepend([s[0]], SplitEscaped(s[1..]));
    }
  }

  lemma JoinPrepend(text: string, parts: seq<string>)
    requires parts != []
    ensures Join(Prepend(text, parts), ":") == text + Join(parts, ":")
  {
    assert Prepend(text, parts)[1..] == parts[1..];
  }

  /** No colon outside an escape; only the last part may end in a lone backslash. */
  predicate PartOk(p: string, last: bool) {
    if p == "" then true
    else if p[0] == '\\' then if |p| == 1 then last else PartOk(p[2..], last)
    else p[0] != ':' && PartOk(p[1..], last)
  }

  predicate PartsOk(parts: seq<string>) {
    forall i :: 0 <= i < |parts| ==> PartOk(parts[i], i == |parts| - 1)
  }

  lemma PrependOk(text: string, parts: seq<string>)
    requires parts != [] && PartsOk(parts)
    requires forall last :: PartOk(parts[0], last) ==> PartOk(text + parts[0], last)
    ensures PartsOk(Prepend(text, parts))
  {
  }

  lemma {:induction false} SplitPartsOk(s: string)
    ensures PartsOk(SplitEscaped(s))
  {
    if s == "" || s == "\\" {
    } else if s[0] == '\\' {
      SplitPartsOk(s[2..]);
      var rest := SplitEscaped(s[2..]);
      assert (s[..2] + rest[0])[2..] == rest[0];
      PrependOk(s[..2], rest);
    } else if s[0] == ':' {
      SplitPartsOk(s[1..]);
    } else {
      SplitPartsOk(s[1..]);
      var rest := SplitEscaped(s[1..]);
      assert ([s[0]] + rest[0])[1..] == rest[0];
      PrependOk([s[0]], rest);
    }
  }

  lemma {:induction false} SplitWholePart(p: string)
    requires PartOk(p, true)
    ensures SplitEscaped(p) == [p]
  {
    if p != "" && p != "\\" {
      var n := if p[0] == '\\' then 2 else 1;
      SplitWholePart(p[n..]);
      assert p == p[..n] + p[n..];
      SplitText(p[..n], p[n..]);
      assert Prepend(p[..n], [p[n..]]) == [p];
    }
  }

  lemma {:induction false} SplitFirstPart(p: string, rest: string)
    requires PartOk(p, false)
    ensures SplitEscaped(p + ":" + rest) == [p] + SplitEscaped(rest)
  {
    if p == "" {
      assert p + ":" + rest == ":" + rest;
      assert (":" + rest)[1..] == rest;
    } else {
      var n := if p[0] == '\\' then 2 else 1;
      SplitFirstPart(p[n..], rest);
      var parts := SplitEscaped(rest);
      assert p == p[..n] + p[n..];
      assert p + ":" + rest == p[..n] + (p[n..] + ":" + rest);
      SplitText(p[..n], p[n..] + ":" + rest);
      assert Prepend(p[..n], [p[n..]] + parts) == [p] + parts;
    }
  }

  lemma {:induction false} SplitOfPartsOk(parts: seq<string>)
    requires parts != [] && PartsOk(parts)
    ensures SplitEscaped(Join(parts, ":")) == parts
  {
    if |parts| == 1 {
      SplitWholePart(parts[0]);
    } else {
      var rest := parts[1..];
      assert PartsOk(rest) by {
        forall i | 0 <= i < |rest| ensures PartOk(rest[i], i == |rest| - 1) {
          assert rest[i] == parts[i + 1];
        }
      }
      SplitOfPartsOk(rest);
      SplitFirstPart(parts[0], Join(rest, ":"));
    }
  }

  /** Splitting is the only lossless decomposition without unescaped colons. */
  lemma SplitIsUnique(parts: seq<string>)
    requires parts != []
    ensures SplitEscaped(Join(parts, ":")) == parts <==> PartsOk(parts)
  {
    SplitPartsOk(Join(parts, ":"));
    if PartsOk(parts) {
      SplitOfPartsOk(parts);
    }
  }

  // ------------------------------------------------- escapes inside a component

  function Unescape(s: string): string {
    if s == "" then ""
    else if s[0] != '\\' then [s[0]] + Unescape(s[1..])
    else if |s| == 1 then ""
    else [s[1]] + Unescape(s[2..])
  }

  lemma PushChar(out: string, c: char, rest: string)
    ensures out + ([c] + rest) == (out + [c]) + rest
  {
  }

  lemma UnescapeAt(s: string, i: nat)
    requires i < |s|
    ensures s[i] != '\\' ==> Unescape(s[i..]) == [s[i]] + Unescape(s[i + 1..])
    ensures s[i] == '\\' && i + 1 < |s| ==> Unescape(s[i..]) == [s[i + 1]] + Unescape(s[i + 2..])
    ensures s[i] == '\\' && i + 1 == |s| ==> Unescape(s[i..]) == ""
  {
    assert s[i..][1..] == s[i + 1..];
    assert i + 1 < |s| ==> s[i..][2..] == s[i + 2..];
  }

  method UnescapeCpe23(s: string) returns (out: string)
    ensures out == Unescape(s)
  {
    out := "";
    var i := 0;
    while i < |s|
      invariant 0 <= i <= |s|
      invariant out + Unescape(s[i..]) == Unescape(s)
    {
      var c := s[i];
      UnescapeAt(s, i);
      i := i + 1;
      if c == '\\' {
        if i < |s| {
          PushChar(out, s[i], Unescape(s[i + 1..]));
          out := out + [s[i]];
          i := i + 1;
        }
      } else {
        PushChar(out, c, Unescape(s[i..]));
        out := out + [c];
      }
    }
  }

  lemma {:induction false} UnescapeOfEscape(v: string, special: set<char>)
    requires '\\' in special
    ensures Unescape(Escape(v, special)) == v
    ensures ':' in special ==> PartOk(Escape(v, special), false)
  {
    if v != "" {
      UnescapeOfEscape(v[1..], special);
      var e, rest := Escape(v, special), Escape(v[1..], special);
      assert e[if v[0] in special then 2 else 1..] == rest;
    }
  }

  function EscapeEach(values: seq<string>, special: set<char>): (r: seq<string>)
    ensures |r| == |values|
    ensures forall i :: 0 <= i < |r| ==> r[i] == Escape(values[i], special)
  {
    seq(|values|, i requires 0 <= i < |values| => Escape(values[i], special))
  }

  lemma {:induction false} PartOkWeaken(p: string)
    requires PartOk(p, false)
    ensures PartOk(p, true)
  {
    if p != "" {
      PartOkWeaken(p[if p[0] == '\\' then 2 else 1..]);
    }
  }

  /** Any values, escaped and joined, come back by splitting and unescaping. */
  lemma SplitAndUnescape(values: seq<string>, special: set<char>)
    requires values != [] && '\\' in special && ':' in special
    ensures var parts := SplitEscaped(Join(EscapeEach(values, special), ":"));
            |parts| == |values| && forall i :: 0 <= i < |values| ==> Unescape(parts[i]) == values[i]
  {
    var parts := EscapeEach(values, special);
    forall i | 0 <= i < |values| ensures PartOk(parts[i], i == |parts| - 1) && Unescape(parts[i]) == values[i] {
      UnescapeOfEscape(values[i], special);
      PartOkWeaken(parts[i]);
    }
    SplitOfPartsOk(parts);
  }

  // ------------------------------------------------- attributes and the URI binding

  datatype Component = Any | NotApplicable | Value(text: string)

  datatype Language = AnyLanguage | Tag(text: string)

  /** The eleven attributes. The part is its text, empty for ANY. */
  datatype Name = Name(
    part: string, vendor: Component, product: Component, version: Component, update: Component,
    edition: Component, language: Language, swEdition: Component, targetSw: Component,
    targetHw: Component, other: Component)

  function BindComponent(c: Component): string {
    match c
    case Any => ""
    case NotApplicable => "-"
    case Value(v) => Encode(v)
  }

  function BindLanguage(l: Language): string {
    match l case AnyLanguage => "" case Tag(t) => t
  }

  /** The extended attributes are packed into the edition, unless they are all ANY. */
  function BindEdition(n: Name): string {
    var edition := BindComponent(n.edition);
    var extended :=
      [BindComponent(n.swEdition), BindComponent(n.targetSw), BindComponent(n.targetHw), BindComponent(n.other)];
    if extended == ["", "", "", ""] then edition
    else "~" + Join([edition] + extended, "~")
  }

  function BoundComponents(n: Name): (r: seq<string>)
    ensures |r| == 7
  {
    [n.part, BindComponent(n.vendor), BindComponent(n.product), BindComponent(n.version), BindComponent(n.update),
     BindEdition(n), BindLanguage(n.language)]
  }

  function DropTrailingEmpty(components: seq<string>): seq<string> {
    if components != [] && components[|components| - 1] == ""
    then DropTrailingEmpty(components[..|components| - 1])
    else components
  }

  const PREFIX := "cpe:/"

  function BindUri(n: Name): string {
    PREFIX + Join(DropTrailingEmpty(BoundComponents(n)), ":")
  }

  // ------------------------------------------------- CPE 2.3 formatted strings

  /** What a raw component of a 2.3 formatted string stands for, as a text: what was escaped is forgotten. */
  function MeaningOf(raw: string): Component {
    if raw == "*" then Any else if raw == "-" then NotApplicable else Value(Unescape(raw))
  }

  function NameOf(raw: seq<string>): Name
    requires |raw| == 11
  {
    Name(if raw[0] == "*" || raw[0] == "-" then "" else raw[0],
         MeaningOf(raw[1]), MeaningOf(raw[2]), MeaningOf(raw[3]), MeaningOf(raw[4]), MeaningOf(raw[5]),
         if raw[6] == "*" || raw[6] == "-" then AnyLanguage else Tag(Unescape(raw[6])),
         MeaningOf(raw[7]), MeaningOf(raw[8]), MeaningOf(raw[9]), MeaningOf(raw[10]))
  }

  method ComponentToUri(raw: string) returns (s: string)
    ensures s == BindComponent(MeaningOf(raw))
  {
    if raw == "*" {
      s := "";
    } else if raw == "-" {
      s := "-";
    } else {
      var value := UnescapeCpe23(raw);
      s := EncodeUriComponent(value);
    }
  }

  /** The edition component, with the extended attributes packed in where there are any. */
  method PackEdition(
    ghost n: Name, edition: string, swEdition: string, targetSw: string, targetHw: string, other: string)
    returns (packed: string)
    requires edition == BindComponent(n.edition) && swEdition == BindComponent(n.swEdition)
    requires targetSw == BindComponent(n.targetSw) && targetHw == BindComponent(n.targetHw)
    requires other == BindComponent(n.other)
    ensures packed == BindEdition(n)
  {
    if swEdition == "" && targetSw == "" && targetHw == "" && other == "" {
      packed := edition;
    } else {
      packed := "~" + edition + "~" + swEdition + "~" + targetSw + "~" + targetHw + "~" + other;
      PackedText(edition, swEdition, targetSw, targetHw, other);
      assert [swEdition, targetSw, targetHw, other] != ["", "", "", ""] by {
        var e := [swEdition, targetSw, targetHw, other];
        assert e[0] != "" || e[1] != "" || e[2] != "" || e[3] != "";
      }
    }
  }

  method PopTrailingEmpty(components: seq<string>) returns (kept: seq<string>)
    ensures kept == DropTrailingEmpty(components)
    ensures kept <= components && (kept == [] || kept[|kept| - 1] != "")
    ensures forall i :: |kept| <= i < |components| ==> components[i] == ""
  {
    kept := components;
    while kept != [] && kept[|kept| - 1] == ""
      invariant DropTrailingEmpty(kept) == DropTrailingEmpty(components)
      invariant kept <= components
      invariant forall i :: |kept| <= i < |components| ==> components[i] == ""
    {
      kept := kept[..|kept| - 1];
    }
  }

  /** The text handed to the URI parser, or `None` for a wrong number of components. */
  method Cpe23ToUri(body: string) returns (uri: Option<string>)
    ensures uri == if |SplitEscaped(body)| == 11 then Some(BindUri(NameOf(SplitEscaped(body)))) else None
  {
    var raw := SplitCpe23(body);
    if |raw| != 11 {
      return None;
    }
    ghost var n := NameOf(raw);
    var part := if raw[0] == "*" || raw[0] == "-" then "" else raw[0];
    var vendor := ComponentToUri(raw[1]);
    var product := ComponentToUri(raw[2]);
    var version := ComponentToUri(raw[3]);
    var update := ComponentToUri(raw[4]);
    var edition := ComponentToUri(raw[5]);
    var swEdition := ComponentToUri(raw[7]);
    var targetSw := ComponentToUri(raw[8]);
    var targetHw := ComponentToUri(raw[9]);
    var other := ComponentToUri(raw[10]);
    edition := PackEdition(n, edition, swEdition, targetSw, targetHw, other);
    var language := "";
    if raw[6] != "*" && raw[6] != "-" {
      language := UnescapeCpe23(raw[6]);
    }
    var components := PopTrailingEmpty([part, vendor, product, version, update, edition, language]);
    uri := Some(PREFIX + Join(components, ":"));
  }

  lemma Joined(a: string, rest: seq<string>)
    requires rest != []
    ensures Join([a] + rest, "~") == a + "~" + Join(rest, "~")
  {
    assert ([a] + rest)[1..] == rest;
  }

  lemma PackedText(a: string, b: string, c: string, d: string, e: string)
    ensures "~" + Join([a] + [b, c, d, e], "~") == "~" + a + "~" + b + "~" + c + "~" + d + "~" + e
  {
    Joined(a, [b, c, d, e]);
    assert [b, c, d, e] == [b] + [c, d, e];
    Joined(b, [c, d, e]);
    assert [c, d, e] == [c] + [d, e];
    Joined(c, [d, e]);
    assert [d, e] == [d] + [e];
    Joined(d, [e]);
    assert a + "~" + (b + "~" + (c + "~" + (d + "~" + e))) == a + "~" + b + "~" + c + "~" + d + "~" + e;
    assert "~" + (a + "~" + b + "~" + c + "~" + d + "~" + e) == "~" + a + "~" + b + "~" + c + "~" + d + "~" + e;
  }
}
