/** CPE 2.3 formatted strings in URI form, with wildcards told apart from quoted characters. */
module CpeQuoting {
  import opened Results
  import opened Strings
  import opened PercentEncoding
  import opened Cpe
  import opened CpeIdentity

  /** One character of an attribute value: an unquoted `*` or `?`, or a character that stands for itself. */
  datatype Piece = Wild(symbol: char) | Literal(symbol: char)

  /** Quoting makes no difference to a character other than `*` and `?`. */
  datatype Attribute = AnyValue | NoValue | Pieces(pieces: seq<Piece>)

  /** The eleven attributes; the nine between part and language are in the order of a formatted string. */
  datatype QuotedName = QuotedName(part: string, attributes: seq<Attribute>, language: Language)

  predicate WellFormed(p: Piece) {
    p.Wild? ==> p.symbol in {'*', '?'}
  }

  // ------------------------------------------------- formatted strings (section 6.2 of NISTIR 7695)

  /** A raw component, character by character; a dangling backslash is dropped. */
  function Reading(raw: string): seq<Piece> {
    if raw == "" then []
    else if raw[0] != '\\' then [if raw[0] in {'*', '?'} then Wild(raw[0]) else Literal(raw[0])] + Reading(raw[1..])
    else if |raw| == 1 then []
    else [Literal(raw[1])] + Reading(raw[2..])
  }

  function AttributeOf(raw: string): Attribute {
    if raw == "*" then AnyValue else if raw == "-" then NoValue else Pieces(Reading(raw))
  }

  /** Where attribute `i` is among the eleven raw components: part and language are not attributes here. */
  function Place(i: nat): nat {
    if i < 5 then i + 1 else i + 2
  }

  function AttributesOf(raw: seq<string>): (attributes: seq<Attribute>)
    requires |raw| == 11
    ensures |attributes| == 9
    ensures forall i :: 0 <= i < 9 ==> attributes[i] == AttributeOf(raw[Place(i)])
  {
    seq(9, i requires 0 <= i < 9 => AttributeOf(raw[Place(i)]))
  }

  function QuotedNameOf(raw: seq<string>): QuotedName
    requires |raw| == 11
  {
    QuotedName(if raw[0] in ["*", "-"] then "" else raw[0], AttributesOf(raw),
               if raw[6] in ["*", "-"] then AnyLanguage else Tag(Unescape(raw[6])))
  }

  /** Some `*` or `?` of the component has a backslash before it. */
  predicate HasEscapedWildcard(raw: string) {
    if raw == "" || raw == "\\" then false
    else if raw[0] != '\\' then HasEscapedWildcard(raw[1..])
    else raw[1] in {'*', '?'} || HasEscapedWildcard(raw[2..])
  }

  // ------------------------------------------------- URIs (section 6.1 of NISTIR 7695)

  /** A wildcard has a code of its own; any other character is written as it is or percent-encoded. */
  function BindPiece(p: Piece): string {
    match p
    case Wild(c) => if c == '?' then "%01" else "%02"
    case Literal(c) => if Unreserved(c) then [c] else HexBytes(Utf8(c))
  }

  function BindPieces(ps: seq<Piece>): string {
    if ps == [] then "" else BindPiece(ps[0]) + BindPieces(ps[1..])
  }

  predicate IsWildcardCode(s: string) {
    ByteAt(s) in {Some(1), Some(2)}
  }

  function DecodePieces(s: string): Option<seq<Piece>> {
    if s == "" then Some([])
    else
      match DecodeChar(s)
      case None => None
      case Some((c, n)) =>
        match DecodePieces(s[n..])
        case None => None
        case Some(rest) => Some([if IsWildcardCode(s) then Wild(c) else Literal(c)] + rest)
  }

  function UnbindAttribute(s: string): Option<Attribute> {
    if s == "" then Some(AnyValue)
    else if s == "-" then Some(NoValue)
    else match DecodePieces(s) case Some(ps) => Some(Pieces(ps)) case None => None
  }

  function AttributeIn(s: string): Attribute
    requires UnbindAttribute(s).Some?
  {
    UnbindAttribute(s).value
  }

  /** The field of attribute `i`. */
  function Field(f: seq<string>, i: nat): string
    requires |f| == 11 && i < 9
  {
    f[i + 1]
  }

  predicate Readable(f: seq<string>)
    requires |f| == 11
  {
    forall i :: 0 <= i < 9 ==> UnbindAttribute(Field(f, i)).Some?
  }

  function ReadAttributes(f: seq<string>): (attributes: seq<Attribute>)
    requires |f| == 11 && Readable(f)
    ensures |attributes| == 9
    ensures forall i :: 0 <= i < 9 ==> attributes[i] == AttributeIn(Field(f, i))
  {
    seq(9, i requires 0 <= i < 9 => AttributeIn(Field(f, i)))
  }

  function UnbindQuotedFields(f: seq<string>): Option<QuotedName>
    requires |f| == 11
  {
    if Readable(f) then Some(QuotedName(f[0], ReadAttributes(f), UnbindLanguage(f[10]))) else None
  }

  function UnbindQuoted(uri: string): Option<QuotedName> {
    match UriFields(uri) case None => None case Some(f) => UnbindQuotedFields(f)
  }

  // ------------------------------------------------- one character

  lemma LeadByte(bytes: seq<Byte>, rest: string)
    requires bytes != []
    ensures ByteAt(HexBytes(bytes) + rest) == Some(bytes[0])
  {
    assert bytes == [bytes[0]] + bytes[1..];
    HexBytesCons(bytes[0], bytes[1..], rest);
    ByteComesBack(bytes[0], HexBytes(bytes[1..]) + rest);
  }

  lemma CodeOfChar(c: char, rest: string)
    ensures IsWildcardCode(EncodeChar(c) + rest) <==> c in {'?', '*', '\U{0001}', '\U{0002}'}
  {
    if c == '?' {
      assert "%01" == HexByte(1) by { assert DIGITS[0] == '0' && DIGITS[1] == '1'; }
      ByteComesBack(1, rest);
    } else if c == '*' {
      assert "%02" == HexByte(2) by { assert DIGITS[0] == '0' && DIGITS[2] == '2'; }
      ByteComesBack(2, rest);
    } else if !Unreserved(c) {
      LeadByte(Utf8(c), rest);
    }
  }

  /** What the encoded character reads as. */
  function PieceOf(c: char): Piece {
    if c in {'?', '*', '\U{0001}', '\U{0002}'} then Wild(Wildcard(c)) else Literal(c)
  }

  function PiecesOf(v: string): (ps: seq<Piece>)
    ensures |ps| == |v|
    ensures forall i :: 0 <= i < |ps| ==> ps[i] == PieceOf(v[i])
  {
    seq(|v|, i requires 0 <= i < |v| => PieceOf(v[i]))
  }

  lemma PiecesCons(c: char, v: string)
    ensures PiecesOf([c] + v) == [PieceOf(c)] + PiecesOf(v)
    ensures ControlFree([c] + v) <==> c !in {'\U{0001}', '\U{0002}'} && ControlFree(v)
  {
  }

  lemma PiecesStep(first: string, rest: string)
    requires first != "" && DecodeChar(first + rest).Some? && DecodeChar(first + rest).value.1 == |first|
    requires DecodePieces(rest).Some?
    ensures var c := DecodeChar(first + rest).value.0;
      DecodePieces(first + rest)
      == Some([if IsWildcardCode(first + rest) then Wild(c) else Literal(c)] + DecodePieces(rest).value)
  {
    assert (first + rest)[|first|..] == rest;
  }

  lemma {:induction false} PiecesOfEncode(v: string)
    ensures DecodePieces(Encode(v)) == Some(PiecesOf(v))
  {
    if v != "" {
      var rest := Encode(v[1..]);
      CharComesBack(v[0], rest);
      CodeOfChar(v[0], rest);
      PiecesOfEncode(v[1..]);
      PiecesStep(EncodeChar(v[0]), rest);
      assert v == [v[0]] + v[1..];
      PiecesCons(v[0], v[1..]);
    }
  }

  // ------------------------------------------------- one component

  /** The first character of a component, its escape taken off, and what that leaves. */
  lemma RawStep(raw: string, n: nat)
    requires raw != "" && raw != "\\" && n == if raw[0] == '\\' then 2 else 1
    ensures Unescape(raw) == [raw[n - 1]] + Unescape(raw[n..])
    ensures Reading(raw) != [] && Reading(raw) == [Reading(raw)[0]] + Reading(raw[n..])
    ensures Reading(raw)[0].symbol == raw[n - 1] && WellFormed(Reading(raw)[0])
    ensures HasEscapedWildcard(raw)
       <==> (Reading(raw)[0].Literal? && raw[n - 1] in {'*', '?'}) || HasEscapedWildcard(raw[n..])
  {
  }

  lemma PieceSurvives(p: Piece)
    requires WellFormed(p)
    ensures PieceOf(p.symbol) == p
       <==> !(p.Literal? && p.symbol in {'*', '?'}) && p.symbol !in {'\U{0001}', '\U{0002}'}
  {
  }

  /** The pieces read from the URI are those of the raw component unless a wildcard was escaped. */
  lemma {:induction false} ReadingSurvives(raw: string)
    ensures PiecesOf(Unescape(raw)) == Reading(raw) <==> !HasEscapedWildcard(raw) && ControlFree(Unescape(raw))
  {
    if raw != "" && raw != "\\" {
      var n := if raw[0] == '\\' then 2 else 1;
      var p, c, v := Reading(raw)[0], raw[n - 1], Unescape(raw[n..]);
      RawStep(raw, n);
      ReadingSurvives(raw[n..]);
      PieceSurvives(p);
      PiecesCons(c, v);
      SameHead(PieceOf(c), PiecesOf(v), p, Reading(raw[n..]));
    }
  }

  lemma SameHead<T>(a: T, x: seq<T>, b: T, y: seq<T>)
    ensures [a] + x == [b] + y <==> a == b && x == y
  {
    assert ([a] + x)[1..] == x && ([b] + y)[1..] == y;
    assert ([a] + x)[0] == a && ([b] + y)[0] == b;
  }

  lemma LiteralWildcard(c: char)
    requires c in {'*', '?'}
    ensures HexBytes(Utf8(c)) == if c == '*' then "%2a" else "%3f"
  {
    var b := c as int;
    assert Utf8(c) == [b] && HexBytes([b]) == HexByte(b) + HexBytes([]);
    assert HexBytes([]) == "" && HexByte(b) == ['%', DIGITS[b / 16], DIGITS[b % 16]];
    assert DIGITS[2] == '2' && DIGITS[3] == '3' && DIGITS[10] == 'a' && DIGITS[15] == 'f';
    assert if c == '*' then b == 0x2a else b == 0x3f;
  }

  /** Only an escaped wildcard is written otherwise than its piece should be. */
  lemma CharIsPiece(c: char, p: Piece)
    requires p.symbol == c && (p.Wild? ==> c in {'*', '?'})
    ensures !(p.Literal? && c in {'*', '?'}) ==> EncodeChar(c) == BindPiece(p)
    ensures p.Literal? && c in {'*', '?'} ==> |EncodeChar(c)| == |BindPiece(p)| == 3
    ensures p.Literal? && c in {'*', '?'} ==> EncodeChar(c)[1] != BindPiece(p)[1]
  {
    if p.Literal? && c in {'*', '?'} {
      LiteralWildcard(c);
      assert EncodeChar(c)[1] == '0' && BindPiece(p)[1] in {'2', '3'};
    }
  }

  lemma SamePrefix(a: string, x: string, b: string, y: string)
    ensures a == b ==> (a + x == b + y <==> x == y)
    ensures |a| == |b| >= 2 && a[1] != b[1] ==> a + x != b + y
  {
    assert (a + x)[|a|..] == x && (b + y)[|b|..] == y;
    assert |a| == |b| >= 2 ==> (a + x)[1] == a[1] && (b + y)[1] == b[1];
  }

  /**
   * Main result on escapes: the text written for a raw component is the binding of what the component
   * says, character by character, if and only if it escapes no wildcard. Of an escaped `*` or `?` the
   * wildcard is written.
   */
  lemma {:induction false} EscapeSurvives(raw: string)
    ensures Encode(Unescape(raw)) == BindPieces(Reading(raw)) <==> !HasEscapedWildcard(raw)
  {
    if raw != "" && raw != "\\" {
      var n := if raw[0] == '\\' then 2 else 1;
      var c, p := raw[n - 1], Reading(raw)[0];
      RawStep(raw, n);
      EscapeSurvives(raw[n..]);
      CharIsPiece(c, p);
      SamePrefix(EncodeChar(c), Encode(Unescape(raw[n..])), BindPiece(p), BindPieces(Reading(raw[n..])));
    }
  }

  lemma PieceComesBack(p: Piece, rest: string)
    requires WellFormed(p)
    ensures var s := BindPiece(p) + rest;
      && BindPiece(p) != ""
      && DecodeChar(s) == Some((Wildcard(p.symbol), |BindPiece(p)|))
      && (IsWildcardCode(s) <==> p.Wild? || p.symbol in {'\U{0001}', '\U{0002}'})
  {
    var c := p.symbol;
    if p.Literal? && c in {'*', '?'} {
      OneByte(c, rest);
      LeadByte(Utf8(c), rest);
    } else {
      assert BindPiece(p) == EncodeChar(c);
      CharComesBack(c, rest);
      CodeOfChar(c, rest);
    }
  }

  /**
   * The binding itself loses nothing: pieces are read back from their own binding exactly when none
   * is one of the two control characters that stand for wildcards.
   */
  lemma {:induction false} PiecesRoundTrip(ps: seq<Piece>)
    requires forall p :: p in ps ==> WellFormed(p)
    ensures DecodePieces(BindPieces(ps)).Some?
    ensures DecodePieces(BindPieces(ps)) == Some(ps)
       <==> forall p :: p in ps ==> p.symbol !in {'\U{0001}', '\U{0002}'}
  {
    if ps != [] {
      var p, rest := ps[0], BindPieces(ps[1..]);
      PieceComesBack(p, rest);
      PiecesRoundTrip(ps[1..]);
      var s := BindPiece(p) + rest;
      PiecesStep(BindPiece(p), rest);
      assert ps == [p] + ps[1..];
      var read := if IsWildcardCode(s) then Wild(Wildcard(p.symbol)) else Literal(Wildcard(p.symbol));
      SameHead(read, DecodePieces(rest).value, p, ps[1..]);
    }
  }

  /** The condition on a raw component. */
  predicate RawOk(raw: string) {
    || raw == "*" || raw == "-"
    || (Unescape(raw) != "" && Unescape(raw) != "-" && ControlFree(Unescape(raw)) && !HasEscapedWildcard(raw))
  }

  /** A component is read back as what it says exactly under that condition. */
  lemma AttributeThroughUri(raw: string)
    ensures UnbindAttribute(BindComponent(MeaningOf(raw))).Some?
    ensures UnbindAttribute(BindComponent(MeaningOf(raw))) == Some(AttributeOf(raw)) <==> RawOk(raw)
  {
    if raw != "*" && raw != "-" {
      var v := Unescape(raw);
      EncodedAlphabet(v);
      PiecesOfEncode(v);
      ReadingSurvives(raw);
    }
  }

  // ------------------------------------------------- the whole string

  predicate AttributesOk(raw: seq<string>)
    requires |raw| == 11
  {
    forall i :: 0 <= i < 9 ==> RawOk(raw[Place(i)])
  }

  /** The condition on the raw components of a formatted string. */
  predicate RawFaithful(raw: seq<string>)
    requires |raw| == 11
  {
    && ':' !in raw[0]
    && (raw[6] == "*" || raw[6] == "-" || (Unescape(raw[6]) != "" && ':' !in Unescape(raw[6])))
    && AttributesOk(raw)
  }

  lemma FieldOfRaw(raw: seq<string>, i: nat)
    requires |raw| == 11 && i < 9
    ensures Field(BoundFields(NameOf(raw)), i) == BindComponent(MeaningOf(raw[Place(i)]))
  {
  }

  lemma AttributesThroughUri(raw: seq<string>)
    requires |raw| == 11
    ensures var f := BoundFields(NameOf(raw));
      Readable(f) && (ReadAttributes(f) == AttributesOf(raw) <==> AttributesOk(raw))
  {
    var f := BoundFields(NameOf(raw));
    forall i | 0 <= i < 9
      ensures UnbindAttribute(Field(f, i)).Some?
      ensures AttributeIn(Field(f, i)) == AttributesOf(raw)[i] <==> RawOk(raw[Place(i)])
    {
      FieldOfRaw(raw, i);
      AttributeThroughUri(raw[Place(i)]);
    }
    assert Readable(f);
    var read, meant := ReadAttributes(f), AttributesOf(raw);
    assert read == meant <==> forall i :: 0 <= i < 9 ==> read[i] == meant[i];
  }

  lemma LanguageThroughUri(l: Language)
    ensures UnbindLanguage(BindLanguage(l)) == l <==> LanguageOk(l)
  {
  }

  lemma QuotedFields(raw: seq<string>)
    requires |raw| == 11
    ensures UnbindQuotedFields(BoundFields(NameOf(raw))) == Some(QuotedNameOf(raw))
       <==> LanguageOk(NameOf(raw).language) && AttributesOk(raw)
  {
    AttributesThroughUri(raw);
    LanguageThroughUri(NameOf(raw).language);
  }

  /**
   * Main result: a formatted string keeps what all its components say, wildcards and quoted characters
   * told apart, exactly when its raw components allow it.
   */
  lemma FormattedStringRoundTrip(body: string)
    requires |SplitEscaped(body)| == 11
    ensures var raw := SplitEscaped(body);
      UnbindQuoted(BindUri(NameOf(raw))) == Some(QuotedNameOf(raw)) <==> RawFaithful(raw)
  {
    var raw := SplitEscaped(body);
    if ColonFree(NameOf(raw)) {
      FieldsThroughUri(NameOf(raw));
      QuotedFields(raw);
    } else {
      UnboundIsColonFree(BindUri(NameOf(raw)));
    }
  }

  /** Two such strings with one URI say the same. */
  lemma SameUriSameName(a: string, b: string)
    requires |SplitEscaped(a)| == 11 && |SplitEscaped(b)| == 11
    requires RawFaithful(SplitEscaped(a)) && RawFaithful(SplitEscaped(b))
    requires BindUri(NameOf(SplitEscaped(a))) == BindUri(NameOf(SplitEscaped(b)))
    ensures QuotedNameOf(SplitEscaped(a)) == QuotedNameOf(SplitEscaped(b))
  {
    FormattedStringRoundTrip(a);
    FormattedStringRoundTrip(b);
  }
}
