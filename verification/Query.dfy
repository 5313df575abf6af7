/** The `q` query language: parser, printer and in-memory evaluator. */
module Query {
  import opened Results
  import opened Strings

  const BEL: char := '\U{0007}'
  const BS: char := '\U{0008}'

  datatype Operator =
    | Equal | NotEqual | Like | NotLike
    | GreaterThan | GreaterThanOrEqual | LessThan | LessThanOrEqual
    | And | Or

  function OpText(op: Operator): (text: string)
    ensures text != ""
  {
    match op
    case Equal => "="
    case NotEqual => "!="
    case Like => "~"
    case NotLike => "!~"
    case GreaterThan => ">"
    case GreaterThanOrEqual => ">="
    case LessThan => "<"
    case LessThanOrEqual => "<="
    case And => "&"
    case Or => "|"
  }

  /** `field` and `op` are both absent in a full-text search. */
  datatype Constraint = Constraint(field: Option<string>, op: Option<Operator>, value: seq<string>)

  function FullText(values: seq<string>): Constraint {
    Constraint(None, None, values)
  }

  function Filter(field: string, op: Operator, values: seq<string>): Constraint {
    Constraint(Some(field), Some(op), values)
  }

  // ---------------------------------------------------------------- parser

  function Encode(s: string): string {
    Replace(Replace(s, "\\&", [BEL]), "\\|", [BS])
  }

  function Decode(s: string): string {
    var separators := Replace(Replace(s, [BEL], "&"), [BS], "|");
    Replace(Replace(Replace(separators, "\\\\", [BS]), "\\", ""), [BS], "\\")
  }

  function DecodeAll(parts: seq<string>): (values: seq<string>)
    ensures |values| == |parts|
    ensures forall i :: 0 <= i < |parts| ==> values[i] == Decode(parts[i])
  {
    seq(|parts|, i requires 0 <= i < |parts| => Decode(parts[i]))
  }

  /** The first alternative of `=|!=|~|!~|>=|>|<=|<` that matches at `i`. */
  function OpAt(s: string, i: nat): Option<Operator>
    requires i < |s|
  {
    var next := if i + 1 < |s| then s[i + 1] else '\0';
    match s[i]
    case '=' => Some(Equal)
    case '~' => Some(Like)
    case '!' => if next == '=' then Some(NotEqual) else if next == '~' then Some(NotLike) else None
    case '>' => if next == '=' then Some(GreaterThanOrEqual) else Some(GreaterThan)
    case '<' => if next == '=' then Some(LessThanOrEqual) else Some(LessThan)
    case _ => None
  }

  /** Extends the lazy field group one character at a time from length `i`. */
  function Capture(s: string, i: nat := 1): (r: Option<(nat, Operator)>)
    requires 1 <= i
    ensures r.Some? ==> i <= r.value.0 && r.value.0 + |OpText(r.value.1)| <= |s|
    decreases |s| - i
  {
    if i >= |s| || s[i - 1] == '\\' then None
    else
      var op := OpAt(s, i);
      if op.Some? && '\n' !in s[i + |OpText(op.value)|..] then Some((i, op.value))
      else Capture(s, i + 1)
  }

  function ParsePiece(s: string): Constraint {
    match Capture(s)
    case Some((i, op)) => Filter(s[..i], op, DecodeAll(Split(s[i + |OpText(op)|..], '|')))
    case None => FullText(DecodeAll(Split(s, '|')))
  }

  function ParsePieces(pieces: seq<string>): (cs: seq<Constraint>)
    ensures |cs| == |pieces|
    ensures forall i :: 0 <= i < |pieces| ==> cs[i] == ParsePiece(pieces[i])
  {
    seq(|pieces|, i requires 0 <= i < |pieces| => ParsePiece(pieces[i]))
  }

  function Parse(q: string): seq<Constraint> {
    ParsePieces(SplitTerminator(Encode(q), '&'))
  }

  // ------------------------------------------------- printers

  /** `Constraint`'s Display: the values as they are. */
  function Display(c: Constraint): string {
    match (c.field, c.op)
    case (Some(f), Some(op)) => f + OpText(op) + Join(c.value, "|")
    case (None, None) => Join(c.value, "|")
    case _ => "<invalid constraint>"
  }

  /** What the grammar tells callers to escape in a value: operators and special characters. */
  const SPECIAL := {'\\', '&', '|', '=', '!', '~', '>', '<'}

  function EscapeAll(values: seq<string>): (r: seq<string>)
    ensures |r| == |values|
    ensures forall i :: 0 <= i < |values| ==> r[i] == Escape(values[i], SPECIAL)
  {
    seq(|values|, i requires 0 <= i < |values| => Escape(values[i], SPECIAL))
  }

  /** A constraint written by the documented grammar. */
  function PrintConstraint(c: Constraint): string {
    Display(c.(value := EscapeAll(c.value)))
  }

  function PrintConstraints(cs: seq<Constraint>): (r: seq<string>)
    ensures |r| == |cs|
    ensures forall i :: 0 <= i < |cs| ==> r[i] == PrintConstraint(cs[i])
  {
    seq(|cs|, i requires 0 <= i < |cs| => PrintConstraint(cs[i]))
  }

  function Print(cs: seq<Constraint>): string {
    Join(PrintConstraints(cs), "&")
  }

  // ---------------------------------------------------------------- the regular expression

  /** `^[^\\]+(op).*$` with the field group of length `i`: one of the ways the expression can match. */
  predicate Matches(s: string, i: nat, op: Operator) {
    && op != And && op != Or
    && 1 <= i && i + |OpText(op)| <= |s|
    && '\\' !in s[..i]
    && s[i..i + |OpText(op)|] == OpText(op)
    && '\n' !in s[i + |OpText(op)|..]
  }

  /** Position of an operator among the alternatives of the expression. */
  function Rank(op: Operator): nat {
    match op
    case Equal => 0 case NotEqual => 1 case Like => 2 case NotLike => 3
    case GreaterThanOrEqual => 4 case GreaterThan => 5 case LessThanOrEqual => 6 case LessThan => 7
    case _ => 8
  }

  /** `r` is the leftmost-first match with a field of length at least `from`. */
  ghost predicate IsLazyMatch(s: string, from: nat, r: Option<(nat, Operator)>) {
    match r
    case None => forall j: nat, o :: from <= j ==> !Matches(s, j, o)
    case Some((i, op)) =>
      && from <= i && Matches(s, i, op)
      && forall j: nat, o :: from <= j && Matches(s, j, o) ==> i < j || (i == j && Rank(op) <= Rank(o))
  }

  /**
   * The tokenizer finds what leftmost-first matching with a lazy field group finds:
   * a match with the shortest field and, for that field, the earliest alternative.
   */
  lemma CaptureIsLazyMatch(s: string)
    ensures IsLazyMatch(s, 0, Capture(s))
  {
    CaptureFrom(s, 1);
  }

  lemma {:induction false} CaptureFrom(s: string, i: nat)
    requires 1 <= i
    requires i <= |s| ==> '\\' !in s[..i - 1]
    ensures IsLazyMatch(s, i, Capture(s, i))
    decreases |s| - i
  {
    if i >= |s| {
    } else if s[i - 1] == '\\' {
      forall j: nat, o | i <= j ensures !Matches(s, j, o) {
        if j <= |s| {
          assert s[..j][i - 1] == '\\';
        }
      }
    } else {
      assert s[..i] == s[..i - 1] + [s[i - 1]];
      MatchesAt(s, i);
      var op := OpAt(s, i);
      if !(op.Some? && '\n' !in s[i + |OpText(op.value)|..]) {
        assert forall o :: !Matches(s, i, o);
        CaptureFrom(s, i + 1);
        NoMatchHere(s, i, Capture(s, i + 1));
      }
    }
  }

  lemma NoMatchHere(s: string, i: nat, r: Option<(nat, Operator)>)
    requires IsLazyMatch(s, i + 1, r)
    requires forall o :: !Matches(s, i, o)
    ensures IsLazyMatch(s, i, r)
  {
    forall j: nat, o | i <= j && Matches(s, j, o) ensures i + 1 <= j {
      assert j != i;
    }
  }

  /** At one position the operators that match differ at most by a trailing `=`. */
  lemma MatchesAt(s: string, i: nat)
    requires 1 <= i < |s|
    requires '\\' !in s[..i]
    ensures OpAt(s, i).Some? ==>
              var op := OpAt(s, i).value;
              i + |OpText(op)| <= |s| && ('\n' !in s[i + |OpText(op)|..] ==> Matches(s, i, op))
    ensures forall o :: Matches(s, i, o) ==>
              OpAt(s, i).Some? && Rank(OpAt(s, i).value) <= Rank(o)
              && '\n' !in s[i + |OpText(OpAt(s, i).value)|..]
  {
    forall o | Matches(s, i, o)
      ensures OpAt(s, i).Some? && Rank(OpAt(s, i).value) <= Rank(o)
      ensures '\n' !in s[i + |OpText(OpAt(s, i).value)|..]
    {
      var t := OpText(o);
      assert s[i] == s[i..i + |t|][0] == t[0];
      if |t| == 2 {
        assert s[i + 1] == s[i..i + |t|][1] == t[1];
      } else {
        var op := OpAt(s, i).value;
        if |OpText(op)| == 2 {
          assert s[i + 1..] == [s[i + 1]] + s[i + 2..];
        }
      }
    }
    if OpAt(s, i).Some? {
      var t := OpText(OpAt(s, i).value);
      assert |t| == 1 ==> s[i..i + 1] == [s[i]];
      assert |t| == 2 ==> s[i..i + 2] == [s[i], s[i + 1]];
    }
  }
}
