/**
  `ConditionOperator`: how a rule compares the checked field of a message with
  the rule's value, and the parser for its textual spellings.
*/
module ConditionOperator {
  import opened Wrappers
  import opened JavaStrings

  datatype Operator = EQUALS | NOT_EQUALS | CONTAINS | NOT_CONTAINS | STARTS_WITH | ENDS_WITH | REGEX

  /** The constant's name, as `Enum.name()` returns it. */
  function Name(op: Operator): string {
    match op
    case EQUALS => "EQUALS"
    case NOT_EQUALS => "NOT_EQUALS"
    case CONTAINS => "CONTAINS"
    case NOT_CONTAINS => "NOT_CONTAINS"
    case STARTS_WITH => "STARTS_WITH"
    case ENDS_WITH => "ENDS_WITH"
    case REGEX => "REGEX"
  }

  /** Every key accepted for an operator: its name and its aliases. */
  function Spellings(op: Operator): set<string> {
    match op
    case EQUALS => {"EQUALS", "EQ", "=="}
    case NOT_EQUALS => {"NOT_EQUALS", "NE", "!=", "<>"}
    case CONTAINS => {"CONTAINS", "HAS", "~="}
    case NOT_CONTAINS => {"NOT_CONTAINS", "NOT_HAS", "!~"}
    case STARTS_WITH => {"STARTS_WITH", "SW", "^="}
    case ENDS_WITH => {"ENDS_WITH", "EW", "$="}
    case REGEX => {"REGEX", "MATCHES"}
  }

  /** The `switch` of `parse`, on an already normalized key. */
  function FromKey(k: string): (r: Option<Operator>) {
    match k
    case "EQUALS" | "EQ" | "==" => Some(EQUALS)
    case "NOT_EQUALS" | "NE" | "!=" | "<>" => Some(NOT_EQUALS)
    case "CONTAINS" | "HAS" | "~=" => Some(CONTAINS)
    case "NOT_CONTAINS" | "NOT_HAS" | "!~" => Some(NOT_CONTAINS)
    case "STARTS_WITH" | "SW" | "^=" => Some(STARTS_WITH)
    case "ENDS_WITH" | "EW" | "$=" => Some(ENDS_WITH)
    case "REGEX" | "MATCHES" => Some(REGEX)
    case _ => None
  }

  /** `parse`: null gives null; otherwise the switch on the normalized key, with
      null for an unknown key. */
  function Parse(s: Option<string>): (r: Option<Operator>)
    ensures s.None? ==> r.None?
  {
    if s.None? then None else FromKey(EnumKey(s.value))
  }

  /** The switch recognises exactly the spellings of each operator. */
  lemma {:induction false} FromKeySpellings(k: string, op: Operator)
    ensures FromKey(k) == Some(op) <==> k in Spellings(op)
  {
  }

  /** The parser recognises exactly the spellings of each operator, and nothing
      else. */
  lemma {:induction false} ParseSpellings(s: string, op: Operator)
    ensures Parse(Some(s)) == Some(op) <==> EnumKey(s) in Spellings(op)
  {
    FromKeySpellings(EnumKey(s), op);
  }

  /** Unknown keys parse to null. */
  lemma {:induction false} ParseUnknown(s: string)
    requires forall op: Operator :: EnumKey(s) !in Spellings(op)
    ensures Parse(Some(s)) == None
  {
    if Parse(Some(s)).Some? {
      ParseSpellings(s, Parse(Some(s)).value);
    }
  }

  /** Round trip: every operator's name parses back to it, in any letter case. */
  lemma {:induction false} ParseName(op: Operator)
    ensures Parse(Some(Name(op))) == Some(op)
    ensures Parse(Some(ToLower(Name(op)))) == Some(op)
  {
    NameIsKey(op);
    FromKeySpellings(Name(op), op);
    ParseKey(Name(op), op);
  }

  lemma {:induction false} NameIsKey(op: Operator)
    ensures IsEnumKey(Name(op))
  {
  }

  lemma {:induction false} ParseKey(n: string, op: Operator)
    requires IsEnumKey(n) && FromKey(n) == Some(op)
    ensures Parse(Some(n)) == Some(op) && Parse(Some(ToLower(n))) == Some(op)
  {
    EnumKeyOfKey(n);
  }

  /** The parse does not depend on letter case. */
  lemma {:induction false} ParseIgnoresCase(s: string)
    ensures Parse(Some(ToLower(s))) == Parse(Some(s))
  {
    EnumKeyIgnoresCase(s);
  }

  // ---------------------------------------------------------------------------
  // test
  // ---------------------------------------------------------------------------

  /** A `PatternSyntaxException` from compiling the right operand as a regex. */
  datatype TestError = PatternSyntax

  /** `Pattern.compile(pattern, flags).matcher(text).find()`: `None` when the
      pattern does not compile. */
  type RegexFind = (string, string, bool) -> Option<bool>

  /** An operand as `test` compares it: null read as `""`, lower-cased unless the
      comparison is case-sensitive. */
  function Folded(s: Option<string>, caseSensitive: bool): string {
    if caseSensitive then s.GetOr("") else ToLower(s.GetOr(""))
  }

  /** `test`: null operands read as `""`; unless `caseSensitive`, both are
      lower-cased before the string comparisons; REGEX compiles the untouched
      right operand (case-insensitively unless `caseSensitive`) and searches the
      untouched left one. */
  function Test(op: Operator, left: Option<string>, right: Option<string>, caseSensitive: bool,
                find: RegexFind): (r: Result<bool, TestError>)
    ensures op != REGEX ==> r.Success?
    ensures op == REGEX ==> (r.Success? <==> find(right.GetOr(""), left.GetOr(""), !caseSensitive).Some?)
  {
    var a := Folded(left, caseSensitive);
    var b := Folded(right, caseSensitive);
    match op
    case EQUALS => Success(a == b)
    case NOT_EQUALS => Success(a != b)
    case CONTAINS => Success(Contains(a, b))
    case NOT_CONTAINS => Success(!Contains(a, b))
    case STARTS_WITH => Success(IsPrefix(b, a))
    case ENDS_WITH => Success(IsSuffix(b, a))
    case REGEX =>
      match find(right.GetOr(""), left.GetOr(""), !caseSensitive)
      case Some(found) => Success(found)
      case None => Failure(PatternSyntax)
  }

  /** The NOT_ operators are exactly the negations of their positive forms. */
  lemma {:induction false} TestNegations(left: Option<string>, right: Option<string>, cs: bool, find: RegexFind)
    ensures Test(NOT_EQUALS, left, right, cs, find).value == !Test(EQUALS, left, right, cs, find).value
    ensures Test(NOT_CONTAINS, left, right, cs, find).value == !Test(CONTAINS, left, right, cs, find).value
  {
  }

  /** A null operand behaves as the empty string. */
  lemma {:induction false} TestNullIsEmpty(op: Operator, left: Option<string>, right: Option<string>, cs: bool, find: RegexFind)
    ensures Test(op, None, right, cs, find) == Test(op, Some(""), right, cs, find)
    ensures Test(op, left, None, cs, find) == Test(op, left, Some(""), cs, find)
  {
  }

  /** Case-insensitive comparison is case-sensitive comparison of the lower-cased
      operands (for every operator but REGEX, whose flag does the folding). */
  lemma {:induction false} TestCaseInsensitive(op: Operator, left: string, right: string, find: RegexFind)
    requires op != REGEX
    ensures Test(op, Some(left), Some(right), false, find)
         == Test(op, Some(ToLower(left)), Some(ToLower(right)), true, find)
  {
  }

  /** Without case sensitivity, lower-casing the right operand changes nothing
      (for every operator but REGEX). */
  lemma {:induction false} TestLowerRight(op: Operator, left: Option<string>, right: string, find: RegexFind)
    requires op != REGEX
    ensures Test(op, left, Some(ToLower(right)), false, find) == Test(op, left, Some(right), false, find)
  {
    ToLowerIdempotent(right);
  }

  /** CONTAINS holds exactly when the (folded) right operand occurs somewhere in
      the (folded) left one. */
  lemma {:induction false} TestContainsOccurs(left: string, right: string, cs: bool, find: RegexFind)
    ensures var a := if cs then left else ToLower(left);
            var b := if cs then right else ToLower(right);
            Test(CONTAINS, Some(left), Some(right), cs, find).value <==> exists i :: OccursAt(a, b, i)
  {
    var a := if cs then left else ToLower(left);
    var b := if cs then right else ToLower(right);
    ContainsAt(a, b);
  }

  lemma {:induction false} PrefixContained(p: string, s: string)
    requires IsPrefix(p, s)
    ensures Contains(s, p)
  {
  }

  lemma {:induction false} SuffixContained(p: string, s: string)
    requires IsSuffix(p, s)
    ensures Contains(s, p)
  {
    ContainsAt(s, p);
    assert OccursAt(s, p, |s| - |p|);
  }

  /** EQUALS implies STARTS_WITH and ENDS_WITH, and each of those implies
      CONTAINS; an empty right operand is matched by all three. */
  lemma {:induction false} TestOrdering(left: Option<string>, right: Option<string>, cs: bool, find: RegexFind)
    ensures Test(EQUALS, left, right, cs, find).value ==>
              Test(STARTS_WITH, left, right, cs, find).value && Test(ENDS_WITH, left, right, cs, find).value
    ensures Test(STARTS_WITH, left, right, cs, find).value ==> Test(CONTAINS, left, right, cs, find).value
    ensures Test(ENDS_WITH, left, right, cs, find).value ==> Test(CONTAINS, left, right, cs, find).value
    ensures right.GetOr("") == "" ==>
              Test(CONTAINS, left, right, cs, find).value && Test(STARTS_WITH, left, right, cs, find).value
              && Test(ENDS_WITH, left, right, cs, find).value
  {
    var a := Folded(left, cs);
    var b := Folded(right, cs);
    assert Test(EQUALS, left, right, cs, find).value == (a == b);
    assert Test(STARTS_WITH, left, right, cs, find).value == IsPrefix(b, a);
    assert Test(ENDS_WITH, left, right, cs, find).value == IsSuffix(b, a);
    assert Test(CONTAINS, left, right, cs, find).value == Contains(a, b);
    if right.GetOr("") == "" {
      assert b == "";
    }
    StringOrdering(a, b);
  }

  /** The string comparisons behind EQUALS, STARTS_WITH, ENDS_WITH and CONTAINS,
      from strongest to weakest. */
  lemma {:induction false} StringOrdering(a: string, b: string)
    ensures a == b ==> IsPrefix(b, a) && IsSuffix(b, a)
    ensures IsPrefix(b, a) ==> Contains(a, b)
    ensures IsSuffix(b, a) ==> Contains(a, b)
    ensures b == "" ==> IsPrefix(b, a) && IsSuffix(b, a) && Contains(a, b)
  {
    if IsPrefix(b, a) { PrefixContained(b, a); }
    if IsSuffix(b, a) { SuffixContained(b, a); }
    if b == "" {
      assert a[..0] == b && a[|a|..] == b;
      PrefixContained(b, a);
    }
  }
}
