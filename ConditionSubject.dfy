/**
  `ConditionSubject`: which field of a message a rule inspects, and the parser
  for its textual spellings (English and Italian).
*/
module ConditionSubject {
  import opened Wrappers
  import opened JavaStrings

  datatype Subject = SUBJECT | FROM | TO | CC | BCC | MESSAGE

  /** The constant's name, as `Enum.name()` returns it. */
  function Name(f: Subject): string {
    match f
    case SUBJECT => "SUBJECT"
    case FROM => "FROM"
    case TO => "TO"
    case CC => "CC"
    case BCC => "BCC"
    case MESSAGE => "MESSAGE"
  }

  /** Every key accepted for a subject: its name and its aliases. */
  function Spellings(f: Subject): set<string> {
    match f
    case SUBJECT => {"SUBJECT", "OGGETTO"}
    case FROM => {"FROM", "DA"}
    case TO => {"TO", "A"}
    case CC => {"CC", "CARBON_COPY"}
    case BCC => {"BCC", "CCN", "BLIND_CARBON_COPY"}
    case MESSAGE => {"MESSAGE", "BODY", "TESTO"}
  }

  /** The `switch` of `parse`, on an already normalized key. */
  function FromKey(k: string): (r: Option<Subject>) {
    match k
    case "SUBJECT" | "OGGETTO" => Some(SUBJECT)
    case "FROM" | "DA" => Some(FROM)
    case "TO" | "A" => Some(TO)
    case "CC" | "CARBON_COPY" => Some(CC)
    case "BCC" | "CCN" | "BLIND_CARBON_COPY" => Some(BCC)
    case "MESSAGE" | "BODY" | "TESTO" => Some(MESSAGE)
    case _ => None
  }

  /** `parse`: null gives null; otherwise the switch on the normalized key, with
      null for an unknown key. */
  function Parse(s: Option<string>): (r: Option<Subject>)
    ensures s.None? ==> r.None?
  {
    if s.None? then None else FromKey(EnumKey(s.value))
  }

  /** The switch recognises exactly the spellings of each subject. */
  lemma {:induction false} FromKeySpellings(k: string, f: Subject)
    ensures FromKey(k) == Some(f) <==> k in Spellings(f)
  {
  }

  /** The parser recognises exactly the spellings of each subject, and nothing
      else. */
  lemma {:induction false} ParseSpellings(s: string, f: Subject)
    ensures Parse(Some(s)) == Some(f) <==> EnumKey(s) in Spellings(f)
  {
    FromKeySpellings(EnumKey(s), f);
  }

  /** Unknown keys parse to null. */
  lemma {:induction false} ParseUnknown(s: string)
    requires forall f: Subject :: EnumKey(s) !in Spellings(f)
    ensures Parse(Some(s)) == None
  {
    if Parse(Some(s)).Some? {
      ParseSpellings(s, Parse(Some(s)).value);
    }
  }

  /** Round trip: every subject's name parses back to it, in any letter case. */
  lemma {:induction false} ParseName(f: Subject)
    ensures Parse(Some(Name(f))) == Some(f)
    ensures Parse(Some(ToLower(Name(f)))) == Some(f)
  {
    NameIsKey(f);
    FromKeySpellings(Name(f), f);
    ParseKey(Name(f), f);
  }

  lemma {:induction false} NameIsKey(f: Subject)
    ensures IsEnumKey(Name(f))
  {
  }

  lemma {:induction false} ParseKey(n: string, f: Subject)
    requires IsEnumKey(n) && FromKey(n) == Some(f)
    ensures Parse(Some(n)) == Some(f) && Parse(Some(ToLower(n))) == Some(f)
  {
    EnumKeyOfKey(n);
  }

  /** The parse does not depend on letter case. */
  lemma {:induction false} ParseIgnoresCase(s: string)
    ensures Parse(Some(ToLower(s))) == Parse(Some(s))
  {
    EnumKeyIgnoresCase(s);
  }
}
