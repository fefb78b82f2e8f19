/**
  `ActionType`: what a matching rule does to a message, and the parser for its
  textual spellings.
*/
module ActionType {
  import opened Wrappers
  import opened JavaStrings

  datatype Action = MOVE | COPY | DELETE | MARK_READ | MARK_UNREAD | FLAG
                  | ADD_LABEL | REMOVE_LABEL | ARCHIVE | FORWARD | STOP

  /** The constant's name, as `Enum.name()` returns it. */
  function Name(a: Action): string {
    match a
    case MOVE => "MOVE"
    case COPY => "COPY"
    case DELETE => "DELETE"
    case MARK_READ => "MARK_READ"
    case MARK_UNREAD => "MARK_UNREAD"
    case FLAG => "FLAG"
    case ADD_LABEL => "ADD_LABEL"
    case REMOVE_LABEL => "REMOVE_LABEL"
    case ARCHIVE => "ARCHIVE"
    case FORWARD => "FORWARD"
    case STOP => "STOP"
  }

  /** Every key accepted for an action: its name and its aliases. */
  function Spellings(a: Action): set<string> {
    match a
    case MOVE => {"MOVE"}
    case COPY => {"COPY"}
    case DELETE => {"DELETE", "DEL", "REMOVE"}
    case MARK_READ => {"MARK_READ", "READ"}
    case MARK_UNREAD => {"MARK_UNREAD", "UNREAD"}
    case FLAG => {"FLAG", "STAR"}
    case ADD_LABEL => {"ADD_LABEL", "LABEL_ADD"}
    case REMOVE_LABEL => {"REMOVE_LABEL", "LABEL_REMOVE"}
    case ARCHIVE => {"ARCHIVE"}
    case FORWARD => {"FORWARD"}
    case STOP => {"STOP", "HALT", "BREAK"}
  }

  /** The `switch` of `parse`, on an already normalized key. */
  function FromKey(k: string): (r: Option<Action>) {
    match k
    case "MOVE" => Some(MOVE)
    case "COPY" => Some(COPY)
    case "DELETE" | "DEL" | "REMOVE" => Some(DELETE)
    case "MARK_READ" | "READ" => Some(MARK_READ)
    case "MARK_UNREAD" | "UNREAD" => Some(MARK_UNREAD)
    case "FLAG" | "STAR" => Some(FLAG)
    case "ADD_LABEL" | "LABEL_ADD" => Some(ADD_LABEL)
    case "REMOVE_LABEL" | "LABEL_REMOVE" => Some(REMOVE_LABEL)
    case "ARCHIVE" => Some(ARCHIVE)
    case "FORWARD" => Some(FORWARD)
    case "STOP" | "HALT" | "BREAK" => Some(STOP)
    case _ => None
  }

  /** `parse`: null gives null; otherwise the switch on the normalized key, with
      null for an unknown key. */
  function Parse(s: Option<string>): (r: Option<Action>)
    ensures s.None? ==> r.None?
  {
    if s.None? then None else FromKey(EnumKey(s.value))
  }

  /** The switch recognises exactly the spellings of each action. */
  lemma {:induction false} FromKeySpellings(k: string, a: Action)
    ensures FromKey(k) == Some(a) <==> k in Spellings(a)
  {
  }

  /** The parser recognises exactly the spellings of each action, and nothing
      else. */
  lemma {:induction false} ParseSpellings(s: string, a: Action)
    ensures Parse(Some(s)) == Some(a) <==> EnumKey(s) in Spellings(a)
  {
    FromKeySpellings(EnumKey(s), a);
  }

  /** Unknown keys parse to null. */
  lemma {:induction false} ParseUnknown(s: string)
    requires forall a: Action :: EnumKey(s) !in Spellings(a)
    ensures Parse(Some(s)) == None
  {
    if Parse(Some(s)).Some? {
      ParseSpellings(s, Parse(Some(s)).value);
    }
  }

  /** Round trip: every action's name parses back to it, in any letter case. */
  lemma {:induction false} ParseName(a: Action)
    ensures Parse(Some(Name(a))) == Some(a)
    ensures Parse(Some(ToLower(Name(a)))) == Some(a)
  {
    NameIsKey(a);
    FromKeySpellings(Name(a), a);
    ParseKey(Name(a), a);
  }

  lemma {:induction false} NameIsKey(a: Action)
    ensures IsEnumKey(Name(a))
  {
  }

  lemma {:induction false} ParseKey(n: string, a: Action)
    requires IsEnumKey(n) && FromKey(n) == Some(a)
    ensures Parse(Some(n)) == Some(a) && Parse(Some(ToLower(n))) == Some(a)
  {
    EnumKeyOfKey(n);
  }

  /** The parse does not depend on letter case. */
  lemma {:induction false} ParseIgnoresCase(s: string)
    ensures Parse(Some(ToLower(s))) == Parse(Some(s))
  {
    EnumKeyIgnoresCase(s);
  }
}
