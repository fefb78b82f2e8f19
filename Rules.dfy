/**
  `Rule`: one filtering rule — which account it belongs to, which field of a
  message it reads, how it compares that field with its value, and what it
  does to a matching message.
*/
module Rules {
  import opened Wrappers
  import opened JavaStrings
  import opened LangUtils
  import opened Mailbox
  import CO = ConditionOperator
  import AT = ActionType
  import CS = ConditionSubject
  import MailText

  /** A rule. `conditionValue` is never null; `destValue` may be. */
  datatype Rule = Rule(imapConfigName: string, actionType: AT.Action, conditionOperator: CO.Operator,
                       conditionSubject: CS.Subject, conditionValue: string, destValue: Option<string>,
                       caseSensitive: bool)

  // ---------------------------------------------------------------------------
  // Equality
  // ---------------------------------------------------------------------------

  /** `equals`: only the account name, the action, the operator and the field
      take part. */
  predicate SameRule(a: Rule, b: Rule) {
    a.imapConfigName == b.imapConfigName && a.actionType == b.actionType
    && a.conditionOperator == b.conditionOperator && a.conditionSubject == b.conditionSubject
  }

  /** Rules that differ only in value, destination or case sensitivity are
      equal; rules that differ in any of the four included fields are not. */
  lemma {:induction false} SameRuleIgnoresPayload(r: Rule, value: string, dest: Option<string>, cs: bool)
    ensures SameRule(r, r.(conditionValue := value, destValue := dest, caseSensitive := cs))
    ensures forall q: Rule :: SameRule(r, q) ==>
              q == r.(conditionValue := q.conditionValue, destValue := q.destValue, caseSensitive := q.caseSensitive)
  {
  }

  // ---------------------------------------------------------------------------
  // catAddresses
  // ---------------------------------------------------------------------------

  /** The non-null entries of an address array, in order. */
  function NonNull(addrs: seq<Option<string>>): (r: seq<string>)
    ensures |r| <= |addrs|
  {
    if addrs == [] then []
    else NonNull(addrs[..|addrs| - 1]) + (if addrs[|addrs| - 1].Some? then [addrs[|addrs| - 1].value] else [])
  }

  /** The builder after the loop: every non-null address followed by a space. */
  function Buffered(addrs: seq<Option<string>>): string {
    if addrs == [] then ""
    else Buffered(addrs[..|addrs| - 1]) + (if addrs[|addrs| - 1].Some? then addrs[|addrs| - 1].value + " " else "")
  }

  /** `catAddresses`: `""` for a null or empty array, otherwise the built text
      trimmed. */
  function CatAddresses(addresses: Option<seq<Option<string>>>): string {
    if addresses.None? || addresses.value == [] then "" else Trim(Buffered(addresses.value))
  }

  /** The loop of `catAddresses`, appending to a builder. */
  method BuildAddressList(addresses: Option<seq<Option<string>>>) returns (r: string)
    ensures r == CatAddresses(addresses)
  {
    if addresses.None? || |addresses.value| == 0 {
      return "";
    }
    var addrs := addresses.value;
    var sb := "";
    var i := 0;
    while i < |addrs|
      invariant 0 <= i <= |addrs|
      invariant sb == Buffered(addrs[..i])
    {
      assert addrs[..i + 1][..i] == addrs[..i];
      if addrs[i].Some? {
        sb := sb + addrs[i].value + " ";
      }
      i := i + 1;
    }
    assert addrs[..i] == addrs;
    r := Trim(sb);
  }

  lemma {:induction false} JoinSnoc(xs: seq<string>, y: string, sep: string)
    ensures Join(xs + [y], sep) == if xs == [] then y else Join(xs, sep) + sep + y
  {
    if xs != [] && |xs| > 1 {
      assert (xs + [y])[1..] == xs[1..] + [y];
      JoinSnoc(xs[1..], y, sep);
    } else if xs != [] {
      assert xs + [y] == [xs[0], y];
    }
  }

  /** The builder holds the non-null addresses joined by single spaces, with one
      more space after the last. */
  lemma {:induction false} BufferedIsJoined(addrs: seq<Option<string>>)
    ensures Buffered(addrs) == if NonNull(addrs) == [] then "" else Join(NonNull(addrs), " ") + " "
  {
    if addrs != [] {
      var init := addrs[..|addrs| - 1];
      BufferedIsJoined(init);
      var x := addrs[|addrs| - 1];
      if x.Some? {
        assert NonNull(addrs) == NonNull(init) + [x.value];
        assert Buffered(addrs) == Buffered(init) + (x.value + " ");
        JoinSnoc(NonNull(init), x.value, " ");
      } else {
        assert NonNull(addrs) == NonNull(init);
        assert Buffered(addrs) == Buffered(init);
      }
    }
  }

  /** `catAddresses` joins the non-null addresses with single spaces and trims
      the result. */
  lemma {:induction false} CatAddressesJoins(addresses: Option<seq<Option<string>>>)
    ensures CatAddresses(addresses) == if addresses.None? then "" else Trim(Join(NonNull(addresses.value), " "))
  {
    if addresses.Some? && addresses.value != [] {
      var addrs := addresses.value;
      var joined := Join(NonNull(addrs), " ");
      BufferedIsJoined(addrs);
      if NonNull(addrs) != [] {
        assert Buffered(addrs) == joined + " ";
        TrimDropsTrailingSpace(joined);
      } else {
        assert Buffered(addrs) == "" == joined;
      }
    } else if addresses.Some? {
      assert NonNull(addresses.value) == [];
    }
  }

  // ---------------------------------------------------------------------------
  // getValueToCheck and evaluate
  // ---------------------------------------------------------------------------

  /** `getValueToCheck`: the subject (null when absent), the joined address
      list, or for MESSAGE the content when it is a string, the extracted text
      when it is a multipart, and `""` for any other content or when reading it
      fails. */
  function ValueToCheck(subject: CS.Subject, m: Mail, render: MailText.Renderer): (r: Option<string>)
    ensures subject != CS.SUBJECT ==> r.Some?
    ensures subject == CS.MESSAGE && !m.mime.content.Text? && !m.mime.content.Multi? ==> r == Some("")
    ensures subject == CS.MESSAGE && m.mime.content.Multi? ==> |r.value| <= MailText.MAX_OUTPUT_CHARS
  {
    match subject
    case SUBJECT => m.subject
    case FROM => Some(CatAddresses(m.from))
    case TO => Some(CatAddresses(m.to))
    case CC => Some(CatAddresses(m.cc))
    case BCC => Some(CatAddresses(m.bcc))
    case MESSAGE =>
      match m.mime.content
      case Text(s) => Some(s)
      case Multi(_) => Some(MailText.ExtractTextFromMessage(MailText.TextExtractor, Some(m.mime), render))
      case _ => Some("")
  }

  /** `evaluate`: the operator's test on the normalized field and the normalized
      value, with the rule's case sensitivity. */
  function Evaluate(rule: Rule, m: Mail, render: MailText.Renderer, find: CO.RegexFind): (r: Result<bool, CO.TestError>)
    ensures rule.conditionOperator != CO.REGEX ==> r.Success?
  {
    CO.Test(rule.conditionOperator, Some(Normalize(ValueToCheck(rule.conditionSubject, m, render))),
            Some(Normalize(Some(rule.conditionValue))), rule.caseSensitive, find)
  }

  /** A missing subject is compared as the empty string. */
  lemma {:induction false} EvaluateNullSubject(rule: Rule, m: Mail, render: MailText.Renderer, find: CO.RegexFind)
    requires rule.conditionSubject == CS.SUBJECT && m.subject.None?
    ensures Evaluate(rule, m, render, find) == Evaluate(rule, m.(subject := Some("")), render, find)
  {
  }

  /** Spaces around the rule's value do not matter. */
  lemma {:induction false} EvaluateIgnoresPadding(rule: Rule, pad: string, m: Mail, render: MailText.Renderer, find: CO.RegexFind)
    requires forall i :: 0 <= i < |pad| ==> IsTrimmable(pad[i])
    ensures Evaluate(rule.(conditionValue := pad + rule.conditionValue + pad), m, render, find)
            == Evaluate(rule, m, render, find)
  {
    PaddedTrim(pad, rule.conditionValue);
  }

  /** A case-insensitive rule matches exactly when the same rule with its value
      lower-cased matches (for every operator but REGEX). */
  lemma {:induction false} EvaluateCaseInsensitive(rule: Rule, m: Mail, render: MailText.Renderer, find: CO.RegexFind)
    requires !rule.caseSensitive && rule.conditionOperator != CO.REGEX
    ensures Evaluate(rule.(conditionValue := ToLower(rule.conditionValue)), m, render, find)
            == Evaluate(rule, m, render, find)
  {
    TrimToLower(rule.conditionValue);
    CO.TestLowerRight(rule.conditionOperator, Some(Normalize(ValueToCheck(rule.conditionSubject, m, render))),
                      Trim(rule.conditionValue), find);
  }

  // ---------------------------------------------------------------------------
  // apply
  // ---------------------------------------------------------------------------

  /** MOVE and COPY go ahead only with a non-blank destination that exists. */
  predicate Deliverable(rule: Rule, s: Snapshot) {
    !EmptyString(rule.destValue) && rule.destValue.value in s.folders
  }

  /** The effect of `apply` on the store. `serverMove` says whether both folders
      are IMAP folders, so that MOVE is a server-side move rather than a copy
      followed by setting DELETED on the source. */
  function Applied(rule: Rule, m: Message, serverMove: bool, s: Snapshot): (r: Snapshot)
    ensures rule.actionType !in {AT.MOVE, AT.COPY, AT.DELETE} ==> r == s
    ensures rule.actionType in {AT.MOVE, AT.COPY} && !Deliverable(rule, s) ==> r == s
    ensures rule.actionType == AT.COPY ==> r.flags == s.flags && r.moved == s.moved
    ensures rule.actionType == AT.DELETE ==>
              r.folders == s.folders && r.moved == s.moved
              && FlagsOf(r, m.uid) == FlagsOf(s, m.uid) + {DELETED}
              && forall u :: u != m.uid ==> FlagsOf(r, u) == FlagsOf(s, u)
    ensures r.folders.Keys == s.folders.Keys && r.expunged == s.expunged
  {
    match rule.actionType
    case MOVE =>
      if !Deliverable(rule, s) then s
      else if serverMove then MovedOut(s, m.uid, rule.destValue.value, m.mail)
      else Flagged(Copied(s, rule.destValue.value, m.mail), m.uid, DELETED)
    case COPY =>
      if !Deliverable(rule, s) then s else Copied(s, rule.destValue.value, m.mail)
    case DELETE => Flagged(s, m.uid, DELETED)
    case _ => s
  }

  /** MOVE and COPY deliver the same message to the same folder; MOVE in
      addition takes it out of the source (moved away, or flagged DELETED),
      which COPY never does. */
  lemma {:induction false} MoveIsCopyThenRemove(rule: Rule, m: Message, serverMove: bool, s: Snapshot)
    requires rule.actionType == AT.MOVE && Deliverable(rule, s)
    ensures var copy := Applied(rule.(actionType := AT.COPY), m, serverMove, s);
            var move := Applied(rule, m, serverMove, s);
            move.folders == copy.folders
            && Contents(copy, rule.destValue.value) == Contents(s, rule.destValue.value) + [m.mail]
            && (if serverMove then m.uid in move.moved && move.flags == s.flags
                else DELETED in FlagsOf(move, m.uid) && move.moved == s.moved)
            && DELETED !in FlagsOf(copy, m.uid) - FlagsOf(s, m.uid)
  {
  }

  /** `apply`, against the store. */
  method Apply(rule: Rule, m: Message, mb: Mailbox, serverMove: bool)
    modifies mb
    ensures mb.State() == Applied(rule, m, serverMove, old(mb.State()))
    ensures mb.expungeCalled == old(mb.expungeCalled)
  {
    match rule.actionType {
      case MOVE =>
        if EmptyString(rule.destValue) {
          return;
        }
        if rule.destValue.value !in mb.folders {
          return;
        }
        if serverMove {
          mb.MoveMessage(m, rule.destValue.value);
        } else {
          mb.CopyMessage(m, rule.destValue.value);
          mb.SetFlag(m, DELETED);
        }
      case COPY =>
        if EmptyString(rule.destValue) {
          return;
        }
        if rule.destValue.value !in mb.folders {
          return;
        }
        mb.CopyMessage(m, rule.destValue.value);
      case DELETE =>
        mb.SetFlag(m, DELETED);
      case _ =>
    }
  }
}
