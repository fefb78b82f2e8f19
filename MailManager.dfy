/**
  `MailManager`: the worker-pool size, the table of per-folder processing
  states, and the run over one account — open the inbox, work out which UIDs
  are new since the stored watermark (UIDVALIDITY, UIDNEXT and UIDs as in
  section 2.3.1.1 of RFC 3501), give each new message to SpamAssassin and then
  to the first matching rule of the account, and store the new watermark.
*/
module MailManager {
  import opened Wrappers
  import opened LangUtils
  import opened Accounts
  import opened Mailbox
  import Keyed
  import Rules
  import AT = ActionType
  import CO = ConditionOperator
  import MailText

  function Min(a: int, b: int): int {
    if a <= b then a else b
  }

  function Max(a: int, b: int): int {
    if a >= b then a else b
  }

  // ---------------------------------------------------------------------------
  // Worker pool
  // ---------------------------------------------------------------------------

  /** The pool size `processEmails()` asks for: one worker when the `DEV`
      variable is set, else the account count capped by the processor count
      and by 8. */
  function MaxThreads(dev: Option<string>, accounts: nat, cpus: int): (n: int)
    ensures !EmptyString(dev) ==> n == 1
    ensures EmptyString(dev) ==> 0 <= n <= 8 && n <= accounts
    ensures EmptyString(dev) && accounts > 0 ==> 1 <= n && (cpus >= accounts ==> n == Min(accounts, 8))
  {
    if !EmptyString(dev) then 1 else Min(accounts, Max(1, Min(8, cpus)))
  }

  /** With no account configured and `DEV` unset the size is zero, which
      `Executors.newFixedThreadPool` rejects with an exception. */
  lemma {:induction false} MaxThreadsZeroWithoutAccounts(cpus: int)
    ensures MaxThreads(None, 0, cpus) == 0
  {
  }

  /** The pool size with the evident intent kept for every account count: at
      least one worker and at most eight, and the same as `MaxThreads`
      whenever there is an account. */
  function ThreadPoolSize(dev: Option<string>, accounts: nat, cpus: int): (n: int)
    ensures 1 <= n <= 8
    ensures !EmptyString(dev) ==> n == 1
    ensures accounts > 0 ==> n == MaxThreads(dev, accounts, cpus)
    ensures n <= Max(1, accounts)
  {
    Max(1, MaxThreads(dev, accounts, cpus))
  }

  // ---------------------------------------------------------------------------
  // The range of UIDs to read
  // ---------------------------------------------------------------------------

  datatype UidRange = UidRange(start: int, end: int)

  predicate InRange(u: int, r: UidRange) {
    r.start <= u <= r.end
  }

  /** A UID that has not been handled yet and already exists: positive, above
      the watermark and below UIDNEXT. */
  predicate IsNew(u: int, watermark: int, uidNext: int) {
    0 < u && watermark < u && u < uidNext
  }

  /** The range asked of the server: from just above the watermark (or from 1
      when there is none) up to UIDNEXT - 1. It holds exactly the new UIDs. */
  function Range(watermark: int, uidNext: int): (r: UidRange)
    ensures forall u :: InRange(u, r) <==> IsNew(u, watermark, uidNext)
    ensures r.start >= 1 && r.end == uidNext - 1
  {
    UidRange(if watermark > 0 then watermark + 1 else 1, uidNext - 1)
  }

  // ---------------------------------------------------------------------------
  // The table of processing states
  // ---------------------------------------------------------------------------

  /** The state `getOrCreateState` hands out and the table after it: the first
      state filed under `account:folder`, or a fresh one (no UIDVALIDITY yet,
      watermark 1) appended to the table. */
  function GetOrCreate(states: seq<State>, account: string, folder: string, now: int): (r: (State, seq<State>))
    ensures Keyed.Find(r.1, StateKey, KeyOf(account, folder)) == Some(r.0)
    ensures |states| <= |r.1| <= |states| + 1 && r.1[..|states|] == states
    ensures Keyed.HasKey(states, StateKey, KeyOf(account, folder)) ==> r.1 == states && r.0 in states
    ensures !Keyed.HasKey(states, StateKey, KeyOf(account, folder)) ==>
              r.0 == State(account, folder, -1, 1, now)
  {
    var k := KeyOf(account, folder);
    var found := Keyed.Find(states, StateKey, k);
    if found.Some? then (found.value, states)
    else
      var s := State(account, folder, -1, 1, now);
      assert StateKey(s) == k;
      assert Keyed.FirstIndex(states + [s], StateKey, k) == |states| by {
        assert (states + [s])[|states|] == s;
        assert forall j :: 0 <= j < |states| ==> (states + [s])[j] == states[j];
      }
      (s, states + [s])
  }

  /** The sync-loop side of the service: the table of processing states. */
  class Manager {
    var states: seq<State>

    constructor (loaded: seq<State>)
      ensures states == loaded
    {
      states := loaded;
    }

    /** `getOrCreateState`. */
    method GetOrCreateState(account: string, folder: string, now: int) returns (s: State)
      modifies this
      ensures (s, states) == GetOrCreate(old(states), account, folder, now)
    {
      var k := KeyOf(account, folder);
      var i := 0;
      while i < |states|
        invariant 0 <= i <= |states|
        invariant forall j :: 0 <= j < i ==> StateKey(states[j]) != k
      {
        if k == StateKey(states[i]) {
          return states[i];
        }
        i := i + 1;
      }
      s := State(account, folder, -1, 1, now);
      states := states + [s];
    }

    /** `replaceState`: overwrite the first state with the same key, or append. */
    method ReplaceState(s: State)
      modifies this
      ensures states == Keyed.Upserted(old(states), StateKey, s)
    {
      var i := 0;
      while i < |states|
        invariant 0 <= i <= |states|
        invariant states == old(states)
        invariant forall j :: 0 <= j < i ==> StateKey(states[j]) != StateKey(s)
      {
        if StateKey(states[i]) == StateKey(s) {
          states := states[i := s];
          return;
        }
        i := i + 1;
      }
      states := states + [s];
    }
  }

  // ---------------------------------------------------------------------------
  // One message
  // ---------------------------------------------------------------------------

  /** What a run depends on besides the state table, the rules and the store:
      the folder's UIDVALIDITY and UIDNEXT, the messages the server returns for
      a UID range, the state methods `refreshValidity` and `shouldProcess`
      (whose bodies are not part of this model), whether a SpamAssassin client
      could be created, its verdict on a message (`None` when the check
      throws), whether moving a message to the spam folder succeeds, whether
      rule moves are server-side, the HTML renderer, the regular-expression
      engine and the clock. */
  datatype Env = Env(uidValidity: int, uidNext: int, fetch: (int, int) -> seq<Message>,
                     refreshValidity: (State, int) -> State, shouldProcess: (State, int, int) -> bool,
                     spamClientReady: bool, spamVerdict: Mail -> Option<bool>,
                     spamMoveOk: Message -> bool, serverMove: bool,
                     render: MailText.Renderer, find: CO.RegexFind, now: int)

  /** What stays fixed while the messages of one run are handled. */
  datatype Ctx = Ctx(config: ImapConfig, account: string, rules: seq<Rules.Rule>, env: Env,
                     spamOn: bool, state: State)

  /** The loop variables: the store, the highest UID seen, whether anything was
      marked for deletion, and whether an exception ended the run. */
  datatype Scan = Scan(box: Snapshot, lastSeen: int, anyDeleted: bool, failed: bool)

  /** How each rule is judged against the message at hand. */
  type Evaluator = Rules.Rule -> Result<bool, CO.TestError>

  /** `rule.evaluate(msg)` for the message being handled. */
  function RuleEval(m: Mail, render: MailText.Renderer, find: CO.RegexFind): Evaluator {
    rule => Rules.Evaluate(rule, m, render, find)
  }

  /** The rule loop: the first rule of this account that matches, `None` when
      none does, or the exception an evaluation throws. */
  function FirstMatch(rules: seq<Rules.Rule>, account: string, eval: Evaluator)
    : Result<Option<Rules.Rule>, CO.TestError>
    decreases |rules|
  {
    if rules == [] then Success(None)
    else if rules[0].imapConfigName != account then FirstMatch(rules[1..], account, eval)
    else
      match eval(rules[0])
      case Failure(e) => Failure(e)
      case Success(b) => if b then Success(Some(rules[0])) else FirstMatch(rules[1..], account, eval)
  }

  /** The rule is passed over: it belongs to another account, or it evaluates
      to false. */
  predicate Misses(rule: Rules.Rule, account: string, eval: Evaluator) {
    rule.imapConfigName == account ==> eval(rule) == Success(false)
  }

  /** Every rule of the account among the first `n` evaluates to false. */
  predicate NoMatchBefore(rules: seq<Rules.Rule>, n: int, account: string, eval: Evaluator)
    requires n <= |rules|
  {
    forall j :: 0 <= j < n ==> Misses(rules[j], account, eval)
  }

  /** A skipped head (another account's rule, or one of the account that
      evaluates to false) extends a run of non-matching rules by one. */
  lemma {:induction false} NoMatchCons(rules: seq<Rules.Rule>, n: nat, account: string, eval: Evaluator)
    requires 0 < |rules| && n < |rules|
    requires Misses(rules[0], account, eval)
    requires NoMatchBefore(rules[1..], n, account, eval)
    ensures NoMatchBefore(rules, n + 1, account, eval)
  {
    var tail := rules[1..];
    forall j | 0 <= j < n + 1
      ensures Misses(rules[j], account, eval)
    {
      if j > 0 {
        var k := j - 1;
        assert Misses(tail[k], account, eval);
        assert rules[j] == tail[k];
      }
    }
  }

  /** First match wins: a chosen rule belongs to the account and matches, and
      every rule of the account before it evaluates to false. */
  lemma {:induction false} FirstMatchChosen(rules: seq<Rules.Rule>, account: string, eval: Evaluator)
    requires FirstMatch(rules, account, eval).Success?
    requires FirstMatch(rules, account, eval).value.Some?
    ensures exists i :: 0 <= i < |rules| && rules[i] == FirstMatch(rules, account, eval).value.value
                        && rules[i].imapConfigName == account
                        && eval(rules[i]) == Success(true)
                        && NoMatchBefore(rules, i, account, eval)
    decreases |rules|
  {
    var tail := rules[1..];
    var head := rules[0];
    if Misses(head, account, eval) {
      assert FirstMatch(rules, account, eval) == FirstMatch(tail, account, eval);
      FirstMatchChosen(tail, account, eval);
      var i :| 0 <= i < |tail| && tail[i] == FirstMatch(tail, account, eval).value.value
               && tail[i].imapConfigName == account
               && eval(tail[i]) == Success(true)
               && NoMatchBefore(tail, i, account, eval);
      NoMatchCons(rules, i, account, eval);
      assert rules[i + 1] == tail[i];
    } else {
      assert NoMatchBefore(rules, 0, account, eval);
    }
  }

  /** With no rule chosen, every rule of the account evaluates to false. */
  lemma {:induction false} FirstMatchNone(rules: seq<Rules.Rule>, account: string, eval: Evaluator)
    requires FirstMatch(rules, account, eval) == Success(None)
    ensures NoMatchBefore(rules, |rules|, account, eval)
    decreases |rules|
  {
    if rules != [] {
      var tail := rules[1..];
      assert FirstMatch(rules, account, eval) == FirstMatch(tail, account, eval);
      FirstMatchNone(tail, account, eval);
      NoMatchCons(rules, |tail|, account, eval);
    }
  }

  /** An exception comes from a rule of the account all of whose predecessors
      of the account evaluated to false. */
  lemma {:induction false} FirstMatchFailure(rules: seq<Rules.Rule>, account: string, eval: Evaluator)
    requires FirstMatch(rules, account, eval).Failure?
    ensures exists i :: 0 <= i < |rules| && rules[i].imapConfigName == account
                        && eval(rules[i]).Failure?
                        && NoMatchBefore(rules, i, account, eval)
    decreases |rules|
  {
    var tail := rules[1..];
    var head := rules[0];
    if Misses(head, account, eval) {
      assert FirstMatch(rules, account, eval) == FirstMatch(tail, account, eval);
      FirstMatchFailure(tail, account, eval);
      var i :| 0 <= i < |tail| && tail[i].imapConfigName == account
               && eval(tail[i]).Failure?
               && NoMatchBefore(tail, i, account, eval);
      NoMatchCons(rules, i, account, eval);
      assert rules[i + 1] == tail[i];
    } else {
      assert NoMatchBefore(rules, 0, account, eval);
    }
  }

  /** The rule loop of `processEmails`. */
  method MatchRule(rules: seq<Rules.Rule>, account: string, m: Mail, render: MailText.Renderer,
                   find: CO.RegexFind) returns (r: Result<Option<Rules.Rule>, CO.TestError>)
    ensures r == FirstMatch(rules, account, RuleEval(m, render, find))
  {
    var i := 0;
    while i < |rules|
      invariant 0 <= i <= |rules|
      invariant FirstMatch(rules[i..], account, RuleEval(m, render, find))
             == FirstMatch(rules, account, RuleEval(m, render, find))
    {
      var rule := rules[i];
      assert rules[i..][1..] == rules[i + 1..];
      if rule.imapConfigName != account {
        i := i + 1;
        continue;
      }
      var matched := Rules.Evaluate(rule, m, render, find);
      if matched.Failure? {
        return Failure(matched.error);
      }
      if matched.value {
        return Success(Some(rule));
      }
      i := i + 1;
    }
    r := Success(None);
  }

  /** The configured spam action on a message judged spam, and whether it
      marked the message for deletion. */
  function SpamActed(config: ImapConfig, env: Env, box: Snapshot, m: Message): (r: (Snapshot, bool))
    requires config.spamAction.Some?
    ensures r.1 <==> config.spamAction == Some(DELETE) || (config.spamAction == Some(MOVE) && env.spamMoveOk(m))
    ensures r.1 ==> DELETED in FlagsOf(r.0, m.uid)
    ensures !r.1 ==> r.0.folders == box.folders && SEEN in FlagsOf(r.0, m.uid)
    ensures r.0.moved == box.moved && r.0.expunged == box.expunged
    ensures forall u :: u != m.uid ==> FlagsOf(r.0, u) == FlagsOf(box, u)
  {
    match config.spamAction.value
    case DELETE => (Flagged(box, m.uid, DELETED), true)
    case MOVE =>
      if env.spamMoveOk(m) then (Flagged(Copied(box, config.spamFolder, m.mail), m.uid, DELETED), true)
      else (Flagged(box, m.uid, SEEN), false)
    case MARK_AS_READ => (Flagged(box, m.uid, SEEN), false)
  }

  /** The message is judged spam and there is an action to take. */
  predicate SpamBranch(ctx: Ctx, m: Message) {
    ctx.spamOn && ctx.env.spamVerdict(m.mail) == Some(true) && ctx.config.spamAction.Some?
  }

  /** One pass of the message loop. A message without a UID is skipped; one
      `shouldProcess` refuses only raises the watermark; spam gets the spam
      action; anything else (including a message whose spam check threw, or
      spam with no action configured) goes to the first matching rule. */
  function Step(ctx: Ctx, s: Scan, m: Message): Scan {
    if s.failed || m.uid <= 0 then s
    else if !ctx.env.shouldProcess(ctx.state, m.uid, ctx.env.uidValidity) then
      s.(lastSeen := Max(s.lastSeen, m.uid))
    else if SpamBranch(ctx, m) then
      var acted := SpamActed(ctx.config, ctx.env, s.box, m);
      s.(box := acted.0, anyDeleted := s.anyDeleted || acted.1, lastSeen := Max(s.lastSeen, m.uid))
    else
      match FirstMatch(ctx.rules, ctx.account, RuleEval(m.mail, ctx.env.render, ctx.env.find))
      case Failure(_) => s.(failed := true)
      case Success(None) => s.(lastSeen := Max(s.lastSeen, m.uid))
      case Success(Some(rule)) =>
        s.(box := Rules.Applied(rule, m, ctx.env.serverMove, s.box), lastSeen := Max(s.lastSeen, m.uid))
  }

  /** The message loop over `msgs`. */
  function Steps(ctx: Ctx, s: Scan, msgs: seq<Message>): Scan
    decreases |msgs|
  {
    if msgs == [] then s else Step(ctx, Steps(ctx, s, msgs[..|msgs| - 1]), msgs[|msgs| - 1])
  }

  /** The loop over one more message is one more step. */
  lemma {:induction false} StepsSnoc(ctx: Ctx, s: Scan, msgs: seq<Message>, i: nat)
    requires i < |msgs|
    ensures Steps(ctx, s, msgs[..i + 1]) == Step(ctx, Steps(ctx, s, msgs[..i]), msgs[i])
  {
    assert msgs[..i + 1][..i] == msgs[..i];
  }

  /** The running maximum of the watermark and every positive UID. */
  function MaxUid(w: int, msgs: seq<Message>): (r: int)
    ensures w <= r
    ensures forall i :: 0 <= i < |msgs| && msgs[i].uid > 0 ==> msgs[i].uid <= r
    ensures r == w || exists i :: 0 <= i < |msgs| && msgs[i].uid == r
    decreases |msgs|
  {
    if msgs == [] then w
    else
      var init := msgs[..|msgs| - 1];
      var p := MaxUid(w, init);
      assert forall i :: 0 <= i < |init| ==> msgs[i] == init[i];
      var m := msgs[|msgs| - 1];
      if m.uid > 0 then Max(p, m.uid) else p
  }

  /** A run that is not cut short by an exception ends with the watermark at
      the maximum of where it started and every positive UID it met, whatever
      the branch each message took. */
  lemma {:induction false} StepsWatermark(ctx: Ctx, s: Scan, msgs: seq<Message>)
    requires !s.failed
    ensures !Steps(ctx, s, msgs).failed ==> Steps(ctx, s, msgs).lastSeen == MaxUid(s.lastSeen, msgs)
    decreases |msgs|
  {
    if msgs != [] {
      StepsWatermark(ctx, s, msgs[..|msgs| - 1]);
    }
  }

  /** Only the spam branch marks messages for deletion, and only with the
      DELETE action or a MOVE that succeeded; rule actions never do. */
  lemma {:induction false} StepsAnyDeleted(ctx: Ctx, s: Scan, msgs: seq<Message>)
    ensures Steps(ctx, s, msgs).anyDeleted ==>
              s.anyDeleted || (ctx.spamOn && ctx.config.spamAction in {Some(DELETE), Some(MOVE)})
    decreases |msgs|
  {
    if msgs != [] {
      StepsAnyDeleted(ctx, s, msgs[..|msgs| - 1]);
    }
  }

  /** A message judged spam, with an action configured, never reaches the
      rules: the outcome is the same for any rule list. */
  lemma {:induction false} SpamSkipsRules(ctx: Ctx, s: Scan, m: Message, other: seq<Rules.Rule>)
    requires SpamBranch(ctx, m)
    ensures Step(ctx, s, m) == Step(ctx.(rules := other), s, m)
  {
  }

  /** A spam check that throws, or spam with no action configured (the switch
      on a `null` action throws), is handled as if SpamAssassin were off. */
  lemma {:induction false} SpamFailureFallsThrough(ctx: Ctx, s: Scan, m: Message)
    requires ctx.env.spamVerdict(m.mail).None? || ctx.config.spamAction.None?
    ensures Step(ctx, s, m) == Step(ctx.(spamOn := false), s, m)
  {
  }

  /** A message without a UID changes nothing. */
  lemma {:induction false} NoUidSkipped(ctx: Ctx, s: Scan, m: Message)
    requires m.uid <= 0
    ensures Step(ctx, s, m) == s
  {
  }

  /** The rules of the account, in order. */
  function AccountRules(rules: seq<Rules.Rule>, account: string): (r: seq<Rules.Rule>)
    ensures forall j :: 0 <= j < |r| ==> r[j].imapConfigName == account && r[j] in rules
    decreases |rules|
  {
    if rules == [] then []
    else
      var rest := AccountRules(rules[1..], account);
      if rules[0].imapConfigName == account then [rules[0]] + rest else rest
  }

  /** Rules of other accounts play no part in the choice. */
  lemma {:induction false} OtherAccountsIgnored(rules: seq<Rules.Rule>, account: string, eval: Evaluator)
    ensures FirstMatch(rules, account, eval) == FirstMatch(AccountRules(rules, account), account, eval)
    decreases |rules|
  {
    if rules != [] {
      OtherAccountsIgnored(rules[1..], account, eval);
      if rules[0].imapConfigName == account {
        assert ([rules[0]] + AccountRules(rules[1..], account))[1..] == AccountRules(rules[1..], account);
      }
    }
  }

  /** The spam action on one message, against the store. */
  method HandleSpam(config: ImapConfig, env: Env, m: Message, mb: Mailbox) returns (deleted: bool)
    requires config.spamAction.Some?
    modifies mb
    ensures (mb.State(), deleted) == SpamActed(config, env, old(mb.State()), m)
    ensures mb.expungeCalled == old(mb.expungeCalled)
  {
    match config.spamAction.value {
      case DELETE =>
        mb.SetFlag(m, DELETED);
        deleted := true;
      case MOVE =>
        if env.spamMoveOk(m) {
          mb.CopyMessage(m, config.spamFolder);
          mb.SetFlag(m, DELETED);
          deleted := true;
        } else {
          mb.SetFlag(m, SEEN);
          deleted := false;
        }
      case MARK_AS_READ =>
        mb.SetFlag(m, SEEN);
        deleted := false;
    }
  }

  /** Once an exception has ended the run, later messages change nothing. */
  lemma {:induction false} StepsStayFailed(ctx: Ctx, s: Scan, msgs: seq<Message>, k: nat)
    requires k <= |msgs| && Steps(ctx, s, msgs[..k]).failed
    ensures Steps(ctx, s, msgs) == Steps(ctx, s, msgs[..k])
    decreases |msgs| - k
  {
    if k < |msgs| {
      assert msgs[..k + 1][..k] == msgs[..k];
      StepsStayFailed(ctx, s, msgs, k + 1);
    } else {
      assert msgs[..k] == msgs;
    }
  }

  /** The message loop of `processEmails`, against the store. */
  method ProcessMessages(ctx: Ctx, msgs: seq<Message>, mb: Mailbox) returns (scan: Scan)
    modifies mb
    ensures scan == Steps(ctx, Scan(old(mb.State()), ctx.state.lastProcessedUid, false, false), msgs)
    ensures mb.State() == scan.box && mb.expungeCalled == old(mb.expungeCalled)
  {
    var lastSeen := ctx.state.lastProcessedUid;
    var anyDeleted := false;
    ghost var s0 := Scan(mb.State(), lastSeen, false, false);
    var i := 0;
    while i < |msgs|
      invariant 0 <= i <= |msgs|
      invariant Steps(ctx, s0, msgs[..i]) == Scan(mb.State(), lastSeen, anyDeleted, false)
      invariant mb.expungeCalled == old(mb.expungeCalled)
    {
      StepsSnoc(ctx, s0, msgs, i);
      var m := msgs[i];
      if m.uid <= 0 {
        i := i + 1;
        continue;
      }
      if !ctx.env.shouldProcess(ctx.state, m.uid, ctx.env.uidValidity) {
        lastSeen := Max(lastSeen, m.uid);
        i := i + 1;
        continue;
      }
      if SpamBranch(ctx, m) {
        var deleted := HandleSpam(ctx.config, ctx.env, m, mb);
        anyDeleted := anyDeleted || deleted;
        lastSeen := Max(lastSeen, m.uid);
        i := i + 1;
        continue;
      }
      var matched := MatchRule(ctx.rules, ctx.account, m.mail, ctx.env.render, ctx.env.find);
      if matched.Failure? {
        scan := Scan(mb.State(), lastSeen, anyDeleted, true);
        StepsStayFailed(ctx, s0, msgs, i + 1);
        return;
      }
      if matched.value.Some? {
        Rules.Apply(matched.value.value, m, mb, ctx.env.serverMove);
      }
      lastSeen := Max(lastSeen, m.uid);
      i := i + 1;
    }
    assert msgs[..i] == msgs;
    scan := Scan(mb.State(), lastSeen, anyDeleted, false);
  }

  // ---------------------------------------------------------------------------
  // One account
  // ---------------------------------------------------------------------------

  /** How a run ended: no account name (the state lookup throws), an empty
      folder (UIDNEXT <= 0), no new UID, an exception in the rule loop, or the
      messages were handled, with the watermark reached and whether anything
      was marked for deletion. */
  datatype Outcome = Unnamed | EmptyFolder | NothingNew | Aborted | Processed(lastSeen: int, anyDeleted: bool)

  /** The state table, the store, whether `Folder.expunge()` was called, and
      the outcome after a run. */
  datatype After = After(states: seq<State>, box: Snapshot, expungeCalled: bool, outcome: Outcome)

  /** The state the run works from: the stored one (or a fresh one) brought up
      to date by `refreshValidity`. */
  function Refreshed(config: ImapConfig, env: Env, states: seq<State>): State
    requires config.name.Some?
  {
    env.refreshValidity(GetOrCreate(states, config.name.value, config.inboxFolder, env.now).0, env.uidValidity)
  }

  /** The table once the refreshed state is stored. */
  function Opened(config: ImapConfig, env: Env, states: seq<State>): seq<State>
    requires config.name.Some?
  {
    Keyed.Upserted(GetOrCreate(states, config.name.value, config.inboxFolder, env.now).1, StateKey,
                   Refreshed(config, env, states))
  }

  /** `processEmails(config)` from the point where the refreshed state is in
      the table up to, not including, the closing of the folder. */
  function RunFrom(config: ImapConfig, rules: seq<Rules.Rule>, env: Env, state: State, table: seq<State>,
                   box: Snapshot): After
    requires config.name.Some?
  {
    var stamped := state.(uidValidity := env.uidValidity, updatedAtEpochMs := env.now);
    var range := Range(state.lastProcessedUid, env.uidNext);
    if env.uidNext <= 0 then After(Keyed.Upserted(table, StateKey, stamped), box, false, EmptyFolder)
    else if range.start > range.end then After(Keyed.Upserted(table, StateKey, stamped), box, false, NothingNew)
    else
      var scan := Steps(RunCtx(config, rules, env, state), Scan(box, state.lastProcessedUid, false, false),
                        env.fetch(range.start, range.end));
      if scan.failed then After(table, scan.box, false, Aborted)
      else
        var saved := state.(lastProcessedUid := scan.lastSeen, updatedAtEpochMs := env.now);
        After(Keyed.Upserted(table, StateKey, saved), if scan.anyDeleted then Expunged(scan.box) else scan.box,
              scan.anyDeleted, Processed(scan.lastSeen, scan.anyDeleted))
  }

  /** The context of the message loop; SpamAssassin is used when the account
      asks for it and the client could be created. */
  function RunCtx(config: ImapConfig, rules: seq<Rules.Rule>, env: Env, state: State): Ctx
    requires config.name.Some?
  {
    Ctx(config, config.name.value, rules, env, config.useSpamAssassin && env.spamClientReady, state)
  }

  /** `processEmails(config)`. The folder is open before the state lookup, so
      `@Cleanup` closes it, expunging, on every way out: also when the lookup
      throws for a missing name, and when the rule loop throws. */
  function Run(config: ImapConfig, rules: seq<Rules.Rule>, env: Env, states: seq<State>, box: Snapshot): After {
    var a := if config.name.None? then After(states, box, false, Unnamed)
             else RunFrom(config, rules, env, Refreshed(config, env, states), Opened(config, env, states), box);
    a.(box := Expunged(a.box))
  }

  /** Find or create the folder's state, refresh it and store it back. */
  method OpenState(mgr: Manager, config: ImapConfig, env: Env) returns (state: State)
    requires config.name.Some?
    modifies mgr
    ensures state == Refreshed(config, env, old(mgr.states))
    ensures mgr.states == Opened(config, env, old(mgr.states))
  {
    var st := mgr.GetOrCreateState(config.name.value, config.inboxFolder, env.now);
    state := env.refreshValidity(st, env.uidValidity);
    mgr.ReplaceState(state);
  }

  /** The rest of `processEmails(config)`: the range, the message loop, the
      final state and the explicit expunge. */
  method ProcessFrom(mgr: Manager, config: ImapConfig, rules: seq<Rules.Rule>, env: Env, state: State, mb: Mailbox)
    returns (outcome: Outcome)
    requires config.name.Some?
    modifies mgr, mb
    ensures var a := RunFrom(config, rules, env, state, old(mgr.states), old(mb.State()));
            mgr.states == a.states && mb.State() == a.box && outcome == a.outcome
            && mb.expungeCalled == (old(mb.expungeCalled) || a.expungeCalled)
  {
    if env.uidNext <= 0 {
      mgr.ReplaceState(state.(uidValidity := env.uidValidity, updatedAtEpochMs := env.now));
      return EmptyFolder;
    }
    var startUid := if state.lastProcessedUid > 0 then state.lastProcessedUid + 1 else 1;
    var endUid := env.uidNext - 1;
    if startUid > endUid {
      mgr.ReplaceState(state.(uidValidity := env.uidValidity, updatedAtEpochMs := env.now));
      return NothingNew;
    }
    var messages := env.fetch(startUid, endUid);
    var scan := ProcessMessages(RunCtx(config, rules, env, state), messages, mb);
    if scan.failed {
      return Aborted;
    }
    mgr.ReplaceState(state.(lastProcessedUid := scan.lastSeen, updatedAtEpochMs := env.now));
    if scan.anyDeleted {
      mb.Expunge();
    }
    outcome := Processed(scan.lastSeen, scan.anyDeleted);
  }

  /** `processEmails(config)` against the state table and the store, from
      the opened folder to its closing. */
  method ProcessAccount(mgr: Manager, config: ImapConfig, rules: seq<Rules.Rule>, env: Env, mb: Mailbox)
    returns (outcome: Outcome)
    modifies mgr, mb
    ensures var a := Run(config, rules, env, old(mgr.states), old(mb.State()));
            mgr.states == a.states && mb.State() == a.box && outcome == a.outcome
            && mb.expungeCalled == (old(mb.expungeCalled) || a.expungeCalled)
  {
    if config.name.None? {
      mb.Close();
      return Unnamed;
    }
    var state := OpenState(mgr, config, env);
    outcome := ProcessFrom(mgr, config, rules, env, state, mb);
    mb.Close();
  }

  // ---------------------------------------------------------------------------
  // What a run promises
  // ---------------------------------------------------------------------------

  /** With UIDNEXT <= 0, or no UID between the watermark and UIDNEXT, nothing is
      fetched: the store changes only by the expunge of closing the folder,
      `expunge()` is not called, and the refreshed state is stored with the
      folder's UIDVALIDITY and its watermark as it was. */
  lemma {:induction false} NothingFetched(config: ImapConfig, rules: seq<Rules.Rule>, env: Env, states: seq<State>, box: Snapshot)
    requires config.name.Some?
    ensures var a := Run(config, rules, env, states, box);
            var state := Refreshed(config, env, states);
            a.outcome in {EmptyFolder, NothingNew} ==>
              a.box == Expunged(box) && !a.expungeCalled
              && state.(uidValidity := env.uidValidity, updatedAtEpochMs := env.now) in a.states
    ensures var a := Run(config, rules, env, states, box);
            var state := Refreshed(config, env, states);
            a.outcome == NothingNew ==> forall u :: !IsNew(u, state.lastProcessedUid, env.uidNext)
  {
    var state := Refreshed(config, env, states);
    var stamped := state.(uidValidity := env.uidValidity, updatedAtEpochMs := env.now);
    var range := Range(state.lastProcessedUid, env.uidNext);
    var a0 := RunFrom(config, rules, env, state, Opened(config, env, states), box);
    assert Run(config, rules, env, states, box) == a0.(box := Expunged(a0.box));
    if env.uidNext <= 0 || range.start > range.end {
      assert a0.states == Keyed.Upserted(Opened(config, env, states), StateKey, stamped);
      assert a0.box == box && !a0.expungeCalled;
    }
    Keyed.UpsertedContains(Opened(config, env, states), StateKey, stamped);
  }

  /** After a completed run the stored watermark is the maximum of the old one
      and every positive UID fetched, so it never goes down and covers every
      message seen. */
  lemma {:induction false} WatermarkAfterRun(config: ImapConfig, rules: seq<Rules.Rule>, env: Env, states: seq<State>, box: Snapshot)
    requires config.name.Some?
    ensures var a := Run(config, rules, env, states, box);
            var state := Refreshed(config, env, states);
            var range := Range(state.lastProcessedUid, env.uidNext);
            a.outcome.Processed? ==>
              a.outcome.lastSeen == MaxUid(state.lastProcessedUid, env.fetch(range.start, range.end))
              && state.lastProcessedUid <= a.outcome.lastSeen
              && state.(lastProcessedUid := a.outcome.lastSeen, updatedAtEpochMs := env.now) in a.states
  {
    var state := Refreshed(config, env, states);
    var range := Range(state.lastProcessedUid, env.uidNext);
    var ctx := RunCtx(config, rules, env, state);
    var msgs := env.fetch(range.start, range.end);
    var s0 := Scan(box, state.lastProcessedUid, false, false);
    StepsWatermark(ctx, s0, msgs);
    var scan := Steps(ctx, s0, msgs);
    Keyed.UpsertedContains(Opened(config, env, states), StateKey,
                       state.(lastProcessedUid := scan.lastSeen, updatedAtEpochMs := env.now));
  }

  /** `Folder.expunge()` itself is called only after a completed run in which
      SpamAssassin was on and the spam action deletes or moves. */
  lemma {:induction false} ExpungeCallOnlyAfterSpamRemoval(config: ImapConfig, rules: seq<Rules.Rule>, env: Env,
                                                           states: seq<State>, box: Snapshot)
    ensures var a := Run(config, rules, env, states, box);
            a.expungeCalled ==>
              a.outcome.Processed? && a.outcome.anyDeleted
              && config.useSpamAssassin && env.spamClientReady
              && config.spamAction in {Some(DELETE), Some(MOVE)}
  {
    if config.name.Some? {
      var state := Refreshed(config, env, states);
      var range := Range(state.lastProcessedUid, env.uidNext);
      StepsAnyDeleted(RunCtx(config, rules, env, state), Scan(box, state.lastProcessedUid, false, false),
                      env.fetch(range.start, range.end));
    }
  }

  /** Whatever way the run ends, closing the folder removes every message
      flagged DELETED, whoever flagged it: a spam action, a rule, or a client
      before the run. */
  lemma {:induction false} ClosedRemovesDeleted(config: ImapConfig, rules: seq<Rules.Rule>, env: Env,
                                                states: seq<State>, box: Snapshot)
    ensures var a := Run(config, rules, env, states, box);
            (forall u :: DELETED in FlagsOf(a.box, u) ==> u in a.box.expunged)
            && box.expunged <= a.box.expunged
  {
    if config.name.Some? {
      var state := Refreshed(config, env, states);
      var range := Range(state.lastProcessedUid, env.uidNext);
      StepsKeepExpunged(RunCtx(config, rules, env, state), Scan(box, state.lastProcessedUid, false, false),
                        env.fetch(range.start, range.end));
    }
  }

  /** With SpamAssassin off, a new message that a DELETE rule matches is gone
      once the run ends although `expunge()` is never called: the close
      removes it. */
  lemma {:induction false} RuleDeleteRemovedAtClose(config: ImapConfig, rules: seq<Rules.Rule>, env: Env,
                                                    states: seq<State>, box: Snapshot, m: Message, rule: Rules.Rule)
    requires config.name.Some? && !config.useSpamAssassin
    requires env.uidNext > 0
    requires Range(Refreshed(config, env, states).lastProcessedUid, env.uidNext).start < env.uidNext
    requires env.fetch(Range(Refreshed(config, env, states).lastProcessedUid, env.uidNext).start, env.uidNext - 1) == [m]
    requires m.uid > 0 && env.shouldProcess(Refreshed(config, env, states), m.uid, env.uidValidity)
    requires FirstMatch(rules, config.name.value, RuleEval(m.mail, env.render, env.find)) == Success(Some(rule))
    requires rule.actionType == AT.DELETE
    ensures var a := Run(config, rules, env, states, box);
            a.outcome.Processed? && !a.expungeCalled && m.uid in a.box.expunged
  {
    var state := Refreshed(config, env, states);
    var ctx := RunCtx(config, rules, env, state);
    var s0 := Scan(box, state.lastProcessedUid, false, false);
    assert [m][..0] == [];
    assert Steps(ctx, s0, [m]) == Step(ctx, s0, m);
    assert DELETED in FlagsOf(Step(ctx, s0, m).box, m.uid);
  }

  /** The message loop never expunges. */
  lemma {:induction false} StepsKeepExpunged(ctx: Ctx, s: Scan, msgs: seq<Message>)
    ensures Steps(ctx, s, msgs).box.expunged == s.box.expunged
    decreases |msgs|
  {
    if msgs != [] {
      StepsKeepExpunged(ctx, s, msgs[..|msgs| - 1]);
    }
  }

  /** An exception in the rule loop ends the run without storing a new
      watermark or calling `expunge()`; mail actions already taken stay taken,
      and closing the folder still expunges. */
  lemma {:induction false} AbortKeepsWatermark(config: ImapConfig, rules: seq<Rules.Rule>, env: Env, states: seq<State>, box: Snapshot)
    requires config.name.Some?
    ensures var a := Run(config, rules, env, states, box);
            a.outcome == Aborted ==> a.states == Opened(config, env, states) && !a.expungeCalled
  {
  }
}
