/**
  The JSON-file repositories. Each file's contents are a field of the
  repository object: reading the file is reading the field, and the atomic
  rewrite at the end of an operation is an assignment to it.
*/
module JsonDb {
  import opened Wrappers
  import opened JavaStrings
  import opened LangUtils
  import opened Accounts
  import Keyed
  import Rules
  import AT = ActionType
  import CO = ConditionOperator
  import CS = ConditionSubject

  // ---------------------------------------------------------------------------
  // StateStore: a map from "account:folder" to the folder's state
  // ---------------------------------------------------------------------------

  class StateStore {
    var file: map<string, State>

    constructor ()
      ensures file == map[]
    {
      file := map[];
    }

    /** `getOrDefault`: the stored state, or `def` when the key is absent. */
    method GetOrDefault(key: string, def: State) returns (r: State)
      ensures key in file ==> r == file[key]
      ensures key !in file ==> r == def
    {
      r := if key in file then file[key] else def;
    }

    /** `put`: file the state under its own key. */
    method Put(s: State)
      modifies this
      ensures file == old(file)[StateKey(s) := s]
    {
      file := file[StateKey(s) := s];
    }

    /** `putAll`: every entry of `m` replaces the stored one with its key. */
    method PutAll(m: map<string, State>)
      modifies this
      ensures file == old(file) + m
    {
      file := file + m;
    }

    /** `delete`: remove the key; the answer says whether it was there (and the
        file is rewritten only then). */
    method Delete(key: string) returns (removed: bool)
      modifies this
      ensures removed <==> key in old(file)
      ensures file == old(file) - {key}
      ensures !removed ==> file == old(file)
    {
      removed := key in file;
      if removed {
        file := file - {key};
      }
    }
  }

  // ---------------------------------------------------------------------------
  // ImapConfigRepository: a list of accounts keyed by name, ignoring case
  // ---------------------------------------------------------------------------

  /** `keyOf`: the name when it is non-empty, else `host:port:username`. */
  function ImapKeyOf(c: ImapConfig): string {
    if !Empty(c.name) then Nz(c.name) else Nz(c.host) + ":" + Nz(c.port) + ":" + Nz(c.username)
  }

  /** The key as `equalsIgnoreCase` compares it. */
  function FoldedKey(c: ImapConfig): string {
    ToLower(ImapKeyOf(c))
  }

  /** A named account is filed under its name. Two unnamed accounts whose host
      and port hold no colon have the same key exactly when host, port and
      user name agree (a `null` field reading as empty). */
  lemma {:induction false} ImapKeyOfUnnamed(a: ImapConfig, b: ImapConfig)
    ensures !Empty(a.name) ==> ImapKeyOf(a) == a.name.value
    ensures Empty(a.name) && Empty(b.name) && ':' !in Nz(a.host) + Nz(a.port) && ':' !in Nz(b.host) + Nz(b.port) ==>
              (ImapKeyOf(a) == ImapKeyOf(b) <==>
               Nz(a.host) == Nz(b.host) && Nz(a.port) == Nz(b.port) && Nz(a.username) == Nz(b.username))
  {
    if Empty(a.name) && Empty(b.name) && ':' !in Nz(a.host) + Nz(a.port) && ':' !in Nz(b.host) + Nz(b.port)
       && ImapKeyOf(a) == ImapKeyOf(b) {
      var ha, pa, ua := Nz(a.host), Nz(a.port), Nz(a.username);
      var hb, pb, ub := Nz(b.host), Nz(b.port), Nz(b.username);
      assert ':' !in ha && ':' !in pa && ':' !in hb && ':' !in pb by {
        assert forall x :: x in ha ==> x in ha + pa;
        assert forall x :: x in pa ==> x in ha + pa;
        assert forall x :: x in hb ==> x in hb + pb;
        assert forall x :: x in pb ==> x in hb + pb;
      }
      assert ImapKeyOf(a) == ha + [':'] + (pa + ":" + ua);
      assert ImapKeyOf(b) == hb + [':'] + (pb + ":" + ub);
      SplitAtSeparator(ha, pa + ":" + ua, hb, pb + ":" + ub, ':');
      assert pa + [':'] + ua == pb + [':'] + ub;
      SplitAtSeparator(pa, ua, pb, ub, ':');
    }
  }

  /** `indexOf`: the first position whose key equals `key` ignoring case. */
  method IndexOfConfig(list: seq<ImapConfig>, key: string) returns (i: int)
    ensures i == Keyed.FirstIndex(list, FoldedKey, ToLower(key))
  {
    i := 0;
    while i < |list|
      invariant 0 <= i <= |list|
      invariant forall j :: 0 <= j < i ==> FoldedKey(list[j]) != ToLower(key)
    {
      if EqualsIgnoreCase(ImapKeyOf(list[i]), key) {
        return;
      }
      i := i + 1;
    }
    i := -1;
  }

  class ImapConfigRepository {
    var file: seq<ImapConfig>

    constructor ()
      ensures file == []
    {
      file := [];
    }

    /** `upsert`: the account replaces the first one with its key (ignoring
        case), or is appended. */
    method Upsert(cfg: ImapConfig) returns (r: ImapConfig)
      modifies this
      ensures file == Keyed.Upserted(old(file), FoldedKey, cfg)
      ensures r == cfg
    {
      var idx := IndexOfConfig(file, ImapKeyOf(cfg));
      if idx >= 0 {
        file := file[idx := cfg];
      } else {
        file := file + [cfg];
      }
      r := cfg;
    }

    /** `delete`: remove every account whose key equals `nameOrKey` ignoring
        case; the answer says whether the list changed. */
    method Delete(nameOrKey: string) returns (removed: bool)
      modifies this
      ensures file == Keyed.Without(old(file), FoldedKey, ToLower(nameOrKey))
      ensures removed <==> Keyed.HasKey(old(file), FoldedKey, ToLower(nameOrKey))
    {
      var before := |file|;
      file := Keyed.Without(file, FoldedKey, ToLower(nameOrKey));
      removed := |file| != before;
    }

    /** `findByKey`: the first account whose key equals `nameOrKey` ignoring
        case, or `null`. */
    function FindByKey(nameOrKey: string): (r: Option<ImapConfig>)
      reads this
      ensures r.Some? ==> exists i :: 0 <= i < |file| && file[i] == r.value
                                      && EqualsIgnoreCase(ImapKeyOf(r.value), nameOrKey)
                                      && forall j :: 0 <= j < i ==> !EqualsIgnoreCase(ImapKeyOf(file[j]), nameOrKey)
      ensures r.None? ==> forall j :: 0 <= j < |file| ==> !EqualsIgnoreCase(ImapKeyOf(file[j]), nameOrKey)
    {
      Keyed.Find(file, FoldedKey, ToLower(nameOrKey))
    }
  }

  /** After an upsert the account is found under its own key; the list grows
      by at most one and no account with another key is touched. */
  lemma {:induction false} UpsertThenFind(file: seq<ImapConfig>, cfg: ImapConfig)
    ensures var after := Keyed.Upserted(file, FoldedKey, cfg);
            |file| <= |after| <= |file| + 1
            && Keyed.Find(after, FoldedKey, FoldedKey(cfg)).Some?
            && (forall j :: 0 <= j < |file| && FoldedKey(file[j]) != FoldedKey(cfg) ==> after[j] == file[j])
  {
    Keyed.UpsertedKeys(file, FoldedKey, cfg);
    var after := Keyed.Upserted(file, FoldedKey, cfg);
    var j :| 0 <= j < |after| && after[j] == cfg;
    assert FoldedKey(after[j]) == FoldedKey(cfg);
  }

  // ---------------------------------------------------------------------------
  // RuleRepository: a list of rules keyed by all seven fields
  // ---------------------------------------------------------------------------

  function BoolText(b: bool): string {
    if b then "true" else "false"
  }

  /** The seven fields of a rule's key, as `String.valueOf` prints them:
      account, action, operator, field, value, destination (`null` as empty)
      and case sensitivity. */
  function RuleFields(r: Rules.Rule): (f: seq<string>)
    ensures |f| == 7
  {
    [r.imapConfigName, AT.Name(r.actionType), CO.Name(r.conditionOperator), CS.Name(r.conditionSubject),
     r.conditionValue, Nz(r.destValue), BoolText(r.caseSensitive)]
  }

  /** `keyOf`: the seven fields joined by `|`. */
  function RuleKey(r: Rules.Rule): string {
    Join(RuleFields(r), "|")
  }

  /** The text fields a rule key is built from hold no `|`. */
  predicate PlainFields(r: Rules.Rule) {
    '|' !in r.imapConfigName && '|' !in r.conditionValue && '|' !in Nz(r.destValue)
  }

  lemma {:induction false} ActionNameIsPlain(a: AT.Action)
    ensures '|' !in AT.Name(a)
  {
  }

  lemma {:induction false} OperatorNameIsPlain(op: CO.Operator)
    ensures '|' !in CO.Name(op)
  {
  }

  lemma {:induction false} SubjectNameIsPlain(f: CS.Subject)
    ensures '|' !in CS.Name(f)
  {
  }

  /** No field of a rule with plain text fields holds a `|`. */
  lemma {:induction false} FieldsArePlain(r: Rules.Rule)
    requires PlainFields(r)
    ensures forall i :: 0 <= i < |RuleFields(r)| ==> '|' !in RuleFields(r)[i]
  {
    ActionNameIsPlain(r.actionType);
    OperatorNameIsPlain(r.conditionOperator);
    SubjectNameIsPlain(r.conditionSubject);
    assert '|' !in BoolText(r.caseSensitive);
  }

  /** The enum names and the flag text are told apart by their spelling. */
  lemma {:induction false} NamesIdentify(a: Rules.Rule, b: Rules.Rule)
    requires RuleFields(a) == RuleFields(b)
    ensures a.actionType == b.actionType && a.conditionOperator == b.conditionOperator
    ensures a.conditionSubject == b.conditionSubject && a.caseSensitive == b.caseSensitive
  {
    assert AT.Name(a.actionType) == RuleFields(a)[1] == AT.Name(b.actionType);
    assert CO.Name(a.conditionOperator) == RuleFields(a)[2] == CO.Name(b.conditionOperator);
    assert CS.Name(a.conditionSubject) == RuleFields(a)[3] == CS.Name(b.conditionSubject);
    assert BoolText(a.caseSensitive) == RuleFields(a)[6] == BoolText(b.caseSensitive);
    AT.ParseName(a.actionType);
    AT.ParseName(b.actionType);
    CO.ParseName(a.conditionOperator);
    CO.ParseName(b.conditionOperator);
    CS.ParseName(a.conditionSubject);
    CS.ParseName(b.conditionSubject);
  }

  /** With no `|` inside the text fields, two rules share a key exactly when
      they agree on all seven fields (a `null` destination and an empty one
      being the same). So the repository tells apart rules that `equals`
      calls equal. */
  lemma {:induction false} RuleKeyIdentifies(a: Rules.Rule, b: Rules.Rule)
    requires PlainFields(a) && PlainFields(b)
    ensures RuleKey(a) == RuleKey(b) <==> a.(destValue := Some(Nz(a.destValue))) == b.(destValue := Some(Nz(b.destValue)))
  {
    if RuleKey(a) == RuleKey(b) {
      FieldsArePlain(a);
      FieldsArePlain(b);
      JoinIdentifies(RuleFields(a), RuleFields(b), '|');
      NamesIdentify(a, b);
      assert a.imapConfigName == RuleFields(a)[0] == b.imapConfigName;
      assert a.conditionValue == RuleFields(a)[4] == b.conditionValue;
      assert Nz(a.destValue) == RuleFields(a)[5] == Nz(b.destValue);
    }
  }

  /** Rules with one key are equal in the sense of `equals`. */
  lemma {:induction false} SameKeySameRule(a: Rules.Rule, b: Rules.Rule)
    requires PlainFields(a) && PlainFields(b) && RuleKey(a) == RuleKey(b)
    ensures Rules.SameRule(a, b)
  {
    RuleKeyIdentifies(a, b);
  }

  /** `indexOf`: the first position whose key equals `key` exactly. */
  method IndexOfRule(list: seq<Rules.Rule>, key: string) returns (i: int)
    ensures i == Keyed.FirstIndex(list, RuleKey, key)
  {
    i := 0;
    while i < |list|
      invariant 0 <= i <= |list|
      invariant forall j :: 0 <= j < i ==> RuleKey(list[j]) != key
    {
      if RuleKey(list[i]) == key {
        return;
      }
      i := i + 1;
    }
    i := -1;
  }

  /** What `upsertAll` writes: the stored rules and then the incoming ones put
      one by one into a `LinkedHashMap` keyed by `keyOf`, in the map's order. */
  function Merged(stored: seq<Rules.Rule>, incoming: seq<Rules.Rule>): seq<Rules.Rule> {
    Keyed.PutAll(Keyed.PutAll([], stored, RuleKey), incoming, RuleKey)
  }

  class RuleRepository {
    var file: seq<Rules.Rule>

    constructor ()
      ensures file == []
    {
      file := [];
    }

    /** `upsert`: the rule replaces the one with its key, or is appended. */
    method Upsert(r: Rules.Rule) returns (res: Rules.Rule)
      modifies this
      ensures file == Keyed.Upserted(old(file), RuleKey, r)
      ensures res == r
    {
      var idx := IndexOfRule(file, RuleKey(r));
      if idx >= 0 {
        file := file[idx := r];
      } else {
        file := file + [r];
      }
      res := r;
    }

    /** `upsertAll`: merge the incoming rules into the stored ones by key and
        answer how many rules came in. */
    method UpsertAll(rules: seq<Rules.Rule>) returns (count: int)
      modifies this
      ensures file == Merged(old(file), rules)
      ensures count == |rules|
    {
      var stored := file;
      var merged: seq<Rules.Rule> := [];
      var i := 0;
      while i < |stored|
        invariant 0 <= i <= |stored|
        invariant merged == Keyed.PutAll([], stored[..i], RuleKey)
      {
        Keyed.PutAllSnoc([], stored, RuleKey, i);
        merged := Keyed.Upserted(merged, RuleKey, stored[i]);
        i := i + 1;
      }
      assert stored[..i] == stored;
      var base := merged;
      i := 0;
      while i < |rules|
        invariant 0 <= i <= |rules|
        invariant merged == Keyed.PutAll(base, rules[..i], RuleKey)
      {
        Keyed.PutAllSnoc(base, rules, RuleKey, i);
        merged := Keyed.Upserted(merged, RuleKey, rules[i]);
        i := i + 1;
      }
      assert rules[..i] == rules;
      file := merged;
      count := |rules|;
    }

    /** `deleteByKey`: remove every rule whose key equals `key`; the answer
        says whether the list changed. */
    method DeleteByKey(key: string) returns (removed: bool)
      modifies this
      ensures file == Keyed.Without(old(file), RuleKey, key)
      ensures removed <==> Keyed.HasKey(old(file), RuleKey, key)
    {
      var before := |file|;
      file := Keyed.Without(file, RuleKey, key);
      removed := |file| != before;
    }
  }

  /** The merged list has one rule per key, and its keys are those stored and
      those incoming; it is no longer than both together. Where each key sits
      is `Keyed.PutAllKeepsPositions`. */
  lemma {:induction false} MergedProperties(stored: seq<Rules.Rule>, incoming: seq<Rules.Rule>)
    ensures var m := Merged(stored, incoming);
            Keyed.DistinctKeys(m, RuleKey)
            && Keyed.Keys(m, RuleKey) == Keyed.Keys(stored, RuleKey) + Keyed.Keys(incoming, RuleKey)
            && |m| <= |stored| + |incoming|
  {
    var base := Keyed.PutAll([], stored, RuleKey);
    Keyed.PutAllKeys([], stored, RuleKey);
    Keyed.PutAllKeys(base, incoming, RuleKey);
    Keyed.PutAllDistinct([], stored, RuleKey);
    Keyed.PutAllDistinct(base, incoming, RuleKey);
    assert Keyed.Keys([], RuleKey) == {};
    MergedLength([], stored);
    MergedLength(base, incoming);
  }

  /** The last incoming rule with a key is the one kept. */
  lemma {:induction false} MergedLastWins(stored: seq<Rules.Rule>, incoming: seq<Rules.Rule>, i: nat)
    requires i < |incoming|
    requires forall j :: i < j < |incoming| ==> RuleKey(incoming[j]) != RuleKey(incoming[i])
    ensures incoming[i] in Merged(stored, incoming)
  {
    Keyed.PutAllLastWins(Keyed.PutAll([], stored, RuleKey), incoming, RuleKey, i);
  }

  lemma {:induction false} MergedLength(acc: seq<Rules.Rule>, ys: seq<Rules.Rule>)
    ensures |Keyed.PutAll(acc, ys, RuleKey)| <= |acc| + |ys|
    decreases |ys|
  {
    if ys != [] {
      MergedLength(acc, ys[..|ys| - 1]);
    }
  }

  /** A deleted key is gone, every rule with another key stays, and the answer
      is whether the key was present. */
  lemma {:induction false} DeleteByKeyRemovesKey(file: seq<Rules.Rule>, key: string)
    ensures var after := Keyed.Without(file, RuleKey, key);
            !Keyed.HasKey(after, RuleKey, key)
            && (forall j :: 0 <= j < |file| && RuleKey(file[j]) != key ==> file[j] in after)
            && (|after| != |file| <==> Keyed.HasKey(file, RuleKey, key))
  {
  }
}
