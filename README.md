# mailmanager — a Dafny model of the mail-processing core

mailmanager is a small IMAP automation tool. For every configured IMAP account
it opens the inbox and fetches the messages whose UID lies above the
account's stored watermark. When SpamAssassin is enabled it asks spamd for
a verdict and deletes, moves or marks spam as read. Otherwise it runs the
account's rules in order: the first rule whose condition matches applies its
action (move, copy, delete, forward, ...). Then it stores the new watermark
in a JSON "state" file and calls `expunge()` when spam was deleted or moved.
Closing the folder expunges as well, whichever way the run ends.
Rules and accounts are also kept in JSON files.

This project models that core in Dafny and proves properties of the model:

| file | models |
|---|---|
| `Wrappers.dfy` | `Option` / `Result` (Java `null` and exceptions) |
| `JavaStrings.dfy` | the `java.lang.String` operations the core uses (`trim`, `isBlank`, `toLowerCase`, `split`, `String.join`, `Integer.parseInt` over ASCII digits, `replace`, US-ASCII coding) |
| `LangUtils.dfy` | `helpers/LangUtils` |
| `ActionType.dfy`, `ConditionOperator.dfy`, `ConditionSubject.dfy` | the rule enums, their `parse` alias tables and `ConditionOperator.test` |
| `Mailbox.dfy` | the mail store as the rules touch it: a `Mailbox` class whose methods set flags, copy, move, expunge and close the folder |
| `Rules.dfy` | `model/Rule`: equality, `catAddresses`, `getValueToCheck`, `evaluate`, `apply` |
| `Keyed.dfy` | the keyed-list operations shared by the repositories and the state table (`indexOf`, replace-or-append, remove-if) |
| `Accounts.dfy` | the account and state records and their keys |
| `JsonDb.dfy` | `StateStore`, `ImapConfigRepository`, `RuleRepository`, each a class whose field is the file's contents |
| `MailText.dfy` | `MailTextExtractor` and `MailUtils` text extraction, one model with a `Flavor` for the two variants |
| `MailUtils.dfy` | `readLineCRLF`, `splitLabels`, `resolveArchiveName`, charset detection, the image/* skipping rule |
| `SpamAssassin.dfy` | `SpamAssassinClient`: request encoding, response parsing, `check` / `symbols` |
| `MailManager.dfy` | `MailManager`: pool size, the state table, and `processEmails` |

An exception thrown inside the message loop, outside the spam check, ends
the whole account run: `processEmails` catches it outside the loop, at
MailManager.java:402-404. In the model that exception is the one a REGEX rule
with a bad pattern raises while it is evaluated. The run then saves no new
watermark and does not call `expunge()` (`MailManager.AbortKeepsWatermark`).

The inbox is declared `@Cleanup` (MailManager.java:225), so it is closed with
`Folder.close()`, which is `close(true)`, on every way out once it is open.
That close expunges every message flagged DELETED, also after a rule DELETE
and after an aborted run (`MailManager.ClosedRemovesDeleted`,
`MailManager.RuleDeleteRemovedAtClose`). The explicit `expunge()` at
MailManager.java:397-400 is recorded apart as `expungeCalled`.

Stateful code is modelled imperatively:
- The repositories, the state table and the mailbox are classes. Their
  methods carry `modifies` clauses.
- Each method is tied to a specification function: `Keyed.Upserted`,
  `Keyed.Without`, `JsonDb.Merged`, `MailManager.Steps`, `MailManager.Run`,
  `Rules.Applied`, `SpamAssassin.ParseResponse`, `MailText.AlternativeText`.
  The lemmas prove what the source promises about that function.
- The loops of the source (the message loop, the response reader, the
  address buffer, the alternative scan) are `while` loops with invariants.

## Model

| member | source | states |
|---|---|---|
| `ActionType.Parse` | src/main/java/org/danilorossi/mailmanager/model/ActionType.java:22-23 | a null text parses to no action |
| `ActionType.FromKeySpellings` | src/main/java/org/danilorossi/mailmanager/model/ActionType.java:25-38 | the alias switch maps a key to an action exactly when the key is one of that action's spellings |
| `ActionType.ParseSpellings` | src/main/java/org/danilorossi/mailmanager/model/ActionType.java:22-39 | `parse(s)` is action `a` if and only if `s` trimmed and upper-cased is one of `a`'s spellings |
| `ActionType.ParseUnknown` | src/main/java/org/danilorossi/mailmanager/model/ActionType.java:37 | a text matching no spelling parses to null |
| `ActionType.ParseName` | src/main/java/org/danilorossi/mailmanager/model/ActionType.java:22-39 | every constant's name, in upper or lower case, parses back to that constant |
| `ActionType.ParseKey` | src/main/java/org/danilorossi/mailmanager/model/ActionType.java:22-39 | a key the switch accepts is parsed to its action in either case |
| `ActionType.ParseIgnoresCase` | src/main/java/org/danilorossi/mailmanager/model/ActionType.java:22-39 | parsing does not depend on letter case |
| `ConditionOperator.Parse` | src/main/java/org/danilorossi/mailmanager/model/ConditionOperator.java:19-20 | a null text parses to no operator |
| `ConditionOperator.FromKeySpellings` | src/main/java/org/danilorossi/mailmanager/model/ConditionOperator.java:22-31 | the alias switch maps a key to an operator exactly when the key is one of its spellings |
| `ConditionOperator.ParseSpellings` | src/main/java/org/danilorossi/mailmanager/model/ConditionOperator.java:19-32 | `parse(s)` is `op` if and only if `s` trimmed and upper-cased is one of `op`'s spellings |
| `ConditionOperator.ParseUnknown` | src/main/java/org/danilorossi/mailmanager/model/ConditionOperator.java:30 | an unknown text parses to null |
| `ConditionOperator.ParseName` | src/main/java/org/danilorossi/mailmanager/model/ConditionOperator.java:19-32 | every constant's name, in upper or lower case, parses back to the constant |
| `ConditionOperator.ParseKey` | src/main/java/org/danilorossi/mailmanager/model/ConditionOperator.java:19-32 | an accepted key parses to its operator in either case |
| `ConditionOperator.ParseIgnoresCase` | src/main/java/org/danilorossi/mailmanager/model/ConditionOperator.java:19-32 | parsing does not depend on letter case |
| `ConditionOperator.Test` | src/main/java/org/danilorossi/mailmanager/model/ConditionOperator.java:35-53 | every operator but REGEX yields a verdict; REGEX yields one exactly when the pattern compiles (the regex engine is a parameter) |
| `ConditionOperator.TestNegations` | src/main/java/org/danilorossi/mailmanager/model/ConditionOperator.java:42-45 | NOT_EQUALS is the negation of EQUALS and NOT_CONTAINS that of CONTAINS, on every input |
| `ConditionOperator.TestNullIsEmpty` | src/main/java/org/danilorossi/mailmanager/model/ConditionOperator.java:36-37 | a null left or right side is tested as the empty string |
| `ConditionOperator.TestCaseInsensitive` | src/main/java/org/danilorossi/mailmanager/model/ConditionOperator.java:38-39 | without case sensitivity, lower-casing the left side does not change the verdict |
| `ConditionOperator.TestLowerRight` | src/main/java/org/danilorossi/mailmanager/model/ConditionOperator.java:38-39 | without case sensitivity, lower-casing the right side does not change the verdict |
| `ConditionOperator.TestContainsOccurs` | src/main/java/org/danilorossi/mailmanager/model/ConditionOperator.java:44 | CONTAINS holds exactly when the (case-folded) right side occurs at some position of the left side |
| `ConditionOperator.TestOrdering` | src/main/java/org/danilorossi/mailmanager/model/ConditionOperator.java:41-52 | EQUALS implies STARTS_WITH and ENDS_WITH, each of which implies CONTAINS; an empty right side satisfies all three |
| `ConditionSubject.Parse` | src/main/java/org/danilorossi/mailmanager/model/ConditionSubject.java:17-18 | a null text parses to no subject |
| `ConditionSubject.FromKeySpellings` | src/main/java/org/danilorossi/mailmanager/model/ConditionSubject.java:20-28 | the alias switch maps a key to a subject exactly when the key is one of its spellings |
| `ConditionSubject.ParseSpellings` | src/main/java/org/danilorossi/mailmanager/model/ConditionSubject.java:17-29 | `parse(s)` is `f` if and only if `s` trimmed and upper-cased is one of `f`'s spellings |
| `ConditionSubject.ParseUnknown` | src/main/java/org/danilorossi/mailmanager/model/ConditionSubject.java:27 | an unknown text parses to null |
| `ConditionSubject.ParseName` | src/main/java/org/danilorossi/mailmanager/model/ConditionSubject.java:17-29 | every constant's name, in upper or lower case, parses back to the constant |
| `ConditionSubject.ParseKey` | src/main/java/org/danilorossi/mailmanager/model/ConditionSubject.java:17-29 | an accepted key parses to its subject in either case |
| `ConditionSubject.ParseIgnoresCase` | src/main/java/org/danilorossi/mailmanager/model/ConditionSubject.java:17-29 | parsing does not depend on letter case |
| `LangUtils.IsPositiveInt` | src/main/java/org/danilorossi/mailmanager/helpers/LangUtils.java:11-17 | true if and only if the trimmed text is a 32-bit integer greater than zero |
| `LangUtils.IsPositiveIntOfPrinted` | src/main/java/org/danilorossi/mailmanager/helpers/LangUtils.java:11-17 | a printed `int` is accepted exactly when it is positive |
| `LangUtils.NullToSomething` | src/main/java/org/danilorossi/mailmanager/helpers/LangUtils.java:23-25 | as written: null gives `""` and any non-null text gives the default (see Findings) |
| `LangUtils.NullToEmptyErasesText` | src/main/java/org/danilorossi/mailmanager/helpers/LangUtils.java:19-25 | as written, `nullToEmpty` turns every non-empty text into `""` |
| `LangUtils.NullToSomethingIntended` | src/main/java/org/danilorossi/mailmanager/helpers/LangUtils.java:23-25 | corrected: a non-null text is kept, null gives the default |
| `LangUtils.NullToEmptyIntended` | src/main/java/org/danilorossi/mailmanager/helpers/LangUtils.java:19-21 | corrected `nullToEmpty` keeps text and maps null to `""`, and differs from the code as written on every non-empty text |
| `LangUtils.ParseIntOr` | src/main/java/org/danilorossi/mailmanager/helpers/LangUtils.java:27-33 | null gives the default; a trimmed text that parses as an `int` gives its value; anything else gives the default |
| `LangUtils.ParseIntOrOfPrinted` | src/main/java/org/danilorossi/mailmanager/helpers/LangUtils.java:27-33 | a printed `int` with space padding on both sides reads back as itself |
| `LangUtils.EmptyImpliesEmptyString` | src/main/java/org/danilorossi/mailmanager/helpers/LangUtils.java:35-37 | a null or zero-length text is blank, and a blank text need not be empty |
| `LangUtils.Normalize` | src/main/java/org/danilorossi/mailmanager/helpers/LangUtils.java:39-41 | null gives `""`; otherwise the result is the slice of the input with nothing at most U+0020 at its ends, and every char cut off on either side is at most U+0020 |
| `LangUtils.NormalizeIdempotent` | src/main/java/org/danilorossi/mailmanager/helpers/LangUtils.java:39-41 | normalizing twice is normalizing once |
| `JavaStrings.TrimUnique` | src/main/java/org/danilorossi/mailmanager/helpers/LangUtils.java:39-41 | any slice of the text with nothing trimmable at its ends and only chars at most U+0020 cut off is the trim, so the contract of `trim` fixes its result |
| `LangUtils.S` | src/main/java/org/danilorossi/mailmanager/helpers/LangUtils.java:53-54 | with no values: null gives `""`; otherwise the result is the format trimmed, only chars at most U+0020 cut off, and a trimmed format comes back unchanged |
| `LangUtils.SIdempotent` | src/main/java/org/danilorossi/mailmanager/helpers/LangUtils.java:53-54 | formatting an already formatted text with no values gives it back |
| `LangUtils.ExMsg` | src/main/java/org/danilorossi/mailmanager/helpers/LangUtils.java:43-45 | a blank or null message gives `toString()`, otherwise the message |
| `LangUtils.RootCauseIsInnermost` | src/main/java/org/danilorossi/mailmanager/helpers/LangUtils.java:47-51 | `rootCauseMsg` reports the message of the last throwable of the cause chain, which has no cause |
| `Mailbox.Flagged` | src/main/java/org/danilorossi/mailmanager/model/Rule.java:88-92 | setting a flag adds it to that message's flags and changes nothing else |
| `Mailbox.Copied` | src/main/java/org/danilorossi/mailmanager/model/Rule.java:72-86 | copying appends the message to the target folder only |
| `Mailbox.MovedOut` | src/main/java/org/danilorossi/mailmanager/model/Rule.java:48-70 | a server-side move copies the message to the target and records it as moved away |
| `Mailbox.Mailbox.constructor` | src/main/java/org/danilorossi/mailmanager/MailManager.java:221-226 | an opened store has the given folders, all empty, no flags, nothing moved or expunged, and no `expunge()` call yet |
| `Mailbox.Mailbox.SetFlag` | src/main/java/org/danilorossi/mailmanager/model/Rule.java:88-92 | the new state is `Flagged` of the old one |
| `Mailbox.Mailbox.CopyMessage` | src/main/java/org/danilorossi/mailmanager/model/Rule.java:72-86 | the new state is `Copied` of the old one |
| `Mailbox.Mailbox.MoveMessage` | src/main/java/org/danilorossi/mailmanager/model/Rule.java:48-70 | the new state is `MovedOut` of the old one |
| `Mailbox.Mailbox.Expunge` | src/main/java/org/danilorossi/mailmanager/MailManager.java:397-400 | the new state is `Expunged` of the old one, and the call is recorded |
| `Mailbox.Mailbox.Close` | src/main/java/org/danilorossi/mailmanager/MailManager.java:225-226 | closing the folder (`close(true)`) leaves the state `Expunged` of the old one, without recording an `expunge()` call |
| `Mailbox.Expunged` | src/main/java/org/danilorossi/mailmanager/MailManager.java:397-400 | a message is expunged afterwards exactly when it was before or it carries DELETED; folders, flags and moves are unchanged |
| `Mailbox.ExpungedIdempotent` | src/main/java/org/danilorossi/mailmanager/MailManager.java:396-400 | expunging again after an expunge (the close after `expunge()`) removes nothing more |
| `Rules.SameRuleIgnoresPayload` | src/main/java/org/danilorossi/mailmanager/model/Rule.java:16-33 | two rules that differ only in value, destination or case sensitivity are equal |
| `Rules.NonNull` | src/main/java/org/danilorossi/mailmanager/model/Rule.java:148-149 | the null entries of an address array are dropped |
| `Rules.BuildAddressList` | src/main/java/org/danilorossi/mailmanager/model/Rule.java:145-152 | the buffer loop computes `catAddresses` |
| `Rules.BufferedIsJoined` | src/main/java/org/danilorossi/mailmanager/model/Rule.java:147-150 | the buffer is the non-null addresses joined by spaces, plus one trailing space |
| `Rules.CatAddressesJoins` | src/main/java/org/danilorossi/mailmanager/model/Rule.java:145-152 | `catAddresses` is `""` for a null array, else the trimmed space-join of its non-null entries |
| `Rules.ValueToCheck` | src/main/java/org/danilorossi/mailmanager/model/Rule.java:120-142 | every subject but SUBJECT yields a text; a non-text, non-multipart MESSAGE body yields `""`; a multipart body yields at most 200000 chars |
| `Rules.Evaluate` | src/main/java/org/danilorossi/mailmanager/model/Rule.java:96-101 | every operator but REGEX yields a verdict |
| `Rules.EvaluateNullSubject` | src/main/java/org/danilorossi/mailmanager/model/Rule.java:96-101 | a missing Subject header is matched as the empty subject |
| `Rules.EvaluateIgnoresPadding` | src/main/java/org/danilorossi/mailmanager/model/Rule.java:96-101 | whitespace around the rule's value does not change the verdict |
| `Rules.EvaluateCaseInsensitive` | src/main/java/org/danilorossi/mailmanager/model/Rule.java:96-101 | for a case-insensitive rule, lower-casing its value does not change the verdict |
| `Rules.Applied` | src/main/java/org/danilorossi/mailmanager/model/Rule.java:41-94 | actions other than MOVE, COPY and DELETE leave the store alone; MOVE or COPY without a destination, or to a missing folder, change nothing; COPY keeps all flags; DELETE adds only the DELETED flag to the one message; no folder is created |
| `Rules.MoveIsCopyThenRemove` | src/main/java/org/danilorossi/mailmanager/model/Rule.java:48-70 | a MOVE delivers the same copy as a COPY, and then either moves the message on the server or flags it DELETED |
| `Rules.Apply` | src/main/java/org/danilorossi/mailmanager/model/Rule.java:41-94 | the store after the action is `Applied` of the store before, and the folder is not expunged |
| `Keyed.FirstIndex` | src/main/java/org/danilorossi/mailmanager/db/JsonDb.java:271-274 | the first position whose key matches, or -1 when no key matches |
| `Keyed.Find` | src/main/java/org/danilorossi/mailmanager/db/JsonDb.java:248-254 | finds an element exactly when one has the key, and what it finds is the first element with that key |
| `Keyed.Upserted` | src/main/java/org/danilorossi/mailmanager/db/JsonDb.java:304-313 | an element with the same key is replaced at the first such position; otherwise the new one is appended |
| `Keyed.Without` | src/main/java/org/danilorossi/mailmanager/db/JsonDb.java:333-343 | the result is the elements without the key, in order and with repeats: the element kept at position j stands at its rank, the number of kept elements before j; the length changes if and only if the key was present |
| `Keyed.UpsertedKeys` | src/main/java/org/danilorossi/mailmanager/db/JsonDb.java:304-313 | after an upsert the key set gains the new key, positions keep their keys, and unrelated elements are unchanged |
| `Keyed.UpsertedDistinct` | src/main/java/org/danilorossi/mailmanager/db/JsonDb.java:304-313 | an upsert keeps keys distinct |
| `Keyed.PutAllKeys` | src/main/java/org/danilorossi/mailmanager/db/JsonDb.java:317-325 | upserting a list yields the union of the old and the new key sets and never shortens the file |
| `Keyed.PutAllKeepsPositions` | src/main/java/org/danilorossi/mailmanager/db/JsonDb.java:317-325 | upserting a list keeps every old position's key, and old elements whose key is not upserted stay as they were |
| `Keyed.PutAllDistinct` | src/main/java/org/danilorossi/mailmanager/db/JsonDb.java:317-325 | upserting a list keeps keys distinct |
| `Keyed.PutAllLastWins` | src/main/java/org/danilorossi/mailmanager/db/JsonDb.java:317-325 | the last incoming element with a given key is the one stored |
| `JsonDb.StateStore.constructor` | src/main/java/org/danilorossi/mailmanager/db/JsonDb.java:157-160 | a new store holds no state |
| `JsonDb.StateStore.GetOrDefault` | src/main/java/org/danilorossi/mailmanager/db/JsonDb.java:163-166 | the stored state for the key, or the default when there is none |
| `JsonDb.StateStore.Put` | src/main/java/org/danilorossi/mailmanager/db/JsonDb.java:169-173 | the state is stored under its own key and nothing else changes |
| `JsonDb.StateStore.PutAll` | src/main/java/org/danilorossi/mailmanager/db/JsonDb.java:176-180 | every given entry overrides the stored one; other entries stay |
| `JsonDb.StateStore.Delete` | src/main/java/org/danilorossi/mailmanager/db/JsonDb.java:183-190 | reports true exactly when the key was present, and removes only that key |
| `JsonDb.ImapKeyOfUnnamed` | src/main/java/org/danilorossi/mailmanager/db/JsonDb.java:262-269 | a named account is keyed by its name; two unnamed accounts whose host and port hold no colon share a key exactly when host, port and user agree |
| `JsonDb.IndexOfConfig` | src/main/java/org/danilorossi/mailmanager/db/JsonDb.java:271-274 | the loop finds the first account whose key equals the given one ignoring case |
| `JsonDb.ImapConfigRepository.constructor` | src/main/java/org/danilorossi/mailmanager/db/JsonDb.java:205-208 | a new repository holds no account |
| `JsonDb.ImapConfigRepository.Upsert` | src/main/java/org/danilorossi/mailmanager/db/JsonDb.java:212-228 | the file is the upsert of the account by its case-folded key, and the account is returned |
| `JsonDb.ImapConfigRepository.Delete` | src/main/java/org/danilorossi/mailmanager/db/JsonDb.java:232-244 | the list becomes the accounts without the key, in their order (`Keyed.Without`), and the result says whether there was one |
| `JsonDb.ImapConfigRepository.FindByKey` | src/main/java/org/danilorossi/mailmanager/db/JsonDb.java:248-254 | finds the first stored account whose key equals the text ignoring case, and finds none only when no account has such a key |
| `JsonDb.UpsertThenFind` | src/main/java/org/danilorossi/mailmanager/db/JsonDb.java:212-254 | after an upsert the account is found by its key, and accounts with other keys are untouched |
| `JsonDb.RuleFields` | src/main/java/org/danilorossi/mailmanager/db/JsonDb.java:350-360 | a rule's key is built from seven fields |
| `JsonDb.FieldsArePlain` | src/main/java/org/danilorossi/mailmanager/db/JsonDb.java:350-360 | no key field contains the `|` separator when the free-text fields do not |
| `JsonDb.NamesIdentify` | src/main/java/org/danilorossi/mailmanager/db/JsonDb.java:350-360 | equal key fields mean equal action, operator, subject and case sensitivity |
| `JsonDb.RuleKeyIdentifies` | src/main/java/org/danilorossi/mailmanager/db/JsonDb.java:350-360 | two rules have the same key if and only if they agree on every field, a null destination counting as `""` |
| `JsonDb.SameKeySameRule` | src/main/java/org/danilorossi/mailmanager/db/JsonDb.java:350-360 | rules with the same key are equal as rules |
| `JsonDb.IndexOfRule` | src/main/java/org/danilorossi/mailmanager/db/JsonDb.java:362-365 | the loop finds the first rule with the given key |
| `JsonDb.RuleRepository.constructor` | src/main/java/org/danilorossi/mailmanager/db/JsonDb.java:289-292 | a new repository holds no rule |
| `JsonDb.RuleRepository.Upsert` | src/main/java/org/danilorossi/mailmanager/db/JsonDb.java:304-313 | the file is the upsert of the rule by its key, and the rule is returned |
| `JsonDb.RuleRepository.UpsertAll` | src/main/java/org/danilorossi/mailmanager/db/JsonDb.java:317-325 | the file is the stored rules with every incoming rule upserted in order, and the count is the number of incoming rules |
| `JsonDb.RuleRepository.DeleteByKey` | src/main/java/org/danilorossi/mailmanager/db/JsonDb.java:333-343 | every rule with the key is removed, and the result says whether there was one |
| `JsonDb.MergedProperties` | src/main/java/org/danilorossi/mailmanager/db/JsonDb.java:317-325 | after `upsertAll` the keys are the old keys plus the incoming ones, and the file grows by at most the number of incoming rules |
| `JsonDb.MergedLastWins` | src/main/java/org/danilorossi/mailmanager/db/JsonDb.java:317-325 | the last incoming rule with a given key is the one kept |
| `JsonDb.DeleteByKeyRemovesKey` | src/main/java/org/danilorossi/mailmanager/db/JsonDb.java:333-343 | rules with other keys survive, and the file shrinks if and only if the key was present |
| `MailManager.MaxThreads` | src/main/java/org/danilorossi/mailmanager/MailManager.java:170-175 | as written: 1 in dev mode, otherwise at most 8 and at most the account count, at least 1 when there are accounts (see Findings) |
| `MailManager.MaxThreadsZeroWithoutAccounts` | src/main/java/org/danilorossi/mailmanager/MailManager.java:170-175 | as written, with no accounts outside dev mode the pool size is 0 |
| `MailManager.ThreadPoolSize` | src/main/java/org/danilorossi/mailmanager/MailManager.java:170-175 | corrected: always between 1 and 8, 1 in dev mode, equal to the written formula whenever there are accounts |
| `MailManager.Range` | src/main/java/org/danilorossi/mailmanager/MailManager.java:254-267 | a UID is in the fetched range if and only if it is above the watermark (or at least 1) and below UIDNEXT |
| `MailManager.GetOrCreate` | src/main/java/org/danilorossi/mailmanager/MailManager.java:193-209 | the returned state is the one the table holds for the account and folder; an existing one is returned as is, otherwise a fresh one is appended and the rest of the table is kept |
| `MailManager.Manager.constructor` | src/main/java/org/danilorossi/mailmanager/MailManager.java:151-167 | the manager starts from the loaded state table |
| `MailManager.Manager.GetOrCreateState` | src/main/java/org/danilorossi/mailmanager/MailManager.java:193-209 | the state and the new table are those of `GetOrCreate` |
| `MailManager.Manager.ReplaceState` | src/main/java/org/danilorossi/mailmanager/MailManager.java:407-417 | the table is the upsert of the state by its account and folder key |
| `MailManager.FirstMatchChosen` | src/main/java/org/danilorossi/mailmanager/MailManager.java:373-381 | a chosen rule belongs to the account, matches, and no earlier rule of the account matched |
| `MailManager.FirstMatchNone` | src/main/java/org/danilorossi/mailmanager/MailManager.java:373-381 | when no rule is chosen, no rule of the account matched |
| `MailManager.FirstMatchFailure` | src/main/java/org/danilorossi/mailmanager/MailManager.java:373-381 | an evaluation error comes from a rule of the account that no earlier matching rule precedes |
| `MailManager.OtherAccountsIgnored` | src/main/java/org/danilorossi/mailmanager/MailManager.java:374 | rules of other accounts do not affect which rule is chosen |
| `MailManager.MatchRule` | src/main/java/org/danilorossi/mailmanager/MailManager.java:373-381 | the rule loop returns `FirstMatch` |
| `MailManager.SpamActed` | src/main/java/org/danilorossi/mailmanager/MailManager.java:328-362 | the message counts as deleted if and only if the action is DELETE, or MOVE with the spam folder available; a deleted message carries DELETED; otherwise it is marked SEEN and no folder changes; other messages are untouched |
| `MailManager.HandleSpam` | src/main/java/org/danilorossi/mailmanager/MailManager.java:328-362 | the store and the deleted flag are those of `SpamActed` |
| `MailManager.MaxUid` | src/main/java/org/danilorossi/mailmanager/MailManager.java:363-384 | the watermark is at least the old one, covers every positive UID seen, and is one of them or the old one |
| `MailManager.StepsWatermark` | src/main/java/org/danilorossi/mailmanager/MailManager.java:308-388 | a completed message loop ends with the maximum of the old watermark and all positive UIDs |
| `MailManager.StepsAnyDeleted` | src/main/java/org/danilorossi/mailmanager/MailManager.java:329-356 | `anyDeleted` is set only by the SpamAssassin branch with a DELETE or MOVE action |
| `MailManager.SpamSkipsRules` | src/main/java/org/danilorossi/mailmanager/MailManager.java:319-370 | a message handled by the spam branch does not reach the rules |
| `MailManager.SpamFailureFallsThrough` | src/main/java/org/danilorossi/mailmanager/MailManager.java:319-370 | when spamd gives no verdict or no spam action is set, the message goes to the rules as if SpamAssassin were off |
| `MailManager.NoUidSkipped` | src/main/java/org/danilorossi/mailmanager/MailManager.java:310 | a message without a positive UID changes nothing |
| `MailManager.StepsStayFailed` | src/main/java/org/danilorossi/mailmanager/MailManager.java:402-404 | once a rule error occurs the remaining messages are not processed |
| `MailManager.ProcessMessages` | src/main/java/org/danilorossi/mailmanager/MailManager.java:308-388 | the message loop's result and the store afterwards are those of `Steps`; it never expunges |
| `MailManager.OpenState` | src/main/java/org/danilorossi/mailmanager/MailManager.java:233-240 | the state is found or created, refreshed with the folder's UIDVALIDITY, and stored back |
| `MailManager.ProcessFrom` | src/main/java/org/danilorossi/mailmanager/MailManager.java:242-400 | the table, the store and the outcome are those of `RunFrom`, and `expunge()` is called exactly when `RunFrom` says |
| `MailManager.ProcessAccount` | src/main/java/org/danilorossi/mailmanager/MailManager.java:211-405 | the table, the store (closed, so expunged) and the outcome are those of `Run`, and `expunge()` is called exactly when `Run` says |
| `MailManager.NothingFetched` | src/main/java/org/danilorossi/mailmanager/MailManager.java:242-267 | with UIDNEXT <= 0 or no new UID the store changes only by the expunge of the close, `expunge()` is not called, and the state is saved with the watermark unchanged |
| `MailManager.WatermarkAfterRun` | src/main/java/org/danilorossi/mailmanager/MailManager.java:384-395 | a completed run saves the maximum of the old watermark and the UIDs fetched, which never goes down |
| `MailManager.ExpungeCallOnlyAfterSpamRemoval` | src/main/java/org/danilorossi/mailmanager/MailManager.java:397-400 | `expunge()` itself is called only after a completed run in which SpamAssassin deleted or moved a message |
| `MailManager.ClosedRemovesDeleted` | src/main/java/org/danilorossi/mailmanager/MailManager.java:225-226 | however the run ends, no message flagged DELETED is left in the folder, and nothing expunged before comes back |
| `MailManager.RuleDeleteRemovedAtClose` | src/main/java/org/danilorossi/mailmanager/MailManager.java:225-226 | with SpamAssassin off, a new message a DELETE rule matches is gone after the run although `expunge()` is not called |
| `MailManager.StepsKeepExpunged` | src/main/java/org/danilorossi/mailmanager/MailManager.java:300-393 | the message loop itself never expunges |
| `MailManager.AbortKeepsWatermark` | src/main/java/org/danilorossi/mailmanager/MailManager.java:402-404 | an aborted run saves no new watermark and does not call `expunge()`; the close still expunges |
| `MailText.SkipFlavorsOrdered` | src/main/java/org/danilorossi/mailmanager/helpers/MailUtils.java:231-256 | every part `MailTextExtractor` skips, `MailUtils` skips too |
| `MailText.SkipFlavorsDiffer` | src/main/java/org/danilorossi/mailmanager/helpers/MailUtils.java:247-251 | an inline image is skipped by `MailUtils` only |
| `MailText.CollapseLineBreaks` | src/main/java/org/danilorossi/mailmanager/helpers/MailTextExtractor.java:131 | after collapsing, every line break is a single `\n`, the text is empty only if the input was, and the chars that are not line breaks are those of the input, in order |
| `MailText.CollapseLineBreaksAppend` | src/main/java/org/danilorossi/mailmanager/helpers/MailTextExtractor.java:131 | where no run of line breaks crosses the seam, collapsing a text is collapsing its two pieces |
| `MailText.CollapseLineBreaksRun` | src/main/java/org/danilorossi/mailmanager/helpers/MailTextExtractor.java:131 | a non-empty run of line breaks between two other chars becomes exactly one `\n`, and the text on either side is collapsed on its own |
| `MailText.CollapseBlanks` | src/main/java/org/danilorossi/mailmanager/helpers/MailTextExtractor.java:132 | after collapsing, no two horizontal blanks are adjacent, single line breaks survive, and the chars that are not blanks are those of the input, in order |
| `MailText.CollapseBlanksAppend` | src/main/java/org/danilorossi/mailmanager/helpers/MailTextExtractor.java:132 | where no run of blanks crosses the seam, collapsing a text is collapsing its two pieces |
| `MailText.CollapseBlanksRun` | src/main/java/org/danilorossi/mailmanager/helpers/MailTextExtractor.java:132 | a run of two or more blanks between two other chars becomes exactly one space, a single blank stays, and the text on either side is collapsed on its own |
| `MailText.CleanText` | src/main/java/org/danilorossi/mailmanager/helpers/MailTextExtractor.java:127-134 | null gives `""`; the result has no NBSP, no run of blanks, no run of line breaks and no outer whitespace, and its visible chars (above U+0020, not a line break, not NBSP) are those of the input, in order |
| `MailText.CleanTextJoinsLines` | src/main/java/org/danilorossi/mailmanager/helpers/MailTextExtractor.java:127-134 | between two visible chars, a run of line breaks comes out as exactly one `\n`, and each side comes out as it would on its own |
| `MailText.CleanTextJoinsWords` | src/main/java/org/danilorossi/mailmanager/helpers/MailTextExtractor.java:127-134 | between two visible chars, a run of two or more spaces, tabs or NBSPs comes out as exactly one space (a single one stays, an NBSP as a space), and each side comes out as it would on its own |
| `JavaStrings.TrimJoin` | src/main/java/org/danilorossi/mailmanager/helpers/MailTextExtractor.java:133 | `trim` of a text whose middle is framed by chars above U+0020 trims only the two outer parts |
| `MailText.CleanKeepsVisible` | src/main/java/org/danilorossi/mailmanager/helpers/MailTextExtractor.java:127-134 | the NBSP replacement, both collapses and the trim each keep the visible chars, in order |
| `MailText.CleanTextFixpoint` | src/main/java/org/danilorossi/mailmanager/helpers/MailTextExtractor.java:127-134 | a clean text is returned unchanged |
| `MailText.CleanTextIdempotent` | src/main/java/org/danilorossi/mailmanager/helpers/MailTextExtractor.java:127-134 | cleaning twice is cleaning once |
| `MailText.TextPayload` | src/main/java/org/danilorossi/mailmanager/helpers/MailTextExtractor.java:158-169 | a text payload is returned as is; an unreadable one gives `""` |
| `MailText.HtmlToPlainText` | src/main/java/org/danilorossi/mailmanager/helpers/MailTextExtractor.java:171-179 | empty HTML gives `""`; the rendered text is clean |
| `MailText.AppendParagraph` | src/main/java/org/danilorossi/mailmanager/helpers/MailTextExtractor.java:121-125 | an empty text leaves the output alone; otherwise the text starts a new line after the old output and is followed by a blank line |
| `MailText.LastCandidate` | src/main/java/org/danilorossi/mailmanager/helpers/MailTextExtractor.java:185-208 | the last usable part of the given subtype, or -1 |
| `MailText.AlternativeText` | src/main/java/org/danilorossi/mailmanager/helpers/MailTextExtractor.java:185-208 | the chosen text is clean; it is `""` when no child is a usable text part, and otherwise the rendered or cleaned text of one usable text child |
| `MailText.AlternativePrefersLastHtml` | src/main/java/org/danilorossi/mailmanager/helpers/MailTextExtractor.java:185-208 | the last text/html alternative is rendered when there is one |
| `MailText.AlternativeFallsBackToPlain` | src/main/java/org/danilorossi/mailmanager/helpers/MailTextExtractor.java:185-208 | without HTML, the last text/plain alternative is cleaned and returned |
| `MailText.AlternativeFallsBackToAnyText` | src/main/java/org/danilorossi/mailmanager/helpers/MailTextExtractor.java:200-207 | with neither HTML nor plain text, the last child of any other text type is cleaned and returned |
| `MailText.ScanLast` | src/main/java/org/danilorossi/mailmanager/helpers/MailTextExtractor.java:187-206 | the scan loop finds `LastCandidate` |
| `MailText.PickFromAlternative` | src/main/java/org/danilorossi/mailmanager/helpers/MailTextExtractor.java:185-208 | the method returns `AlternativeText` |
| `MailText.FirstTextual` | src/main/java/org/danilorossi/mailmanager/helpers/MailTextExtractor.java:79-85 | the first text/html or text/plain part of a related multipart |
| `MailText.ExtractPart` | src/main/java/org/danilorossi/mailmanager/helpers/MailTextExtractor.java:47-117 | extraction only appends to the output; a skippable part adds nothing; only a container part can fail |
| `MailText.ExtractChildrenAppend` | src/main/java/org/danilorossi/mailmanager/helpers/MailTextExtractor.java:90-102 | a multipart's children are extracted left to right, each appending to the output of those before |
| `MailText.GenericMultipartSurvivesChildError` | src/main/java/org/danilorossi/mailmanager/helpers/MailTextExtractor.java:90-102 | a failing child of a generic multipart is skipped and the next child is still extracted |
| `MailText.RelatedTakesFirstTextual` | src/main/java/org/danilorossi/mailmanager/helpers/MailTextExtractor.java:75-88 | a related multipart contributes its first textual part only |
| `MailText.TrimToMax` | src/main/java/org/danilorossi/mailmanager/helpers/MailTextExtractor.java:242-245 | null gives `""`; the result is the prefix of the input of length min(length, max) |
| `MailText.ExtractTextFromMessage` | src/main/java/org/danilorossi/mailmanager/helpers/MailTextExtractor.java:36-45 | the result is at most 200000 chars, a prefix of the trimmed extracted text, all of it when it fits, and starts with no whitespace |
| `MailText.SkippedMessageYieldsNothing` | src/main/java/org/danilorossi/mailmanager/helpers/MailTextExtractor.java:36-52 | a message that is itself a skippable binary gives `""` |
| `MailUtils.FirstCrlf` | src/main/java/org/danilorossi/mailmanager/helpers/MailUtils.java:287-304 | the first CR LF pair after the position, or -1 |
| `MailUtils.ReadLine` | src/main/java/org/danilorossi/mailmanager/helpers/MailUtils.java:287-304 | end of stream at the position gives null; otherwise a line is read and the position advances |
| `MailUtils.ReadLineCRLF` | src/main/java/org/danilorossi/mailmanager/helpers/MailUtils.java:287-304 | the byte loop returns `ReadLine` |
| `MailUtils.ReadLineOfFramed` | src/main/java/org/danilorossi/mailmanager/helpers/MailUtils.java:287-304 | a line without CR LF followed by CR LF is read back, and the position moves past the terminator |
| `MailUtils.ReadLineUnterminated` | src/main/java/org/danilorossi/mailmanager/helpers/MailUtils.java:303 | bytes at end of stream without a terminator are returned as the last line |
| `MailUtils.SplitLabels` | src/main/java/org/danilorossi/mailmanager/helpers/MailUtils.java:363-370 | null gives no label; every label is trimmed, non-empty and free of separators |
| `MailUtils.SplitJoinedLabels` | src/main/java/org/danilorossi/mailmanager/helpers/MailUtils.java:363-370 | labels joined with commas split back into the same labels |
| `MailUtils.ResolveArchiveName` | src/main/java/org/danilorossi/mailmanager/helpers/MailUtils.java:351-360 | the first candidate archive folder that exists, or null when none exists |
| `MailUtils.CharsetLabel` | src/main/java/org/danilorossi/mailmanager/helpers/MailUtils.java:165-166 | the label is the trimmed name with each char lower-cased and `_` read as `-`, except that a name folding to `utf8` gives `utf-8`; it has no upper-case letter and no underscore |
| `MailUtils.DetectCharset` | src/main/java/org/danilorossi/mailmanager/helpers/MailUtils.java:156-176 | no charset parameter or an unsupported one gives UTF-8; a supported one gives its normalised name |
| `MailUtils.CharsetLabelIgnoresCase` | src/main/java/org/danilorossi/mailmanager/helpers/MailUtils.java:165-166 | the normalised name does not depend on letter case |
| `MailUtils.CharsetLabelIdempotent` | src/main/java/org/danilorossi/mailmanager/helpers/MailUtils.java:165-166 | normalising a normalised name changes nothing |
| `MailUtils.IsSkippableBinary` | src/main/java/org/danilorossi/mailmanager/helpers/MailUtils.java:231-256 | a non-text image is skipped, and so is every part the other extractor skips |
| `MailUtils.ExtractTextFromMessage` | src/main/java/org/danilorossi/mailmanager/helpers/MailUtils.java:44-53 | at most 200000 chars, a prefix of the trimmed extracted text |
| `SpamAssassin.RequestHeaders` | src/main/java/org/danilorossi/mailmanager/spamassassin/SpamAssassinClient.java:135-139 | a request carries one `Content-length` header with the message length, then a `User` header exactly when the user is neither null nor blank |
| `SpamAssassin.Request` | src/main/java/org/danilorossi/mailmanager/spamassassin/SpamAssassinClient.java:134-146 | the request ends with the message bytes |
| `SpamAssassin.RequestReadBack` | src/main/java/org/danilorossi/mailmanager/spamassassin/SpamAssassinClient.java:134-146 | reading a request back gives its command line, its header lines and the message as the rest |
| `SpamAssassin.RequestHeaderMap` | src/main/java/org/danilorossi/mailmanager/spamassassin/SpamAssassinClient.java:135-142 | a request's headers give the message length as Content-length and the user when one is given |
| `SpamAssassin.ReadHeaderLines` | src/main/java/org/danilorossi/mailmanager/spamassassin/SpamAssassinClient.java:161-165 | header lines are read up to an empty line or the end of the stream |
| `SpamAssassin.ReadFrameHeaders` | src/main/java/org/danilorossi/mailmanager/spamassassin/SpamAssassinClient.java:156-165 | in a framed reply, the first line is the status line and the header lines are read back up to the blank line |
| `SpamAssassin.CollectHeaderLines` | src/main/java/org/danilorossi/mailmanager/spamassassin/SpamAssassinClient.java:161-165 | the header loop returns `ReadHeaderLines` |
| `SpamAssassin.SplitSpaces` | src/main/java/org/danilorossi/mailmanager/spamassassin/SpamAssassinClient.java:219 | a split with a limit gives at most that many pieces, and only the last can contain whitespace |
| `SpamAssassin.SafeParseInt` | src/main/java/org/danilorossi/mailmanager/spamassassin/SpamAssassinClient.java:230-236 | a result other than the default is the value of the trimmed text |
| `SpamAssassin.SafeParseIntIsParseIntOr` | src/main/java/org/danilorossi/mailmanager/spamassassin/SpamAssassinClient.java:230-236 | `safeParseInt` agrees with `parseIntOr` |
| `SpamAssassin.SafeParseIntOfPrinted` | src/main/java/org/danilorossi/mailmanager/spamassassin/SpamAssassinClient.java:230-236 | a printed `int` parses back to itself |
| `SpamAssassin.ParseStatusLine` | src/main/java/org/danilorossi/mailmanager/spamassassin/SpamAssassinClient.java:217-228 | a parsed status line has a `SPAMD/` protocol without spaces and a code above the minimum `int`; otherwise an invalid-status error naming the line |
| `SpamAssassin.ParseStatusLineOfPrinted` | src/main/java/org/danilorossi/mailmanager/spamassassin/SpamAssassinClient.java:217-228 | a printed status line parses back into its protocol, code and text |
| `SpamAssassin.HeaderField` | src/main/java/org/danilorossi/mailmanager/spamassassin/SpamAssassinClient.java:171-179 | a line is a header exactly when its colon is not the first character; name and value are trimmed |
| `SpamAssassin.HeaderFieldOfPrinted` | src/main/java/org/danilorossi/mailmanager/spamassassin/SpamAssassinClient.java:171-179 | a printed `name: value` line reads back as that header |
| `SpamAssassin.Lookup` | src/main/java/org/danilorossi/mailmanager/spamassassin/SpamAssassinClient.java:171-177 | a header is found exactly when its lower-cased name is in the map |
| `SpamAssassin.LookupLastWins` | src/main/java/org/danilorossi/mailmanager/spamassassin/SpamAssassinClient.java:171-179 | a repeated header keeps the value of its last occurrence, names compared ignoring case |
| `SpamAssassin.BuildHeaderMap` | src/main/java/org/danilorossi/mailmanager/spamassassin/SpamAssassinClient.java:171-179 | the map loop returns `HeaderMap` |
| `SpamAssassin.ReadBody` | src/main/java/org/danilorossi/mailmanager/spamassassin/SpamAssassinClient.java:182-191 | a body is read only as announced by Content-length; a bad or short length is an error |
| `SpamAssassin.BodyIsRest` | src/main/java/org/danilorossi/mailmanager/spamassassin/SpamAssassinClient.java:182-191 | when Content-length is the length of the rest, the body is the rest |
| `SpamAssassin.BuildRaw` | src/main/java/org/danilorossi/mailmanager/spamassassin/SpamAssassinClient.java:194-198 | the raw-text loop returns `Raw` |
| `SpamAssassin.ParseResponse` | src/main/java/org/danilorossi/mailmanager/spamassassin/SpamAssassinClient.java:153-208 | an empty stream has no status line; a parsed response has a `SPAMD/` protocol and an `int` code |
| `SpamAssassin.ReadResponse` | src/main/java/org/danilorossi/mailmanager/spamassassin/SpamAssassinClient.java:153-208 | the reader returns `ParseResponse` |
| `SpamAssassin.ReplyWithoutBody` | src/main/java/org/danilorossi/mailmanager/spamassassin/SpamAssassinClient.java:153-208 | a framed reply without Content-length parses into its status, its headers and no body |
| `SpamAssassin.ReplyWithBody` | src/main/java/org/danilorossi/mailmanager/spamassassin/SpamAssassinClient.java:153-208 | a framed reply whose Content-length matches its body parses into its status, headers and decoded body |
| `SpamAssassin.Verdict` | src/main/java/org/danilorossi/mailmanager/spamassassin/SpamAssassinClient.java:250-258 | a verdict exists exactly when the value starts with `true` or `false` ignoring case, and is spam exactly for `true` |
| `SpamAssassin.ScoreTokens` | src/main/java/org/danilorossi/mailmanager/spamassassin/SpamAssassinClient.java:264-269 | score and threshold exist exactly when there is a slash; both are trimmed |
| `SpamAssassin.ParseSpamHeader` | src/main/java/org/danilorossi/mailmanager/spamassassin/SpamAssassinClient.java:239-287 | a value starting with neither `true` nor `false` is a boolean error; a parsed line's spam flag is the verdict; every error names the header |
| `SpamAssassin.ParseSpamHeaderOfPrinted` | src/main/java/org/danilorossi/mailmanager/spamassassin/SpamAssassinClient.java:239-287 | a header printed as `True ; s / t` or `False ; s / t` parses back to its verdict and its numbers |
| `SpamAssassin.CheckOf` | src/main/java/org/danilorossi/mailmanager/spamassassin/SpamAssassinClient.java:56-72 | a non-zero code is an error; a missing Spam header is an error; a result carries the parsed score and threshold of the Spam header |
| `SpamAssassin.SymbolsOf` | src/main/java/org/danilorossi/mailmanager/spamassassin/SpamAssassinClient.java:91-107 | a non-zero code is an error; without a Spam header the result is not spam; the symbols are the body |
| `SpamAssassin.SpamHeaderOptionalForSymbols` | src/main/java/org/danilorossi/mailmanager/spamassassin/SpamAssassinClient.java:56-107 | without a Spam header CHECK fails and SYMBOLS succeeds as not spam |
| `SpamAssassin.CheckAgreesWithSymbols` | src/main/java/org/danilorossi/mailmanager/spamassassin/SpamAssassinClient.java:56-107 | when CHECK succeeds on a response, SYMBOLS does too and agrees on verdict, score and threshold |
| `SpamAssassin.CheckOfReply` | src/main/java/org/danilorossi/mailmanager/spamassassin/SpamAssassinClient.java:56-72 | `check` against a server that answers a framed `0` reply with a Spam header returns that header's parse |
| `SpamAssassin.SymbolsOfReply` | src/main/java/org/danilorossi/mailmanager/spamassassin/SpamAssassinClient.java:91-107 | `symbols` against a server that answers a framed reply with a body returns that body as the symbols |

## Left out

- Sockets, timeouts and `toRfc822Bytes`: the spamd connection is a function from request bytes to reply bytes, and the message is given as bytes.
- The UTF-8 decoder of `readResponse` and `Double.parseDouble` in `parseSpamHeader` are parameters of the model. The model does not decode UTF-8 or parse floating point.
- `ConditionOperator.REGEX`: `Pattern.compile(...).matcher(...).find()` is a parameter that may fail (a bad pattern).
- Jsoup's HTML rendering is a parameter (`Renderer`). Only the clean-up applied to its output is modelled.
- Case folding is ASCII only. `toLowerCase` / `toUpperCase` on other letters, and the `Locale` argument, are not modelled.
- `LangUtils.S`: only the case without values is modelled. `String.format` with `{}` placeholders is left out.
- Logging (`LangUtils.l`, `info`, `warn`, ...) and `decodeSubjectSafe` are left out: they affect no state the model tracks.
- File I/O, `writeAtomic` and JSON (de)serialisation: each repository's file is the field of its class. The model does not cover read or write failures.
- The state store's `LinkedHashMap` (JsonDb.java:170, 177, 184) is a `map`: the order in which keys are written to the file is not modelled.
- The spamd headers go into a case-insensitive `TreeMap` (SpamAssassinClient.java:171). The model looks them up by lower-cased name, and a later header with the same name wins. Which spelling of a repeated name stays as the map key is not modelled.
- The thread pool, `ExecutorService` and the single-instance file lock are left out. Accounts are processed one at a time. Only the pool-size formula is modelled.
- The clock (`System.currentTimeMillis`) and the folder's UIDVALIDITY and UIDNEXT are parameters of a run (`Env`).
- `State.shouldProcess` and `State.refreshValidity` are parameters of a run: model/State.java is not part of this model.
- `ensureFolderExistsAndOpen` in the spam MOVE branch is a parameter (`spamMoveOk`) saying whether the spam folder could be opened. When it cannot, the model takes the SEEN fallback at MailManager.java:354.
- `MailManager.SpamActed`: in the spam branch every store call succeeds except opening the spam folder. Three failure paths of the Java code are not modelled:
  - `setFlag(DELETED)` for DELETE (MailManager.java:331) or `setFlag(SEEN)` for MARK_AS_READ (:357) throws. The catch at :366-369 logs it, `anyDeleted` stays false and the message goes on to the rules at :372.
  - In MOVE, `copyMessages` succeeds (:340) but `setFlag(DELETED)` throws (:341-342). The message is marked SEEN by the catch at :347-355, the copy stays in the spam folder and `anyDeleted` stays false. The model only knows the case where nothing was copied.
  - The SEEN fallback at :354 itself throws. The exception reaches the catch at :366 and the message goes on to the rules.
  So `MailManager.SpamSkipsRules` and `MailManager.StepsAnyDeleted` hold only when the store does not fail.
- `MailManager.HandleSpam`: returns `SpamActed`, so the same three store-failure paths of the spam branch are not modelled.
- FORWARD, MARK_AS_READ and the other non-mailbox actions of `Rule.apply` leave the modelled store unchanged, and `buildForward` / SMTP are not modelled.
- `ImapConfig.validate()` and the TUI are left out; they do not take part in processing.
- `MailManager.ProcessAccount`: a `MessagingException` from opening the store or the folder, and the `catch` that logs it, are not modelled. The run starts from an open folder.
- `Rules.ValueToCheck`: the `IOException` path (MESSAGE at Rule.java:138-141) is modelled through an unreadable part's empty text, not as a separate error.
- `Rules.ValueToCheck`: a `MessagingException` from `getSubject`, `getFrom`, `getRecipients` or `getContent` (Rule.java:120-145) is not modelled; the header reads always succeed. Such an exception would end the account run like the REGEX failure does.
- `LangUtils.Empty`: `LangUtils.empty` is not defined in LangUtils.java; it is taken to be null-or-length-zero.
- `Accounts.Nz`: `LangUtils.nz` is not defined in LangUtils.java (it is called in JsonDb.java at lines 165, 185, 233, 249, 263-268, 296 and 353-358); it is taken to map null to `""` and to keep any other text. Its use on the port number at line 266 is read as the port's decimal text.
- `JavaStrings.ParseInt`: only ASCII digits are accepted. Java's `Integer.parseInt` accepts every Unicode decimal digit (for example Arabic-Indic digits), so `LangUtils.IsPositiveInt`, `LangUtils.ParseIntOr` and `SpamAssassin.SafeParseInt` reject such text where Java parses it.
- `Rules.Apply`: a `MessagingException` from `getFolder`, `exists`, opening a folder, `moveMessages`, `copyMessages` or `setFlag` (Rule.java:53-90) is not modelled; every store call succeeds. In Java such an exception ends the account run at MailManager.java:402-404 without a new watermark, possibly after part of the action (a copy without the DELETED flag).
- `MailUtils.IsSkippableBinary`: a `MessagingException` from `getDisposition`, `getFileName`, `isMimeType` or `getHeader`, which both copies catch and answer "not skippable" (MailTextExtractor.java:228-230, MailUtils.java:247-255), is not modelled; a part's headers are always readable.
- `MailManager.Env`: the SpamAssassin verdict on a message is the parameter `spamVerdict`. No lemma ties it to `SpamAssassin.Check` over a server's reply; the spam branch of the run and the client model are proved apart.
- `MailText.TrimToMax`: lengths count Unicode scalar values. Java's `length()` and `substring` count UTF-16 code units, so with chars outside the Basic Multilingual Plane the cap falls elsewhere, and Java can split a surrogate pair.
- `MailText.ExtractTextFromMessage`: the cap of `MAX_OUTPUT_CHARS` counts Unicode scalar values, not UTF-16 code units (see `MailText.TrimToMax`).
- `MailUtils.ExtractTextFromMessage`: the cap counts Unicode scalar values, not UTF-16 code units (see `MailText.TrimToMax`).
- `Mailbox.Mailbox.Close`: messages flagged DELETED by another client before the run are expunged by the close in Java as well; the model knows only the flags in its store, so it covers them only when they are in the starting snapshot.
- `MailManager.MaxThreads`: `Runtime.availableProcessors()` is the parameter `cpus`.

## Findings

| source | as written | input that shows it | evidently intended | confidence | as-written member | corrected member |
|---|---|---|---|---|---|---|
| src/main/java/org/danilorossi/mailmanager/helpers/LangUtils.java:23-25 | `nullToSomething(s, def)` returns `""` when `s` is null and `def` otherwise, so `nullToEmpty("abc")` is `""` | `s = "abc"`, `def = ""` | return `s` when it is not null, else `def` | not executed | `LangUtils.NullToEmptyErasesText` | `LangUtils.NullToEmptyIntended` |
| src/main/java/org/danilorossi/mailmanager/MailManager.java:170-175 | outside dev mode the pool size is `min(accounts, max(1, min(8, cpus)))`, which is 0 with no accounts, and `newFixedThreadPool(0)` throws | no configured account, dev mode off | a pool of at least one thread | not executed | `MailManager.MaxThreadsZeroWithoutAccounts` | `MailManager.ThreadPoolSize` |
