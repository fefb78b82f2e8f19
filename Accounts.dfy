/**
  The records the sync loop and the JSON repositories share: an IMAP account
  and the processing state kept for one folder of one account.
*/
module Accounts {
  import opened Wrappers

  /** What to do with a message SpamAssassin judges to be spam. */
  datatype SpamAction = DELETE | MOVE | MARK_AS_READ

  /** An IMAP account. Strings that may be `null` are `Option`s; `spamAction`
      is `null` when the account has none configured. Connection settings
      (password, SSL, authentication) play no part in the model. */
  datatype ImapConfig = ImapConfig(name: Option<string>, host: Option<string>, port: Option<string>,
                                   username: Option<string>, inboxFolder: string,
                                   useSpamAssassin: bool, spamAction: Option<SpamAction>,
                                   spamFolder: string)

  /** The processing state of one folder of one account: the folder's
      UIDVALIDITY when it was last seen, the highest UID already handled, and
      when the record was last written. */
  datatype State = State(imapConfigName: string, folder: string, uidValidity: int,
                         lastProcessedUid: int, updatedAtEpochMs: int)

  /** `nz`: a `null` string read as `""`. */
  function Nz(s: Option<string>): string {
    s.GetOr("")
  }

  /** `State.keyOf(account, folder)`: the two names joined by a colon. */
  function KeyOf(account: string, folder: string): string {
    account + ":" + folder
  }

  /** The key a state is filed under. */
  function StateKey(s: State): string {
    KeyOf(s.imapConfigName, s.folder)
  }
}
