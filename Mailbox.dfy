/**
  The mail store as the rule engine and the sync loop touch it: the messages of
  the folder being processed (identified by UID), the other folders of the
  store with what has been copied into them, the flags set on messages, the
  messages moved away by a server-side move, and the messages an expunge
  removed. The jakarta.mail `Store`/`Folder`/`Message` calls become the
  methods of `Mailbox`.
*/
module Mailbox {
  import opened Wrappers
  import MailText

  /** A message as the rules read it: the `Subject` header (`null` when absent),
      the address lists (`null`, or arrays whose entries may be `null`, each
      entry rendered by `Address.toString()`), and the message seen as a MIME
      part (its `getContent()`, headers and text). */
  datatype Mail = Mail(subject: Option<string>,
                       from: Option<seq<Option<string>>>,
                       to: Option<seq<Option<string>>>,
                       cc: Option<seq<Option<string>>>,
                       bcc: Option<seq<Option<string>>>,
                       mime: MailText.Part)

  /** A message of the processed folder with its `UIDFolder.getUID` (which is
      not positive for a message that has gone away). */
  datatype Message = Message(uid: int, mail: Mail)

  /** The two system flags the program sets. */
  datatype Flag = DELETED | SEEN

  /** What the program can change in the store: the other folders' contents,
      the flags by UID, the UIDs moved out of the processed folder and the
      UIDs expunged from it. */
  datatype Snapshot = Snapshot(folders: map<string, seq<Mail>>, flags: map<int, set<Flag>>, moved: set<int>,
                               expunged: set<int>)

  /** The flags set on the message with this UID. */
  function FlagsOf(s: Snapshot, uid: int): set<Flag> {
    if uid in s.flags then s.flags[uid] else {}
  }

  /** The messages a folder holds, as far as the program put them there. */
  function Contents(s: Snapshot, folder: string): seq<Mail> {
    if folder in s.folders then s.folders[folder] else []
  }

  /** `setFlag(f, true)` on the message with this UID. */
  function Flagged(s: Snapshot, uid: int, f: Flag): (r: Snapshot)
    ensures r.folders == s.folders && r.moved == s.moved && r.expunged == s.expunged
    ensures FlagsOf(r, uid) == FlagsOf(s, uid) + {f}
    ensures forall u :: u != uid ==> FlagsOf(r, u) == FlagsOf(s, u)
  {
    s.(flags := s.flags[uid := FlagsOf(s, uid) + {f}])
  }

  /** `copyMessages` of one message into `folder` (creating the entry when the
      folder had received nothing yet). */
  function Copied(s: Snapshot, folder: string, m: Mail): (r: Snapshot)
    ensures r.flags == s.flags && r.moved == s.moved && r.expunged == s.expunged
    ensures Contents(r, folder) == Contents(s, folder) + [m]
    ensures forall f :: f != folder ==> Contents(r, f) == Contents(s, f)
    ensures r.folders.Keys == s.folders.Keys + {folder}
  {
    s.(folders := s.folders[folder := Contents(s, folder) + [m]])
  }

  /** `IMAPFolder.moveMessages` of one message: it lands in `folder` and leaves
      the processed folder. */
  function MovedOut(s: Snapshot, uid: int, folder: string, m: Mail): (r: Snapshot)
    ensures r.flags == s.flags && r.moved == s.moved + {uid} && r.expunged == s.expunged
    ensures r.folders == Copied(s, folder, m).folders
  {
    Copied(s, folder, m).(moved := s.moved + {uid})
  }

  /** `Folder.expunge()`, and also `Folder.close()` (which is `close(true)`):
      every message of the processed folder flagged DELETED is removed. */
  function Expunged(s: Snapshot): (r: Snapshot)
    ensures r.folders == s.folders && r.flags == s.flags && r.moved == s.moved
    ensures forall u :: u in r.expunged <==> u in s.expunged || DELETED in FlagsOf(s, u)
  {
    s.(expunged := s.expunged + set u | u in s.flags && DELETED in s.flags[u])
  }

  /** A second expunge finds nothing left to remove. */
  lemma {:induction false} ExpungedIdempotent(s: Snapshot)
    ensures Expunged(Expunged(s)) == Expunged(s)
  {
    var r := Expunged(s);
    assert Expunged(r).expunged == r.expunged;
  }

  /** The store, updated in place by the program. `folders` holds every folder
      that exists (`Folder.exists()`), mapped to what was copied into it;
      `expungeCalled` records whether `Folder.expunge()` itself was issued. */
  class Mailbox {
    var folders: map<string, seq<Mail>>
    var flags: map<int, set<Flag>>
    var moved: set<int>
    var expunged: set<int>
    var expungeCalled: bool

    function State(): Snapshot
      reads this
    {
      Snapshot(folders, flags, moved, expunged)
    }

    constructor (existing: set<string>)
      ensures folders.Keys == existing && forall f :: f in folders ==> folders[f] == []
      ensures flags == map[] && moved == {} && expunged == {} && !expungeCalled
    {
      folders := map f | f in existing :: [];
      flags := map[];
      moved := {};
      expunged := {};
      expungeCalled := false;
    }

    method SetFlag(m: Message, f: Flag)
      modifies this
      ensures State() == Flagged(old(State()), m.uid, f)
      ensures expungeCalled == old(expungeCalled)
    {
      flags := flags[m.uid := FlagsOf(State(), m.uid) + {f}];
    }

    method CopyMessage(m: Message, folder: string)
      modifies this
      ensures State() == Copied(old(State()), folder, m.mail)
      ensures expungeCalled == old(expungeCalled)
    {
      folders := folders[folder := Contents(State(), folder) + [m.mail]];
    }

    method MoveMessage(m: Message, folder: string)
      modifies this
      ensures State() == MovedOut(old(State()), m.uid, folder, m.mail)
      ensures expungeCalled == old(expungeCalled)
    {
      folders := folders[folder := Contents(State(), folder) + [m.mail]];
      moved := moved + {m.uid};
    }

    /** `Folder.expunge()`. */
    method Expunge()
      modifies this
      ensures State() == Expunged(old(State())) && expungeCalled
    {
      expunged := expunged + set u | u in flags && DELETED in flags[u];
      expungeCalled := true;
    }

    /** `Folder.close()`, run by `@Cleanup` on every way out once the folder
        is open: it expunges as well. */
    method Close()
      modifies this
      ensures State() == Expunged(old(State()))
      ensures expungeCalled == old(expungeCalled)
    {
      expunged := expunged + set u | u in flags && DELETED in flags[u];
    }
  }
}
