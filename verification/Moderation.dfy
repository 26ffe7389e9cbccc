/** The moderation queue: what the form of web/web.go does to it, and what holds of it over all runs. */
module Moderations {
  import opened Addresses
  import opened Deciding
  import opened Headers
  import opened ListDBs
  import opened Reader
  import opened Refolding
  import opened Resaving
  import opened Tables
  import opened Text
  import opened Ulists
  import Lmtp
  import Messages

  const ACTION_PREFIX := "action-"

  /** The form of the moderation page: the first value of every key. */
  type Form = map<string, string>

  /** `PostFormValue`. */
  function ValueOf(form: Form, key: string): string {
    if key in form then form[key] else ""
  }

  /** File names are plain names, as the page renders them. */
  predicate PlainForm(form: Form) {
    forall k | k in form && HasPrefix(k, ACTION_PREFIX) :: PlainName(k[|ACTION_PREFIX|..])
  }

  predicate Chooses(form: Form, filename: string, action: string) {
    ACTION_PREFIX + filename in form && form[ACTION_PREFIX + filename] == action
  }

  /** What the life of the moderation queue depends on. */
  datatype QueueState = QueueState(files: map<FileKey, string>, trace: seq<Event>, tables: Database)

  ghost function Queue(u: Ulist): QueueState
    reads u, u.db
  {
    QueueState(u.files, u.trace, u.db.State())
  }

  /** A step in that life: a delivery over LMTP with what came of it, a request of a moderator of a list, or anything
      else that the server does. */
  datatype QueueStep =
    | Other
    | Delivery(isBounce: bool, lists: seq<List>, header: HeaderMap, body: string, now: int, code: Option<nat>,
          blocks: seq<seq<Event>>)
    | Moderation(list: List, form: Form)

  /** The message in the file was forwarded in this step. */
  ghost predicate Forwarded(lib: Library, web: bool, list: List, text: string, before: QueueState, after: QueueState) {
    exists i | |before.trace| <= i < |after.trace| :: ForwardsFile(lib, before.tables, web, list, text, after.trace[i])
  }

  /** A moderator of its list has chosen to delete the message, or has passed it and it was forwarded. */
  ghost predicate MayLeave(lib: Library, web: bool, f: FileKey, text: string, before: QueueState, step: QueueStep,
          after: QueueState)
  {
    && step.Moderation? && f.0 == step.list.id
    && (Chooses(step.form, f.1, "delete")
       || (Chooses(step.form, f.1, "pass") && Forwarded(lib, web, step.list, text, before, after)))
  }

  /** A message with this text was delivered to a list with the id of the file, and it was decided to moderate it; or
      the text is what was left over of it when storing it failed. */
  ghost predicate MayEnter(lib: Library, f: FileKey, text: string, before: QueueState, step: QueueStep) {
    && step.Delivery?
    && (text == Messages.SavedText(step.header, step.body)
        || (Leftover(f) in Lmtp.Flat(step.blocks) && text <= Messages.SavedText(step.header, step.body)))
    && exists list <- step.lists ::
         list.id == f.0 && Lmtp.IsToBe(lib, before.tables, step.isBounce, list, step.header, Mod)
  }

  /** Messages enter the queue only if they were delivered, leave it only if a moderator deletes or passes them, and
      never change. */
  ghost predicate KeepsQueue(lib: Library, web: bool, before: QueueState, step: QueueStep, after: QueueState) {
    && before.trace <= after.trace
    && (forall f | f in before.files ::
          if f in after.files then after.files[f] == before.files[f]
          else MayLeave(lib, web, f, before.files[f], before, step, after))
    && forall f | f in after.files && f !in before.files :: MayEnter(lib, f, after.files[f], before, step)
  }

  ghost predicate QueueRun(lib: Library, web: bool, states: seq<QueueState>, steps: seq<QueueStep>) {
    && |states| == |steps| + 1
    && forall i | 0 <= i < |steps| :: KeepsQueue(lib, web, states[i], steps[i], states[i + 1])
  }

  /** `f` leaves the queue at step `m`, where a moderator has deleted or passed it; until then it is as it was. */
  ghost predicate LeavesAt(lib: Library, web: bool, states: seq<QueueState>, steps: seq<QueueStep>, f: FileKey, i: nat,
          m: nat)
    requires |states| == |steps| + 1 && i <= m < |steps| && f in states[i].files
  {
    && (forall n | i <= n <= m :: f in states[n].files && states[n].files[f] == states[i].files[f])
    && MayLeave(lib, web, f, states[i].files[f], states[m], steps[m], states[m + 1])
  }

  /** Main result on moderation: over every run, a message that was in the queue and no longer is has left it by
      the choice of a moderator: to delete it, or to pass it, and then the very message was forwarded. */
  lemma {:induction false} NoMessageIsLost(lib: Library, web: bool, states: seq<QueueState>, steps: seq<QueueStep>,
          f: FileKey, i: nat, j: nat)
    requires QueueRun(lib, web, states, steps) && i <= j < |states| && f in states[i].files && f !in states[j].files
    ensures exists m :: i <= m < j && LeavesAt(lib, web, states, steps, f, i, m)
    decreases j
  {
    hide MayLeave;
    if k :| i <= k < j && f !in states[k].files {
      NoMessageIsLost(lib, web, states, steps, f, i, k);
    } else {
      StaysTheSame(lib, web, states, steps, f, i, j - 1);
      assert KeepsQueue(lib, web, states[j - 1], steps[j - 1], states[j - 1 + 1]);
      assert LeavesAt(lib, web, states, steps, f, i, j - 1);
    }
  }

  lemma {:induction false} StaysTheSame(lib: Library, web: bool, states: seq<QueueState>, steps: seq<QueueStep>,
          f: FileKey, i: nat, j: nat)
    requires QueueRun(lib, web, states, steps) && i <= j < |states| && forall n | i <= n <= j :: f in states[n].files
    ensures forall n | i <= n <= j :: states[n].files[f] == states[i].files[f]
    decreases j
  {
    hide MayLeave;
    if i < j {
      StaysTheSame(lib, web, states, steps, f, i, j - 1);
      assert KeepsQueue(lib, web, states[j - 1], steps[j - 1], states[j - 1 + 1]);
    }
  }

  /** `f` entered the queue at step `i`, and has been in it since, unchanged. */
  ghost predicate EnteredAt(lib: Library, states: seq<QueueState>, steps: seq<QueueStep>, f: FileKey, i: nat, j: nat)
    requires |states| == |steps| + 1 && i < j < |states| && f in states[j].files
  {
    && f !in states[i].files && MayEnter(lib, f, states[j].files[f], states[i], steps[i])
    && forall n | i < n <= j :: f in states[n].files && states[n].files[f] == states[j].files[f]
  }

  /** Main result on what is in the queue: over every run, a message that is in the queue and was not there in the
      beginning was delivered to its list and decided to be moderated, or is the left-over of such a delivery. */
  lemma {:induction false} EveryFileWasDelivered(lib: Library, web: bool, states: seq<QueueState>,
          steps: seq<QueueStep>, f: FileKey, j: nat)
    requires QueueRun(lib, web, states, steps) && j < |states| && f in states[j].files && f !in states[0].files
    ensures exists i :: 0 <= i < j && EnteredAt(lib, states, steps, f, i, j)
    decreases j
  {
    hide MayLeave, MayEnter;
    assert KeepsQueue(lib, web, states[j - 1], steps[j - 1], states[j - 1 + 1]);
    if f in states[j - 1].files {
      EveryFileWasDelivered(lib, web, states, steps, f, j - 1);
      var i :| 0 <= i < j - 1 && EnteredAt(lib, states, steps, f, i, j - 1);
      assert EnteredAt(lib, states, steps, f, i, j);
    } else {
      assert EnteredAt(lib, states, steps, f, j - 1, j);
    }
  }

  /** `e` is an attempt to forward the message in the file. */
  ghost predicate Forwards(lib: Library, t: Database, web: bool, list: List, text: string, e: Event) {
    var message := Messages.ReadMessage(text);
    message.Success? && IsForward(lib, t, web, list, message.value.0, message.value.1, e)
  }

  ghost predicate ForwardsFile(lib: Library, t: Database, web: bool, list: List, text: string, e: Event) {
    Forwards(lib, t, web, list, text, e) && e.ok
  }

  lemma ForwardsStill(lib: Library, t: Database, t': Database, web: bool, list: List, text: string, e: Event)
    requires Forwards(lib, t, web, list, text, e) && t.members == t'.members
    ensures Forwards(lib, t', web, list, text, e)
  {
    hide IsForwardHeader, IsRewritten, Messages.ReadMessage;
    assert MembersWith(t, list, (f: Flags) => f.receive) == MembersWith(t', list, (f: Flags) => f.receive);
  }

  /** The message in the file can be read and forwarded. */
  ghost predicate CanForward(lib: Library, list: List, text: string) {
    Messages.ReadMessage(text).Success? && Forwardable(lib, list, Messages.ReadMessage(text).value.0)
  }

  /** What a moderator passes is what was delivered: the message that is forwarded prints the fields of the delivered
      one as they are read back, without those that are withheld then. It prints the same text exactly under the
      condition under which saving is a fixed point, and has the same fields if the words of its values keep within the
      hard limit. */
  lemma PassedAsDelivered(lib: Library, t: Database, web: bool, list: List, h: HeaderMap, body: string, e: Event)
    requires AllLegible(PrintedFields(h)) && CanonicalKeys(h)
    requires Forwards(lib, t, web, list, Messages.SavedText(h, body), e)
    ensures exists h' ::
              && IsForward(lib, t, web, list, h', body, e)
              && PrintedFields(h') == Kept(RereadAll(PrintedFields(h)))
              && (Messages.SavedText(h', body) == Messages.SavedText(h, body)
                  <==> StaysKept(h) && AllSettled(PrintedFields(h)))
              && (AllPrintable(PrintedFields(h)) ==> PrintedFields(h') == PrintedFields(h))
  {
    hide CanonicalKeys, IsForward, PrintedFields, Messages.SavedText, AllPrintable, AllSettled,
         AllLegible, StaysKept, Messages.Grouped, RereadAll;
    SavedReadsAs(h, body);
    SavingIsFixed(h, body);
    if AllPrintable(PrintedFields(h)) {
      AllPrintableReread(PrintedFields(h));
      PrintedFieldsReadBack(h);
    }
  }

  /** `SingleFrom`: the From address of a message, if there is one and only one. */
  function SingleFrom(lib: Library, h: HeaderMap): Option<Addr> {
    var froms := AddressesOf(lib, h, "From");
    if froms.Some? && |froms.value| == 1 then Some(froms.value[0]) else None
  }

  /** The form asks to make the sender of this message a known sender, and known senders get the treatment of the
      message. */
  predicate AsksToAdd(list: List, form: Form, name: string) {
    || (Chooses(form, name, "delete") && ValueOf(form, "addknown-delete-" + name) != "" && list.actionKnown == Reject)
    || (Chooses(form, name, "pass") && ValueOf(form, "addknown-pass-" + name) != "" && list.actionKnown == Pass)
  }

  /** The only sender of the message in the file. */
  ghost function SenderIn(lib: Library, text: string): Option<Addr> {
    var message := Messages.ReadMessage(text);
    if message.Success? then SingleFrom(lib, message.value.0) else None
  }

  /** The form asks for the row `k`, which is for the only sender of a message in the queue. */
  ghost predicate AsksFor(lib: Library, list: List, form: Form, files: map<FileKey, string>, name: string, k: RowKey) {
    && (list.id, name) in files && AsksToAdd(list, form, name)
    && SenderIn(lib, files[(list.id, name)]).Some? && !list.addr.Equals(SenderIn(lib, files[(list.id, name)]).value)
    && k == (list.id, SenderIn(lib, files[(list.id, name)]).value.Spec())
  }

  /** What one entry of the form has done. `unread` tells that reading the file failed, and `fault` that this or
      anything else failed for a reason outside the program. */
  datatype Entry = Entry(name: string, unread: bool, fault: bool,
                         deleted: bool, passed: bool, added: bool, crashed: bool)

  /** The message of the entry has been read. */
  ghost predicate IsRead(files: map<FileKey, string>, list: List, e: Entry) {
    !e.unread && IsReadable(files, (list.id, e.name))
  }

  /** At most the file of the entry goes away: if it was to be deleted, or after its message was forwarded. */
  ghost predicate EntryFiles(was: map<FileKey, string>, now: map<FileKey, string>, list: List, form: Form, e: Entry) {
    var f := (list.id, e.name);
    && (now == was || (now == was - {f} && e.name != "" && (e.deleted || e.passed)))
    && (e.deleted ==> Chooses(form, e.name, "delete") && f in was && now == was - {f})
    && (!e.fault ==> (e.deleted <==> Chooses(form, e.name, "delete") && e.name != "" && f in was))
    && (!e.fault && e.passed && e.name != "" ==> now == was - {f})
  }

  /** Nothing is sent but the message of the entry, at most once, and only if it is to be passed. */
  ghost predicate EntryMail(lib: Library, web: bool, was: QueueState, now: QueueState, list: List, form: Form,
          e: Entry)
  {
    && (e.passed ==> now.trace != was.trace)
    && (now.trace != was.trace ==>
          && Chooses(form, e.name, "pass") && IsRead(was.files, list, e)
          && |now.trace| == |was.trace| + 1 && was.trace <= now.trace
          && Forwards(lib, was.tables, web, list, was.files[(list.id, e.name)], now.trace[|was.trace|])
          && (e.passed <==> now.trace[|was.trace|].ok))
    && ((!e.fault && Chooses(form, e.name, "pass") && IsRead(was.files, list, e)
         && CanForward(lib, list, was.files[(list.id, e.name)])) ==> e.passed)
  }

  /** At most the sender of the message of the entry becomes a known sender, and only if asked for. */
  ghost predicate EntryKnowns(lib: Library, was: QueueState, now: QueueState, list: List, form: Form, e: Entry) {
    var sender := if IsRead(was.files, list, e) then SenderIn(lib, was.files[(list.id, e.name)]) else None;
    && (e.added ==> sender.Some? && AsksToAdd(list, form, e.name))
    && (!e.fault && sender.Some? && AsksToAdd(list, form, e.name) ==> e.added)
    && now.tables == if e.added then Effect(was.tables, Operation.AddKnowns(list, [sender.value])) else was.tables
  }

  /** The form asks for the sender of a message that is to be deleted. */
  predicate AsksOnDelete(form: Form, name: string) {
    Chooses(form, name, "delete") && ValueOf(form, "addknown-delete-" + name) != ""
  }

  ghost predicate EntryDone(lib: Library, web: bool, was: QueueState, now: QueueState, list: List, form: Form,
          e: Entry)
  {
    && (e.unread ==> e.fault)
    && EntryFiles(was.files, now.files, list, form, e)
    && EntryMail(lib, web, was, now, list, form, e)
    && EntryKnowns(lib, was, now, list, form, e)
    && (e.crashed <==> AsksOnDelete(form, e.name) && !IsRead(was.files, list, e))
  }

  /** An entry with any other action does nothing. */
  lemma NothingDone(lib: Library, web: bool, now: QueueState, list: List, form: Form, name: string, unread: bool)
    requires !Chooses(form, name, "delete") && !Chooses(form, name, "pass")
    ensures EntryDone(lib, web, now, now, list, form, Entry(name, unread, unread, false, false, false, false))
  {
  }

  /** A request of a moderator, entry by entry, until one crashes. */
  ghost predicate ModRun(lib: Library, web: bool, list: List, form: Form, states: seq<QueueState>,
          entries: seq<Entry>)
  {
    && |states| == |entries| + 1
    && (forall i | 0 <= i < |entries| :: EntryDone(lib, web, states[i], states[i + 1], list, form, entries[i]))
    && (forall i, j | 0 <= i < j < |entries| :: entries[i].name != entries[j].name)
    && (forall i | 0 <= i < |entries| - 1 :: !entries[i].crashed)
    && (forall e <- entries :: ACTION_PREFIX + e.name in form)
  }

  predicate Visited(entries: seq<Entry>, name: string) {
    exists i | 0 <= i < |entries| :: entries[i].name == name
  }

  /** All entries of the form have been dealt with. */
  predicate Complete(form: Form, entries: seq<Entry>) {
    forall k | k in form && HasPrefix(k, ACTION_PREFIX) :: Visited(entries, k[|ACTION_PREFIX|..])
  }

  predicate IsDeleted(e: Entry) {
    e.deleted
  }

  predicate IsPassed(e: Entry) {
    e.passed
  }

  predicate IsAdded(e: Entry) {
    e.added
  }

  function Count(p: Entry -> bool, entries: seq<Entry>): nat {
    if entries == [] then 0 else Count(p, entries[..|entries| - 1]) + if p(entries[|entries| - 1]) then 1 else 0
  }

  predicate Counted(entries: seq<Entry>, deleted: nat, passed: nat, added: nat) {
    deleted == Count(IsDeleted, entries) && passed == Count(IsPassed, entries) && added == Count(IsAdded, entries)
  }

  lemma OneMoreCounted(entries: seq<Entry>, deleted: nat, passed: nat, added: nat, e: Entry)
    requires Counted(entries, deleted, passed, added)
    ensures Counted(entries + [e], deleted + (if e.deleted then 1 else 0), passed + (if e.passed then 1 else 0),
                    added + if e.added then 1 else 0)
  {
    assert (entries + [e])[..|entries|] == entries;
  }

  /** None of the entries has crashed, and they are for all names in the form but those left. */
  predicate AllButLeft(form: Form, left: set<string>, entries: seq<Entry>) {
    && (forall e <- entries :: !e.crashed && ACTION_PREFIX + e.name !in left)
    && forall k | k in form && k !in left && HasPrefix(k, ACTION_PREFIX) :: Visited(entries, k[|ACTION_PREFIX|..])
  }

  lemma NoEntries(lib: Library, web: bool, list: List, form: Form, states: seq<QueueState>, left: set<string>)
    requires |states| == 1 && left == form.Keys
    ensures ModRun(lib, web, list, form, states, []) && AllButLeft(form, left, []) && Counted([], 0, 0, 0)
  {
  }

  lemma OtherKey(form: Form, left: set<string>, k: string, entries: seq<Entry>)
    requires AllButLeft(form, left, entries) && !HasPrefix(k, ACTION_PREFIX)
    ensures AllButLeft(form, left - {k}, entries)
  {
    hide Visited;
  }

  lemma IsActionKey(form: Form, k: string, name: string)
    requires k in form && HasPrefix(k, ACTION_PREFIX) && name == k[|ACTION_PREFIX|..]
    ensures k == ACTION_PREFIX + name && Chooses(form, name, form[k])
  {
    assert k == ACTION_PREFIX + name;
  }

  lemma OneMore(lib: Library, web: bool, list: List, form: Form, states: seq<QueueState>, entries: seq<Entry>,
          left: set<string>, now: QueueState, e: Entry)
    requires ModRun(lib, web, list, form, states, entries) && AllButLeft(form, left, entries)
    requires EntryDone(lib, web, states[|entries|], now, list, form, e) && ACTION_PREFIX + e.name in left
             && left <= form.Keys
    ensures ModRun(lib, web, list, form, states + [now], entries + [e])
    ensures !e.crashed ==> AllButLeft(form, left - {ACTION_PREFIX + e.name}, entries + [e])
  {
    hide EntryDone, Visited;
    VisitedStill(entries, e);
    assert (ACTION_PREFIX + e.name)[|ACTION_PREFIX|..] == e.name;
  }

  lemma VisitedStill(entries: seq<Entry>, e: Entry)
    ensures Visited(entries + [e], e.name) && forall name | Visited(entries, name) :: Visited(entries + [e], name)
  {
    var all := entries + [e];
    assert all[|entries|] == e && forall i | 0 <= i < |entries| :: all[i] == entries[i];
  }

  lemma AllVisited(form: Form, entries: seq<Entry>)
    requires AllButLeft(form, {}, entries)
    ensures Complete(form, entries) && forall e <- entries :: !e.crashed
  {
    hide Visited;
  }

  /** Entries with other names leave a file alone. */
  lemma {:induction false} Untouched(lib: Library, web: bool, list: List, form: Form, states: seq<QueueState>,
          entries: seq<Entry>, a: nat, b: nat, f: FileKey)
    requires ModRun(lib, web, list, form, states, entries) && a <= b <= |entries|
    requires f.0 == list.id ==> forall i | a <= i < b :: entries[i].name != f.1
    ensures f in states[a].files <==> f in states[b].files
    ensures f in states[a].files ==> states[a].files[f] == states[b].files[f]
    decreases b
  {
    hide Chooses, EntryMail, EntryKnowns, IsRead, AsksOnDelete;
    if a < b {
      Untouched(lib, web, list, form, states, entries, a, b - 1, f);
      assert EntryDone(lib, web, states[b - 1], states[b - 1 + 1], list, form, entries[b - 1]);
    }
  }

  /** When its turn comes, the file of an entry is as it was. */
  lemma AtItsTurn(lib: Library, web: bool, list: List, form: Form, states: seq<QueueState>, entries: seq<Entry>, i: nat)
    requires ModRun(lib, web, list, form, states, entries) && i < |entries|
    ensures var f := (list.id, entries[i].name);
            && (f in states[0].files <==> f in states[i].files)
            && (f in states[0].files ==> states[0].files[f] == states[i].files[f])
    ensures IsRead(states[0].files, list, entries[i]) <==> IsRead(states[i].files, list, entries[i])
    ensures EntryDone(lib, web, states[i], states[i + 1], list, form, entries[i])
  {
    hide EntryDone, Messages.ReadMessage;
    Untouched(lib, web, list, form, states, entries, 0, i, (list.id, entries[i].name));
  }

  /** Only known senders are added to the tables, and events only to the trace. */
  lemma {:induction false} OnlyKnowns(lib: Library, web: bool, list: List, form: Form, states: seq<QueueState>,
          entries: seq<Entry>, a: nat, b: nat)
    requires ModRun(lib, web, list, form, states, entries) && a <= b <= |entries|
    ensures states[a].trace <= states[b].trace && states[a].tables.knowns <= states[b].tables.knowns
    ensures states[b].tables == states[a].tables.(knowns := states[b].tables.knowns)
    decreases b
  {
    hide Chooses, EntryFiles, IsRead, AsksOnDelete, Forwards, CanForward, SenderIn, Others, AsksToAdd;
    if a < b {
      OnlyKnowns(lib, web, list, form, states, entries, a, b - 1);
      assert EntryDone(lib, web, states[b - 1], states[b - 1 + 1], list, form, entries[b - 1]);
    }
  }

  /** Event `k` of the trace was an attempt to forward the message of entry `i`, which was to be passed. */
  ghost predicate SentFor(lib: Library, web: bool, list: List, form: Form, states: seq<QueueState>, entries: seq<Entry>,
          k: nat, i: nat)
    requires |states| == |entries| + 1 && i < |entries| && k < |states[|entries|].trace|
  {
    var f := (list.id, entries[i].name);
    && |states[i].trace| == k && Chooses(form, f.1, "pass") && f in states[0].files
    && Forwards(lib, states[0].tables, web, list, states[0].files[f], states[|entries|].trace[k])
    && (entries[i].passed <==> states[|entries|].trace[k].ok)
  }

  /** Main result on the mail of a moderator: nothing is sent but messages of the queue that were to be passed, each to
      the receivers of its list and at most once, as different events belong to different entries. */
  lemma ModMail(lib: Library, web: bool, list: List, form: Form, states: seq<QueueState>, entries: seq<Entry>, k: nat)
    requires ModRun(lib, web, list, form, states, entries) && |states[0].trace| <= k < |states[|entries|].trace|
    ensures exists i :: 0 <= i < |entries| && SentFor(lib, web, list, form, states, entries, k, i)
  {
    hide EntryDone, Chooses, IsRead, AsksOnDelete, Forwards, CanForward, SenderIn, EntryFiles, EntryKnowns, SentFor;
    var i := TurnOf(lib, web, list, form, states, entries, |entries|, k);
    SentAtTurn(lib, web, list, form, states, entries, k, i);
  }

  lemma SentAtTurn(lib: Library, web: bool, list: List, form: Form, states: seq<QueueState>, entries: seq<Entry>,
          k: nat, i: nat)
    requires ModRun(lib, web, list, form, states, entries) && i < |entries|
             && |states[i].trace| == k < |states[i + 1].trace|
    requires k < |states[|entries|].trace|
    ensures SentFor(lib, web, list, form, states, entries, k, i)
  {
    hide Chooses, AsksOnDelete, Forwards, CanForward, SenderIn, EntryFiles, EntryKnowns, Messages.ReadMessage;
    AtItsTurn(lib, web, list, form, states, entries, i);
    OnlyKnowns(lib, web, list, form, states, entries, i + 1, |entries|);
    OnlyKnowns(lib, web, list, form, states, entries, 0, i);
    var text := states[0].files[(list.id, entries[i].name)];
    ForwardsStill(lib, states[i].tables, states[0].tables, web, list, text, states[i + 1].trace[k]);
  }

  /** At which turn an event was added. */
  lemma {:induction false} TurnOf(lib: Library, web: bool, list: List, form: Form, states: seq<QueueState>,
          entries: seq<Entry>, n: nat, k: nat)
    returns (i: nat)
    requires ModRun(lib, web, list, form, states, entries) && n <= |entries|
             && |states[0].trace| <= k < |states[n].trace|
    ensures i < n && |states[i].trace| == k < |states[i + 1].trace|
    decreases n
  {
    hide EntryFiles, EntryKnowns, AsksOnDelete, Chooses, IsRead, Forwards, CanForward;
    assert EntryDone(lib, web, states[n - 1], states[n - 1 + 1], list, form, entries[n - 1]);
    if k < |states[n - 1].trace| {
      i := TurnOf(lib, web, list, form, states, entries, n - 1, k);
    } else {
      i := n - 1;
    }
  }

  /** Every new known sender is the only sender of a message for which the form asks this. */
  ghost predicate AsksForAll(lib: Library, before: QueueState, now: QueueState, list: List, form: Form) {
    && before.tables.knowns <= now.tables.knowns && now.tables == before.tables.(knowns := now.tables.knowns)
    && forall k | k in now.tables.knowns && k !in before.tables.knowns ::
         exists name :: AsksFor(lib, list, form, before.files, name, k)
  }

  /** The known senders that an entry adds. */
  lemma EntryAdds(lib: Library, was: QueueState, now: QueueState, list: List, form: Form, e: Entry)
    requires EntryKnowns(lib, was, now, list, form, e)
    ensures forall k | k in now.tables.knowns && k !in was.tables.knowns ::
            e.added && AsksFor(lib, list, form, was.files, e.name, k)
    ensures e.added ==> forall k | AsksFor(lib, list, form, was.files, e.name, k) :: k in now.tables.knowns
  {
    hide SenderIn, AsksToAdd, EqualFold, Messages.ReadMessage;
    if e.added {
      var from := SenderIn(lib, was.files[(list.id, e.name)]).value;
      assert Others(list, [from]) == if list.addr.Equals(from) then [] else [from];
      var others := Others(list, [from]);
      assert forall k | k in Tables.Keys(list, others) :: others == [from] && k == (list.id, from.Spec());
      assert others == [from] ==> (list.id, others[0].Spec()) in Tables.Keys(list, others);
    }
  }

  lemma {:induction false} RunAsks(lib: Library, web: bool, list: List, form: Form, states: seq<QueueState>,
          entries: seq<Entry>, n: nat)
    requires ModRun(lib, web, list, form, states, entries) && n <= |entries|
    ensures AsksForAll(lib, states[0], states[n], list, form)
    decreases n
  {
    hide EntryFiles, EntryMail, EntryKnowns, IsRead, AsksOnDelete, AsksToAdd, SenderIn;
    OnlyKnowns(lib, web, list, form, states, entries, 0, n);
    if n > 0 {
      RunAsks(lib, web, list, form, states, entries, n - 1);
      AtItsTurn(lib, web, list, form, states, entries, n - 1);
      var e := entries[n - 1];
      EntryAdds(lib, states[n - 1], states[n], list, form, e);
      forall k | k in states[n].tables.knowns && k !in states[0].tables.knowns
        ensures exists name :: AsksFor(lib, list, form, states[0].files, name, k)
      {
        if k !in states[n - 1].tables.knowns {
          assert AsksFor(lib, list, form, states[0].files, e.name, k);
        }
      }
    }
  }

  /** Where a file has gone. */
  lemma {:induction false} TurnOfFile(lib: Library, web: bool, list: List, form: Form, states: seq<QueueState>,
          entries: seq<Entry>, n: nat, f: FileKey)
    returns (i: nat)
    requires ModRun(lib, web, list, form, states, entries) && n <= |entries| && f in states[0].files
             && f !in states[n].files
    ensures i < n && f == (list.id, entries[i].name) && (entries[i].deleted || entries[i].passed)
    decreases n
  {
    hide EntryMail, EntryKnowns, IsRead, AsksOnDelete, Chooses;
    assert EntryDone(lib, web, states[n - 1], states[n - 1 + 1], list, form, entries[n - 1]);
    if f in states[n - 1].files {
      i := n - 1;
    } else {
      i := TurnOfFile(lib, web, list, form, states, entries, n - 1, f);
    }
  }

  /** Main result on one request: messages leave the queue only if they were to be deleted, or were forwarded, and never
      change. */
  lemma ModKeepsQueue(lib: Library, web: bool, list: List, form: Form, states: seq<QueueState>, entries: seq<Entry>)
    requires ModRun(lib, web, list, form, states, entries)
    ensures KeepsQueue(lib, web, states[0], Moderation(list, form), states[|entries|])
  {
    hide EntryDone, Chooses, Forwards;
    var n := |entries|;
    NoNewFiles(lib, web, list, form, states, entries, n);
    OnlyKnowns(lib, web, list, form, states, entries, 0, n);
    forall f | f in states[0].files
      ensures if f in states[n].files then states[n].files[f] == states[0].files[f]
              else MayLeave(lib, web, f, states[0].files[f], states[0], Moderation(list, form), states[n])
    {
      if f in states[n].files {
        FilesKept(lib, web, list, form, states, entries, n, f);
      } else {
        var i := TurnOfFile(lib, web, list, form, states, entries, n, f);
        FileGone(lib, web, list, form, states, entries, i);
      }
    }
  }

  lemma {:induction false} NoNewFiles(lib: Library, web: bool, list: List, form: Form, states: seq<QueueState>,
          entries: seq<Entry>, n: nat)
    requires ModRun(lib, web, list, form, states, entries) && n <= |entries|
    ensures states[n].files.Keys <= states[0].files.Keys
    decreases n
  {
    hide EntryMail, EntryKnowns, IsRead, AsksOnDelete, Chooses;
    if n > 0 {
      NoNewFiles(lib, web, list, form, states, entries, n - 1);
      assert EntryDone(lib, web, states[n - 1], states[n - 1 + 1], list, form, entries[n - 1]);
    }
  }

  lemma {:induction false} FilesKept(lib: Library, web: bool, list: List, form: Form, states: seq<QueueState>,
          entries: seq<Entry>, n: nat, f: FileKey)
    requires ModRun(lib, web, list, form, states, entries) && n <= |entries| && f in states[0].files
             && f in states[n].files
    ensures states[n].files[f] == states[0].files[f]
    decreases n
  {
    hide EntryMail, EntryKnowns, IsRead, AsksOnDelete, Chooses;
    if n > 0 {
      assert EntryDone(lib, web, states[n - 1], states[n - 1 + 1], list, form, entries[n - 1]);
      FilesKept(lib, web, list, form, states, entries, n - 1, f);
    }
  }

  lemma FileGone(lib: Library, web: bool, list: List, form: Form, states: seq<QueueState>, entries: seq<Entry>, i: nat)
    requires ModRun(lib, web, list, form, states, entries) && i < |entries| && (entries[i].deleted || entries[i].passed)
    requires (list.id, entries[i].name) in states[0].files
    ensures var f := (list.id, entries[i].name);
            MayLeave(lib, web, f, states[0].files[f], states[0], Moderation(list, form), states[|entries|])
  {
    hide Chooses, Forwards, CanForward, IsRead, EntryKnowns;
    AtItsTurn(lib, web, list, form, states, entries, i);
    if entries[i].passed {
      OnlyKnowns(lib, web, list, form, states, entries, 0, i);
      OnlyKnowns(lib, web, list, form, states, entries, i + 1, |entries|);
      SentAtTurn(lib, web, list, form, states, entries, |states[i].trace|, i);
    }
  }

  /** No operation failed for a reason outside the program. */
  predicate FaultFree(entries: seq<Entry>) {
    forall i | 0 <= i < |entries| :: !entries[i].fault
  }

  predicate Crashes(entries: seq<Entry>) {
    exists i | 0 <= i < |entries| :: entries[i].crashed
  }

  /** The form asks to delete the message of an unreadable file, and to add its sender. */
  ghost predicate HasTrap(files: map<FileKey, string>, list: List, form: Form, name: string) {
    && IsChosen(form, name, "delete") && IsTicked(form, "addknown-delete-" + name)
    && ((list.id, name) in files ==> Messages.ReadMessage(files[(list.id, name)]).Failure?)
  }

  /** The value of the field "action-" and the name of the file. */
  predicate IsChosen(form: Form, name: string, action: string) {
    "action-" + name in form && form["action-" + name] == action
  }

  predicate IsTicked(form: Form, key: string) {
    key in form && form[key] != ""
  }

  /** Main result on the crash of the handler: if nothing fails outside the program, it crashes exactly if the form asks
      to add the sender of a message that is to be deleted and whose file is missing or cannot be parsed. */
  lemma CrashesExactly(lib: Library, web: bool, list: List, form: Form, states: seq<QueueState>, entries: seq<Entry>)
    requires ModRun(lib, web, list, form, states, entries) && FaultFree(entries)
             && (Crashes(entries) || Complete(form, entries))
    ensures Crashes(entries) <==> exists name :: HasTrap(states[0].files, list, form, name)
  {
    hide EntryFiles, EntryMail, EntryKnowns, Messages.ReadMessage;
    if i :| 0 <= i < |entries| && entries[i].crashed {
      AtItsTurn(lib, web, list, form, states, entries, i);
      assert HasTrap(states[0].files, list, form, entries[i].name);
    }
    if name :| HasTrap(states[0].files, list, form, name) {
      TrapsCatch(lib, web, list, form, states, entries, name);
    }
  }

  /** Whatever fails, such a form crashes the handler. */
  lemma TrapsCatch(lib: Library, web: bool, list: List, form: Form, states: seq<QueueState>, entries: seq<Entry>,
          name: string)
    requires ModRun(lib, web, list, form, states, entries) && (Crashes(entries) || Complete(form, entries))
    requires HasTrap(states[0].files, list, form, name)
    ensures Crashes(entries)
  {
    hide EntryFiles, EntryMail, EntryKnowns, Messages.ReadMessage;
    if !Crashes(entries) {
      var k := ACTION_PREFIX + name;
      assert HasPrefix(k, ACTION_PREFIX) && k[|ACTION_PREFIX|..] == name;
      var i :| 0 <= i < |entries| && entries[i].name == name;
      AtItsTurn(lib, web, list, form, states, entries, i);
    }
  }

  /** A form with one entry that crashes the handler: the file was deleted by somebody else meanwhile. */
  lemma CrashingForm(lib: Library, web: bool, list: List, states: seq<QueueState>, entries: seq<Entry>)
    requires var form: Form := map["action-x" := "delete", "addknown-delete-x" := "on"];
             ModRun(lib, web, list, form, states, entries) && (Crashes(entries) || Complete(form, entries))
    requires states[0].files == map[]
    ensures Crashes(entries)
  {
    hide ModRun, Messages.ReadMessage;
    var form: Form := map["action-x" := "delete", "addknown-delete-x" := "on"];
    assert ACTION_PREFIX + "x" == "action-x" && "addknown-delete-" + "x" == "addknown-delete-x"
           && "action-x"[1] == 'c' && "addknown-delete-x"[1] == 'd';
    TrapsCatch(lib, web, list, form, states, entries, "x");
  }

  /** The form takes the file out of the queue. */
  ghost predicate TakesOut(lib: Library, files: map<FileKey, string>, list: List, form: Form, f: FileKey)
    requires f in files
  {
    && f.0 == list.id && f.1 != ""
    && (IsChosen(form, f.1, "delete") || (IsChosen(form, f.1, "pass") && IsForwardable(lib, list, files[f])))
  }

  /** The message can be read, and its senders, if the list shows them. */
  ghost predicate IsForwardable(lib: Library, list: List, text: string) {
    var message := Messages.ReadMessage(text);
    message.Success? && (list.hideFrom || Get(message.value.0, "From") == ""
                         || lib.parseList(Get(message.value.0, "From")).Some?)
  }

  /** The row is for the only sender of a message in the queue, whom the form wants to be known: because this is
      ticked for a message that is to be deleted, on a list that rejects mail of known senders, or for one that is to be
      passed, on a list that lets them pass. */
  ghost predicate IsWanted(lib: Library, list: List, form: Form, files: map<FileKey, string>, name: string, k: RowKey) {
    && (list.id, name) in files
    && var message := Messages.ReadMessage(files[(list.id, name)]);
    && message.Success? && Get(message.value.0, "From") != ""
    && (exists a: Addr ::
       && lib.parseList(Get(message.value.0, "From")) == Some([a])
       && a.Spec() != list.addr.Spec() && k == (list.id, a.Spec()))
    && ((IsChosen(form, name, "delete") && IsTicked(form, "addknown-delete-" + name) && list.actionKnown == Reject)
        || (IsChosen(form, name, "pass") && IsTicked(form, "addknown-pass-" + name) && list.actionKnown == Pass))
  }

  lemma WantedIs(lib: Library, list: List, form: Form, files: map<FileKey, string>, name: string, k: RowKey)
    ensures IsWanted(lib, list, form, files, name, k) <==> AsksFor(lib, list, form, files, name, k)
  {
    hide Messages.ReadMessage, EqualFold, Get;
    if (list.id, name) in files {
      var sender := SenderIn(lib, files[(list.id, name)]);
      var message := Messages.ReadMessage(files[(list.id, name)]);
      if sender.Some? {
        EqualsIffSame(list.addr, sender.value);
        assert AddressesOf(lib, message.value.0, "From").value == [sender.value];
        assert lib.parseList(Get(message.value.0, "From")) == Some([sender.value]);
      }
    }
  }

  /** Why the form offers this: once the sender is known, the messages of this sender get the treatment that the message
      got. If it was passed, they pass unless they are marked as spam; if it was deleted, nothing is treated better
      because the sender is known. */
  lemma SenderIsTreatedAlike(lib: Library, list: List, form: Form, files: map<FileKey, string>, name: string, k: RowKey,
          t: Database, h: HeaderMap, froms: seq<Addr>)
    requires IsWanted(lib, list, form, files, name, k)
    ensures IsChosen(form, name, "pass") && k in t.knowns && (exists f <- froms :: f.Spec() == k.1) ==>
            Decided(t, list, h, froms) == if IsSpam(h) then Mod else Pass
    ensures IsChosen(form, name, "delete") ==>
            Decided(t.(knowns := t.knowns + {k}), list, h, froms) == Decided(t, list, h, froms)
  {
    hide Messages.ReadMessage, Get, IsSpam, Decided;
    DecidedIsMaximum(t, list, h, froms);
    if IsChosen(form, name, "pass") {
      if f :| f in froms && f.Spec() == k.1 && k in t.knowns {
        assert Earns(t, list, f.Spec(), Known, Pass);
      }
    } else {
      var t' := t.(knowns := t.knowns + {k});
      DecidedIsMaximum(t', list, h, froms);
      forall a: Action | a != Reject
        ensures Candidate(t, list, froms, a) <==> Candidate(t', list, froms, a)
      {
        forall from, status
          ensures Earns(t, list, from, status, a) <==> Earns(t', list, from, status, a)
        {
        }
      }
    }
  }

  /** Main result on a request without any failure: in whatever order the entries were visited, exactly the messages
      that were to be deleted, or were to be passed and can be, have left the queue, and exactly the senders asked for
      are known. */
  lemma OrderOfEntriesDoesNotMatter(lib: Library, web: bool, list: List, form: Form, states: seq<QueueState>,
          entries: seq<Entry>)
    requires ModRun(lib, web, list, form, states, entries) && FaultFree(entries) && Complete(form, entries)
    ensures forall f | f in states[0].files :: f in states[|entries|].files <==>
            !TakesOut(lib, states[0].files, list, form, f)
    ensures forall k :: k in states[|entries|].tables.knowns <==>
                        || k in states[0].tables.knowns
                        || exists name :: IsWanted(lib, list, form, states[0].files, name, k)
  {
    assert |states| == |entries| + 1;
    hide ModRun, EntryDone, Complete, TakesOut, AsksFor, IsWanted, FaultFree;
    forall f | f in states[0].files
      ensures f in states[|entries|].files <==> !TakesOut(lib, states[0].files, list, form, f)
    {
      FileOutcome(lib, web, list, form, states, entries, f);
    }
    RunAsks(lib, web, list, form, states, entries, |entries|);
    forall k, name | AsksFor(lib, list, form, states[0].files, name, k)
      ensures k in states[|entries|].tables.knowns
    {
      KnownOutcome(lib, web, list, form, states, entries, name, k);
    }
    forall k, name
      ensures IsWanted(lib, list, form, states[0].files, name, k) <==>
              AsksFor(lib, list, form, states[0].files, name, k)
    {
      WantedIs(lib, list, form, states[0].files, name, k);
    }
  }

  lemma ForwardedCanBe(lib: Library, t: Database, web: bool, list: List, text: string, e: Event)
    requires Forwards(lib, t, web, list, text, e)
    ensures CanForward(lib, list, text)
  {
    hide Messages.ReadMessage, AddressesOf, SameButContent, IsRewritten;
  }

  /** The turn of a name in the form. */
  lemma TurnOfName(form: Form, entries: seq<Entry>, name: string) returns (i: nat)
    requires Complete(form, entries) && ACTION_PREFIX + name in form
    ensures i < |entries| && entries[i].name == name
  {
    var k := ACTION_PREFIX + name;
    assert HasPrefix(k, ACTION_PREFIX) && k[|ACTION_PREFIX|..] == name;
    i :| 0 <= i < |entries| && entries[i].name == name;
  }

  lemma FileOutcome(lib: Library, web: bool, list: List, form: Form, states: seq<QueueState>, entries: seq<Entry>,
          f: FileKey)
    requires ModRun(lib, web, list, form, states, entries) && FaultFree(entries) && Complete(form, entries)
             && f in states[0].files
    ensures f in states[|entries|].files <==> !TakesOut(lib, states[0].files, list, form, f)
  {
    hide EntryKnowns, Forwards, Messages.ReadMessage, Get, Complete;
    if f.0 == list.id && ACTION_PREFIX + f.1 in form {
      var i := TurnOfName(form, entries, f.1);
      AtItsTurn(lib, web, list, form, states, entries, i);
      if entries[i].passed {
        ForwardedCanBe(lib, states[i].tables, web, list, states[i].files[f], states[i + 1].trace[|states[i].trace|]);
      }
      Untouched(lib, web, list, form, states, entries, i + 1, |entries|, f);
    } else {
      Untouched(lib, web, list, form, states, entries, 0, |entries|, f);
    }
  }

  lemma KnownOutcome(lib: Library, web: bool, list: List, form: Form, states: seq<QueueState>, entries: seq<Entry>,
          name: string, k: RowKey)
    requires ModRun(lib, web, list, form, states, entries) && FaultFree(entries) && Complete(form, entries)
    requires AsksFor(lib, list, form, states[0].files, name, k)
    ensures k in states[|entries|].tables.knowns
  {
    hide EntryFiles, EntryMail, Messages.ReadMessage, Complete, Effect, SingleFrom, EqualFold;
    var i := TurnOfName(form, entries, name);
    AtItsTurn(lib, web, list, form, states, entries, i);
    EntryAdds(lib, states[i], states[i + 1], list, form, entries[i]);
    OnlyKnowns(lib, web, list, form, states, entries, i + 1, |entries|);
  }
}
