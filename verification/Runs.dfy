/** What can be asked of the server, and what holds of every run of requests. */
module Runs {
  import opened Addresses
  import opened ListDBs
  import opened Macs
  import opened Moderations
  import opened Reader
  import opened Tables
  import opened Text
  import opened Ulists
  import Headers
  import Lmtp
  import Messages

  /** What somebody presents as the tag of a link: nothing readable, one that the server has issued, or something made
      up. */
  datatype Link = Unreadable | Issued(event: nat) | MadeUp(bytes: string)

  datatype Request =
    // LMTP commands
    | Rset
    | MailFrom(sender: string, logId: nat)
    | RcptTo(recipient: string)
    | DataOf(text: string)
    // web pages of a list
    | AskToJoin(list: Addr, user: Option<AddrSpec>, email: Option<AddrSpec>)
    | AskToLeave(list: Addr, user: Option<AddrSpec>, email: Option<AddrSpec>)
    | Confirm(list: Addr, address: Option<Addr>, timestamp: Option<int>, link: Link, joins: bool, yes: bool)
    | Moderate(list: Addr, form: Form)
    // administration
    | CreateList(address: Option<Addr>, name: string, hmacKey: Option<string>)
    | UpdateList(list: Addr, settings: List)
    | DeleteList(list: Addr)
    | AddMembers(list: Addr, welcome: bool, addrs: seq<Addr>, flags: Flags)
    | RemoveMembers(list: Addr, goodbye: bool, addrs: seq<Addr>)
    | UpdateMember(list: Addr, address: Option<Addr>, flags: Flags)
    | AddKnowns(list: Addr, addrs: seq<Addr>)
    | RemoveKnowns(list: Addr, addrs: seq<Addr>)

  /** The tag that is presented. */
  function Presented(lib: Library, trace: seq<Event>, link: Link): Option<Tag> {
    match link
    case Unreadable => None
    case MadeUp(bytes) => Some(Forgery(bytes))
    case Issued(i) =>
      if i < |trace| && trace[i].Issued? then Some(LinkTag(lib, trace[i].list, trace[i].addr, trace[i].timestamp))
      else None
  }

  lemma PresentedIsUnforged(lib: Library, trace: seq<Event>, link: Link)
    ensures var tag := Presented(lib, trace, link);
            tag.Some? ==> Unforged(lib, trace, tag.value)
  {
    hide LinkTag;
  }

  /** The envelope sender of the current transaction. */
  function NextSender(sender: Option<string>, request: Request): Option<string> {
    match request
    case Rset => None
    case MailFrom(s, _) => Some(s)
    case _ => sender
  }

  function SenderAfter(sender: Option<string>, requests: seq<(Request, int)>): Option<string> {
    if requests == [] then sender
    else NextSender(SenderAfter(sender, requests[..|requests| - 1]), requests[|requests| - 1].0)
  }

  /** Which steps a request can be: a delivery of the message, as a bounce exactly if the sender is blank, or a request
      of a moderator, or anything else. */
  ghost predicate StepOf(request: Request, sender: Option<string>, step: QueueStep) {
    match step
    case Other => true
    case Delivery(isBounce, _, h, body, _, _, _) =>
      && request.DataOf? && Messages.ReadMessage(request.text) == Success((h, body))
      && isBounce == (sender.Some? && Lmtp.IsBlank(sender.value))
    case Moderation(list, form) => request.Moderate? && request.form == form && request.list.Spec() == list.addr.Spec()
  }

  /** What holds in every state of every run. */
  ghost predicate Safe(s: QueueState) {
    Consistent(s.tables) && OptIn(s.trace)
  }

  lemma ConsistentIsUnique(t: Database)
    requires Consistent(t)
    ensures UniqueAddresses(t)
  {
  }

  lemma ListIsExisting(t: Database, a: AddrSpec)
    requires Consistent(t) && ListAt(t, a).Some?
    ensures Existing(t, ListAt(t, a).value)
  {
    hide GoodRow, HasSuffix;
  }

  /** The rows for known senders that moderators add are good. */
  lemma AskedRowsAreGood(lib: Library, before: QueueState, now: QueueState, list: List, form: Form)
    requires Consistent(before.tables) && Existing(before.tables, list) && AsksForAll(lib, before, now, list, form)
    ensures Consistent(now.tables)
  {
    hide EqualFold, HasSuffix, AsksToAdd, SenderIn;
    forall k | k in now.tables.knowns
      ensures GoodRow(now.tables, k)
    {
      if k in before.tables.knowns {
        assert GoodRow(before.tables, k);
      }
    }
    forall k | k in now.tables.members
      ensures GoodRow(now.tables, k)
    {
      assert GoodRow(before.tables, k);
    }
  }

  /** `e` notifies somebody of something about the list. */
  ghost predicate IsNotice(lib: Library, list: List, e: Event) {
    exists recipient, subject :: IsNotification(lib, list, recipient, subject, e)
  }

  /** `e` is an attempt to forward a message of the queue that was to be passed. */
  ghost predicate ForwardsPassed(lib: Library, web: bool, before: QueueState, list: List, form: Form, e: Event) {
    exists name ::
      && Chooses(form, name, "pass") && (list.id, name) in before.files
      && Forwards(lib, before.tables, web, list, before.files[(list.id, name)], e)
  }

  ghost predicate IsNoticeOfList(lib: Library, t: Database, e: Event) {
    exists list :: Existing(t, list) && IsNotice(lib, list, e)
  }

  /** What a step may send. */
  ghost predicate MailFits(lib: Library, web: bool, before: QueueState, step: QueueStep, after: QueueState) {
    && before.trace <= after.trace
    && var added := after.trace[|before.trace|..];
    match step
    case Other => forall e <- added | e.Sent? :: IsNoticeOfList(lib, before.tables, e)
    case Delivery(isBounce, lists, h, body, now, code, blocks) =>
      added == Lmtp.Flat(blocks)
          && Lmtp.Transacted(lib, before.tables, web, isBounce, lists, h, body, now, code, blocks)
    case Moderation(list, form) => forall e <- added :: ForwardsPassed(lib, web, before, list, form, e)
  }

  ghost predicate MailRun(lib: Library, web: bool, states: seq<QueueState>, steps: seq<QueueStep>) {
    && |states| == |steps| + 1
    && forall i | 0 <= i < |steps| :: MailFits(lib, web, states[i], steps[i], states[i + 1])
  }

  /** Why a mail was sent: as a notification about a list, as a bounce that came in, as a message that came in and was
      decided to pass, or as a message of the queue that a moderator has passed. */
  ghost predicate Reason(lib: Library, web: bool, before: QueueState, step: QueueStep, e: Event) {
    match step
    case Other => IsNoticeOfList(lib, before.tables, e)
    case Delivery(isBounce, lists, h, body, _, _, _) =>
      if isBounce then exists list <- lists :: Lmtp.IsBounceOf(lib, before.tables, list, h, body, e)
      else exists list <- lists ::
        || IsNotice(lib, list, e)
        || (Lmtp.IsToBe(lib, before.tables, false, list, h, Pass)
           && Lmtp.IsForwardOf(lib, before.tables, web, list, h, body, e))
    case Moderation(list, form) => ForwardsPassed(lib, web, before, list, form, e)
  }

  /** Main result on the mail of a run: every mail was sent at one step for a reason, and an empty envelope sender is
      only used by bounce transactions, that is, to pass on a bounce to the bounce notifieds. */
  lemma EveryMailHasItsReason(lib: Library, web: bool, states: seq<QueueState>, steps: seq<QueueStep>, k: nat)
    requires MailRun(lib, web, states, steps)
    requires |states[0].trace| <= k < |states[|steps|].trace| && states[|steps|].trace[k].Sent?
    ensures exists i ::
              && 0 <= i < |steps| && |states[i].trace| <= k < |states[i + 1].trace|
              && Reason(lib, web, states[i], steps[i], states[|steps|].trace[k])
              && (states[|steps|].trace[k].from == None ==> steps[i].Delivery? && steps[i].isBounce)
  {
    hide Reason, MailFits;
    var i := StepOfEvent(lib, web, states, steps, |steps|, k);
    var e := states[|steps|].trace[k];
    MailFitsAt(lib, web, states[i], steps[i], states[i + 1], k);
    if e.from == None {
      EmptySender(lib, web, states[i], steps[i], e);
    }
  }

  lemma {:induction false} StepOfEvent(lib: Library, web: bool, states: seq<QueueState>, steps: seq<QueueStep>, n: nat,
          k: nat)
    returns (i: nat)
    requires MailRun(lib, web, states, steps) && n <= |steps| && |states[0].trace| <= k < |states[n].trace|
    ensures i < n && |states[i].trace| <= k < |states[i + 1].trace| && states[i + 1].trace[k] == states[n].trace[k]
    decreases n
  {
    hide Lmtp.Transacted, IsNoticeOfList, ForwardsPassed;
    assert MailFits(lib, web, states[n - 1], steps[n - 1], states[n - 1 + 1]);
    if k < |states[n - 1].trace| {
      i := StepOfEvent(lib, web, states, steps, n - 1, k);
    } else {
      i := n - 1;
    }
  }

  lemma MailFitsAt(lib: Library, web: bool, before: QueueState, step: QueueStep, after: QueueState, k: nat)
    requires MailFits(lib, web, before, step, after) && |before.trace| <= k < |after.trace| && after.trace[k].Sent?
    ensures Reason(lib, web, before, step, after.trace[k])
  {
    hide Lmtp.Transacted, Lmtp.Flat, IsNoticeOfList, ForwardsPassed, IsNotice, Lmtp.IsForwardOf, Lmtp.IsBounceOf,
         Lmtp.Decide, Lmtp.IsToBe;
    var e := after.trace[k];
    assert after.trace[|before.trace|..][k - |before.trace|] == e;
    if step.Delivery? {
      var blocks := step.blocks;
      var j := InBlock(blocks, e);
      BlockReason(lib, before.tables, web, step.isBounce, step.lists, step.header, step.body, step.now, step.code,
            blocks, j, e);
    }
  }

  lemma {:induction false} InBlock(blocks: seq<seq<Event>>, e: Event) returns (j: nat)
    requires e in Lmtp.Flat(blocks)
    ensures j < |blocks| && e in blocks[j]
  {
    var n := |blocks| - 1;
    if e in blocks[n] {
      j := n;
    } else {
      j := InBlock(blocks[..n], e);
    }
  }

  lemma BlockReason(lib: Library, t: Database, web: bool, isBounce: bool, lists: seq<List>, h: Headers.HeaderMap,
          body: string, now: int, code: Option<nat>, blocks: seq<seq<Event>>, j: nat, e: Event)
    requires Lmtp.Transacted(lib, t, web, isBounce, lists, h, body, now, code, blocks) && j < |blocks|
             && e in blocks[j] && e.Sent?
    ensures j < |lists| && lists[j] in lists
    ensures var list := lists[j];
            if isBounce then Lmtp.IsBounceOf(lib, t, list, h, body, e)
            else
              || IsNotice(lib, list, e)
              || (Lmtp.IsToBe(lib, t, false, list, h, Pass) && Lmtp.IsForwardOf(lib, t, web, list, h, body, e))
  {
    hide Lmtp.IsToBe, Lmtp.IsForwardOf, Lmtp.IsBounceOf, IsNotice, Lmtp.IsModeration, Lmtp.Decide, Lmtp.Asked,
         Lmtp.AskFailed;
    var list, d, events := lists[j], Lmtp.Decide(lib, t, isBounce, lists[j], h), blocks[j];
    DecideKind(lib, t, isBounce, list, h);
    Lmtp.DecideIs(lib, t, false, list, h);
    if d.Moderate? && Lmtp.IsModeration(lib, t, list, events) {
      ModerationNotifies(lib, t, list, events, e);
    } else if d.AskJoin? {
      AskNotifies(lib, web, list, d.addr, true, now, events, e);
    } else if d.AskLeave? {
      AskNotifies(lib, web, list, d.addr, false, now, events, e);
    }
  }

  lemma DecideKind(lib: Library, t: Database, isBounce: bool, list: List, h: Headers.HeaderMap)
    ensures Lmtp.Decide(lib, t, isBounce, list, h).Bounce? == isBounce
    ensures !isBounce ==> Lmtp.Decide(lib, t, isBounce, list, h) == Lmtp.Decide(lib, t, false, list, h)
  {
    hide AddressesOf, Lmtp.Command;
  }

  lemma AskNotifies(lib: Library, web: bool, list: List, a: AddrSpec, joins: bool, now: int, events: seq<Event>,
          e: Event)
    requires Lmtp.Asked(lib, web, list, a, joins, now, events)
             || Lmtp.AskFailed(lib, web, list, a, joins, now, events)
    requires e in events && e.Sent?
    ensures IsNotice(lib, list, e)
  {
    hide IsNotification;
  }

  lemma ModerationNotifies(lib: Library, t: Database, list: List, events: seq<Event>, e: Event)
    requires Lmtp.IsModeration(lib, t, list, events) && e in events && e.Sent?
    ensures IsNotice(lib, list, e)
  {
    hide IsNotification;
    var i :| 0 <= i < |events| && events[i] == e;
    assert i > 0 && events[1..][i - 1] == e;
  }

  lemma EmptySender(lib: Library, web: bool, before: QueueState, step: QueueStep, e: Event)
    requires Reason(lib, web, before, step, e) && e.Sent? && e.from == None
    ensures step.Delivery? && step.isBounce
  {
    hide IsForwardHeader, IsRewritten, Lmtp.IsToBe, Messages.ReadMessage;
  }

  /** Who has put a message into the queue. */
  lemma DeliveryEnters(lib: Library, web: bool, before: QueueState, step: QueueStep, now: QueueState, f: FileKey)
    requires step.Delivery? && MailFits(lib, web, before, step, now)
    requires Lmtp.QueueGrows(before.files, now.files, Lmtp.Flat(step.blocks),
               Messages.SavedText(step.header, step.body))
    requires f in now.files && f !in before.files
    ensures MayEnter(lib, f, now.files[f], before, step)
  {
    hide Lmtp.Decide, Lmtp.IsToBe, Lmtp.Flat, Lmtp.Done, Lmtp.Failed, Messages.SavedText;
    var e :| e in Lmtp.Flat(step.blocks) && Lmtp.PutsInQueue(e, f);
    var j := InBlock(step.blocks, e);
    var list, d := step.lists[j], Lmtp.Decide(lib, before.tables, step.isBounce, step.lists[j], step.header);
    OnlyModerationStores(lib, before.tables, web, list, step.header, step.body, step.now, d,
                         if step.code.Some? then step.code.value else 0, step.blocks[j], e);
    Lmtp.DecideIs(lib, before.tables, step.isBounce, list, step.header);
    assert list in step.lists;
  }

  lemma OnlyModerationStores(lib: Library, t: Database, web: bool, list: List, h: Headers.HeaderMap, body: string,
          now: int, d: Lmtp.Decision, code: nat, events: seq<Event>, e: Event)
    requires Lmtp.Done(lib, t, web, list, h, body, now, d, events)
             || Lmtp.Failed(lib, t, web, list, h, body, now, d, code, events)
    requires e in events && (e.Stored? || e.Leftover?)
    ensures d.Moderate? && e.file.0 == list.id
  {
    hide Lmtp.BounceHeader, NotifyHeader, IsForwardHeader, IsRewritten, AskSubject, MembersWith;
    if d.Moderate? && Lmtp.Done(lib, t, web, list, h, body, now, d, events) {
      assert events == [events[0]] + events[1..];
    }
  }

  lemma DeliveryKeepsQueue(lib: Library, web: bool, before: QueueState, step: QueueStep, now: QueueState)
    requires step.Delivery? && MailFits(lib, web, before, step, now)
    requires Lmtp.QueueGrows(before.files, now.files, Lmtp.Flat(step.blocks),
               Messages.SavedText(step.header, step.body))
    ensures KeepsQueue(lib, web, before, step, now)
  {
    hide Lmtp.Transacted, Lmtp.Flat, MayEnter, MayLeave, Messages.SavedText, IsNoticeOfList, ForwardsPassed;
    forall f | f in now.files && f !in before.files
      ensures MayEnter(lib, f, now.files[f], before, step)
    {
      DeliveryEnters(lib, web, before, step, now, f);
    }
  }

  /** `op` is the operation of an administrative request, on the list that it is about. */
  ghost predicate Administers(request: Request, t: Database, op: Operation) {
    match request
    case CreateList(address, name, hmacKey) =>
      && address.Some? && hmacKey.Some? && op.Create?
      && op == Operation.Create(op.id, Named(address.value, name), hmacKey.value) && MayCreate(t, op.id, op.addr)
    case UpdateList(a, settings) => op.Update? && IsAbout(t, op.list, a) && op.settings == settings
    case DeleteList(a) => op.Delete? && IsAbout(t, op.list, a)
    case AddMembers(a, _, addrs, flags) =>
      op.AddMembers? && IsAbout(t, op.list, a) && op.addrs == addrs && op.flags == flags
    case RemoveMembers(a, _, addrs) => op.RemoveMembers? && IsAbout(t, op.list, a) && op.addrs == addrs
    case UpdateMember(a, address, flags) =>
      op.UpdateMember? && IsAbout(t, op.list, a) && Some(op.addr) == address && op.flags == flags
    case AddKnowns(a, addrs) => op.AddKnowns? && IsAbout(t, op.list, a) && op.addrs == addrs
    case RemoveKnowns(a, addrs) => op.RemoveKnowns? && IsAbout(t, op.list, a) && op.addrs == addrs
    case _ => false
  }

  /** The list is in the tables, at the address of the request. */
  ghost predicate IsAbout(t: Database, list: List, a: Addr) {
    Existing(t, list) && list.addr.Spec() == a.Spec()
  }

  /** What a confirmation does to the tables. */
  function ConfirmOperation(list: List, a: Addr, joins: bool): Operation {
    if joins then Operation.AddMembers(list, [a], Flags(true, false, false, false, false))
    else Operation.RemoveMembers(list, [a])
  }

  /** The confirmation of the request was recorded, and done. */
  ghost predicate IsConfirmed(request: Request, now: int, before: QueueState, after: QueueState) {
    && request.Confirm? && request.address.Some? && before.trace < after.trace
    && NoneConfirmed(after.trace[|before.trace|..|after.trace| - 1])
    && exists list ::
      && IsAbout(before.tables, list, request.list)
      && after.trace[|after.trace| - 1] == Confirmed(list, request.address.value.Spec(), now, request.joins)
      && after.tables == Effect(before.tables, ConfirmOperation(list, request.address.value, request.joins))
      && HasChangedOver(before.tables, after.tables, (list.id, request.address.value.Spec()), request.joins)
  }

  /** No confirmation was recorded. */
  ghost predicate NoConfirmation(before: seq<Event>, after: seq<Event>) {
    before <= after && NoneConfirmed(after[|before|..])
  }

  ghost predicate AsksForSome(lib: Library, request: Request, before: QueueState, after: QueueState) {
    request.Moderate? && exists list ::
        IsAbout(before.tables, list, request.list) && AsksForAll(lib, before, after, list, request.form)
  }

  /** What a request may do to the tables: nothing, or the whole of its own operation. A confirmation is done exactly if
      it is recorded. */
  ghost predicate TablesFit(lib: Library, request: Request, now: int, before: QueueState, after: QueueState) {
    || IsConfirmed(request, now, before, after)
    || (NoConfirmation(before.trace, after.trace)
        && (|| after.tables == before.tables
            || AsksForSome(lib, request, before, after)
            || exists op :: Administers(request, before.tables, op) && after.tables == Effect(before.tables, op)))
  }

  ghost predicate TableRun(lib: Library, requests: seq<(Request, int)>, states: seq<QueueState>) {
    && |states| == |requests| + 1
    && forall i | 0 <= i < |requests| :: TablesFit(lib, requests[i].0, requests[i].1, states[i], states[i + 1])
  }

  /** An administrative request has added or removed this member, or removed the list. */
  ghost predicate ChangedByAdmin(request: Request, before: QueueState, after: QueueState, k: RowKey) {
    exists list :: Existing(before.tables, list) && list.id == k.0
        && match request
           case AddMembers(a, _, addrs, _) => a.Spec() == list.addr.Spec() && Among(addrs, k.1) && IsMember(after, k)
           case RemoveMembers(a, _, addrs) => a.Spec() == list.addr.Spec() && Among(addrs, k.1) && !IsMember(after, k)
           case DeleteList(a) => a.Spec() == list.addr.Spec() && !IsMember(after, k)
           case _ => false
  }

  predicate Among(addrs: seq<Addr>, a: AddrSpec) {
    exists x <- addrs :: x.Spec() == a
  }

  /** The member has followed a link that was issued for this list and address no longer than seven days before. */
  ghost predicate ChangedByLink(now: int, before: QueueState, after: QueueState, k: RowKey) {
    && after.trace != []
    && var n := |after.trace| - 1;
       && after.trace[n].Confirmed? && after.trace[n].list.id == k.0 && after.trace[n].addr == k.1
          && after.trace[n].at == now
       && after.trace[n].joins == (k in after.tables.members)
       && exists j | 0 <= j < n :: Entitles(after.trace[j], after.trace[n].list, k.1, now)
  }

  ghost predicate IsMember(s: QueueState, k: RowKey) {
    k in s.tables.members
  }

  /** Main result on membership: over every run, whoever has become or ceased to be a member did so by an administrative
      request, or by following a link that was issued for this list and address within seven days. */
  lemma {:induction false} MembershipHasItsReason(lib: Library, requests: seq<(Request, int)>, states: seq<QueueState>,
          k: RowKey, i: nat, j: nat)
    requires TableRun(lib, requests, states) && forall s <- states :: Safe(s)
    requires i <= j < |states| && IsMember(states[i], k) != IsMember(states[j], k)
    ensures exists m ::
              && i <= m < j && IsMember(states[m], k) != IsMember(states[m + 1], k)
              && (ChangedByAdmin(requests[m].0, states[m], states[m + 1], k)
                 || ChangedByLink(requests[m].1, states[m], states[m + 1], k))
    decreases j
  {
    hide ChangedByAdmin, ChangedByLink, IsMember, Safe, TablesFit;
    if IsMember(states[i], k) != IsMember(states[j - 1], k) {
      MembershipHasItsReason(lib, requests, states, k, i, j - 1);
    } else {
      var m := j - 1;
      assert TablesFit(lib, requests[m].0, requests[m].1, states[m], states[m + 1]);
      assert states[m] in states && states[m + 1] in states;
      StepChangesMember(lib, requests[m].0, requests[m].1, states[m], states[m + 1], k);
    }
  }

  /** The other way round: a confirmation that was recorded has been done, and nothing else has been done with it. */
  lemma ConfirmationIsDone(lib: Library, requests: seq<(Request, int)>, states: seq<QueueState>, m: nat, k: nat)
    requires TableRun(lib, requests, states) && m < |requests|
    requires |states[m].trace| <= k < |states[m + 1].trace| && states[m + 1].trace[k].Confirmed?
    ensures var e := states[m + 1].trace[k];
            HasChangedOver(states[m].tables, states[m + 1].tables, (e.list.id, e.addr), e.joins)
  {
    hide HasChangedOver, AsksForSome, Administers, Effect, IsAbout;
    var before, after := states[m], states[m + 1];
    LastOrAmong(after.trace, |before.trace|, k);
    assert TablesFit(lib, requests[m].0, requests[m].1, before, after);
  }

  lemma LastOrAmong(trace: seq<Event>, n: nat, k: nat)
    requires n <= k < |trace|
    ensures k == |trace| - 1 || trace[k] in trace[n..|trace| - 1]
    ensures trace[k] in trace[n..]
  {
    assert trace[n..][k - n] == trace[k];
    if k < |trace| - 1 {
      assert trace[n..|trace| - 1][k - n] == trace[k];
    }
  }

  lemma StepChangesMember(lib: Library, request: Request, now: int, before: QueueState, after: QueueState, k: RowKey)
    requires TablesFit(lib, request, now, before, after) && Safe(after)
    requires IsMember(before, k) != IsMember(after, k)
    ensures ChangedByAdmin(request, before, after, k) || ChangedByLink(now, before, after, k)
  {
    hide Consistent, Entitles, AsksFor, EqualFold, NoConfirmation, Others, Existing, MayCreate, NoneConfirmed;
    if IsConfirmed(request, now, before, after) {
      var n := |after.trace| - 1;
      var list :| IsAbout(before.tables, list, request.list)
        && after.trace[n] == Confirmed(list, request.address.value.Spec(), now, request.joins)
        && after.tables == Effect(before.tables, ConfirmOperation(list, request.address.value, request.joins));
      OneRow(list, request.address.value);
    } else if !AsksForSome(lib, request, before, after) {
      var op :| Administers(request, before.tables, op) && after.tables == Effect(before.tables, op);
      OperationChangesMember(before.tables, op, k);
    }
  }

  lemma OneRow(list: List, a: Addr)
    ensures Tables.Keys(list, [a]) == {(list.id, a.Spec())}
            && Tables.Keys(list, Others(list, [a])) <= {(list.id, a.Spec())}
  {
    hide EqualFold;
    assert Others(list, [a]) == [] || Others(list, [a]) == [a];
    assert [a][0] == a;
  }

  lemma OperationChangesMember(t: Database, op: Operation, k: RowKey)
    requires (k in t.members) != (k in Effect(t, op).members)
    ensures op.AddMembers? || op.RemoveMembers? || op.Delete?
    ensures op.list.id == k.0 && (op.Delete? || Among(op.addrs, k.1))
    ensures k in Effect(t, op).members <==> op.AddMembers?
  {
    hide EqualFold, MayCreate, Others, Tables.Keys;
    if op.AddMembers? {
      AddedRows(t, op.list, op.addrs, op.flags);
    } else if op.RemoveMembers? {
      RemovedRows(t, op.list, op.addrs);
    }
  }

  /** An administrative request has added or removed this known sender, or removed the list. */
  ghost predicate KnownByAdmin(request: Request, before: QueueState, after: QueueState, k: RowKey) {
    exists list :: Existing(before.tables, list) && list.id == k.0
        && match request
           case AddKnowns(a, addrs) => a.Spec() == list.addr.Spec() && Among(addrs, k.1) && IsKnown(after, k)
           case RemoveKnowns(a, addrs) => a.Spec() == list.addr.Spec() && Among(addrs, k.1) && !IsKnown(after, k)
           case DeleteList(a) => a.Spec() == list.addr.Spec() && !IsKnown(after, k)
           case _ => false
  }

  /** A moderator of the list has wanted the sender of a message in the queue to be known. */
  ghost predicate KnownByForm(lib: Library, request: Request, before: QueueState, after: QueueState, k: RowKey) {
    && request.Moderate? && IsKnown(after, k)
    && exists list, name ::
      IsAbout(before.tables, list, request.list) && IsWanted(lib, list, request.form, before.files, name, k)
  }

  ghost predicate IsKnown(s: QueueState, k: RowKey) {
    k in s.tables.knowns
  }

  /** Main result on known senders: over every run, whoever has become or ceased to be a known sender did so by an
      administrative request, or as the sender of a message in the queue for whom a moderator has ticked this. */
  lemma {:induction false} KnowingHasItsReason(lib: Library, requests: seq<(Request, int)>, states: seq<QueueState>,
          k: RowKey, i: nat, j: nat)
    requires TableRun(lib, requests, states) && i <= j < |states| && IsKnown(states[i], k) != IsKnown(states[j], k)
    ensures exists m ::
              && i <= m < j && IsKnown(states[m], k) != IsKnown(states[m + 1], k)
              && (KnownByAdmin(requests[m].0, states[m], states[m + 1], k)
                  || KnownByForm(lib, requests[m].0, states[m], states[m + 1], k))
    decreases j
  {
    hide KnownByAdmin, KnownByForm, IsKnown, TablesFit;
    if IsKnown(states[i], k) != IsKnown(states[j - 1], k) {
      KnowingHasItsReason(lib, requests, states, k, i, j - 1);
    } else {
      var m := j - 1;
      assert TablesFit(lib, requests[m].0, requests[m].1, states[m], states[m + 1]);
      StepChangesKnown(lib, requests[m].0, requests[m].1, states[m], states[m + 1], k);
    }
  }

  lemma StepChangesKnown(lib: Library, request: Request, now: int, before: QueueState, after: QueueState, k: RowKey)
    requires TablesFit(lib, request, now, before, after) && IsKnown(before, k) != IsKnown(after, k)
    ensures KnownByAdmin(request, before, after, k) || KnownByForm(lib, request, before, after, k)
  {
    hide AsksFor, IsWanted, NoConfirmation, Existing, MayCreate, NoneConfirmed, Effect;
    if AsksForSome(lib, request, before, after) {
      var list :| IsAbout(before.tables, list, request.list)
          && AsksForAll(lib, before, after, list, request.form);
      var name :| AsksFor(lib, list, request.form, before.files, name, k);
      WantedIs(lib, list, request.form, before.files, name, k);
    } else {
      var op :| Administers(request, before.tables, op) && after.tables == Effect(before.tables, op);
      OperationChangesKnown(before.tables, op, k);
    }
  }

  lemma OperationChangesKnown(t: Database, op: Operation, k: RowKey)
    requires (k in t.knowns) != (k in Effect(t, op).knowns)
    ensures op.AddKnowns? || op.RemoveKnowns? || op.Delete?
    ensures op.list.id == k.0 && (op.Delete? || Among(op.addrs, k.1))
    ensures k in Effect(t, op).knowns <==> op.AddKnowns?
  {
    hide EqualFold, MayCreate, Others, Tables.Keys;
    if op.AddKnowns? {
      AddedRows(t, op.list, op.addrs, Flags(false, false, false, false, false));
    } else if op.RemoveKnowns? {
      RemovedRows(t, op.list, op.addrs);
    }
  }

  /** Main result on what moderators pass: over every run that begins with an empty queue, the message that a moderator
      passes was delivered before, to a list with the same id, and decided to be moderated. */
  lemma PassedWasDelivered(lib: Library, web: bool, states: seq<QueueState>, steps: seq<QueueStep>, m: nat, e: Event)
    requires QueueRun(lib, web, states, steps) && states[0].files == map[] && m < |steps|
    requires steps[m].Moderation? && Reason(lib, web, states[m], steps[m], e)
    ensures exists name, i :: 0 <= i < m && PassedAt(lib, web, states, steps, steps[m].list, name, i, m, e)
  {
    RunLengths(lib, web, states, steps);
    hide QueueRun, EnteredAt, Forwards;
    var list, form := steps[m].list, steps[m].form;
    var name :| Chooses(form, name, "pass") && (list.id, name) in states[m].files
                && Forwards(lib, states[m].tables, web, list, states[m].files[(list.id, name)], e);
    EveryFileWasDelivered(lib, web, states, steps, (list.id, name), m);
    var i :| 0 <= i < m && EnteredAt(lib, states, steps, (list.id, name), i, m);
    assert PassedAt(lib, web, states, steps, list, name, i, m, e);
  }

  lemma RunLengths(lib: Library, web: bool, states: seq<QueueState>, steps: seq<QueueStep>)
    requires QueueRun(lib, web, states, steps)
    ensures |states| == |steps| + 1
  {
  }

  /** `e` forwards the message of a file that entered the queue at step `i`. */
  ghost predicate PassedAt(lib: Library, web: bool, states: seq<QueueState>, steps: seq<QueueStep>, list: List,
          name: string, i: nat, m: nat, e: Event)
    requires |states| == |steps| + 1 && i < m < |states|
  {
    && (list.id, name) in states[m].files
    && EnteredAt(lib, states, steps, (list.id, name), i, m)
    && Forwards(lib, states[m].tables, web, list, states[m].files[(list.id, name)], e)
  }

  ghost predicate StepFits(lib: Library, web: bool, request: Request, now: int, sender: Option<string>,
          before: QueueState, step: QueueStep, after: QueueState)
  {
    && StepOf(request, sender, step) && KeepsQueue(lib, web, before, step, after)
    && MailFits(lib, web, before, step, after) && TablesFit(lib, request, now, before, after)
  }

  lemma RequestGrows(u: Ulist, list: List, a: AddrSpec, joins: bool, now: int, before: seq<Event>,
          after: seq<Event>, fine: bool)
    requires IsRequest(u, list, a, joins, now, before, after, fine)
    ensures NewNotices(u.lib, list, before, after) && NoConfirmation(before, after)
  {
    hide NotifyHeader, AskSubject;
  }

  lemma StepOfNothing(lib: Library, web: bool, request: Request, now: int, sender: Option<string>, s: QueueState)
    ensures StepFits(lib, web, request, now, sender, s, Other, s)
  {
    hide Administers, AsksForSome, IsConfirmed;
  }

  /** New events that only tell about a list. */
  ghost predicate NewNotices(lib: Library, list: List, before: seq<Event>, after: seq<Event>) {
    before <= after && forall e <- after[|before|..] | e.Sent? :: IsNotice(lib, list, e)
  }

  lemma NoticesFit(lib: Library, web: bool, request: Request, now: int, sender: Option<string>, before: QueueState,
          after: QueueState, list: List)
    requires Existing(before.tables, list) && NewNotices(lib, list, before.trace, after.trace)
    requires after.files == before.files && TablesFit(lib, request, now, before, after)
    ensures StepFits(lib, web, request, now, sender, before, Other, after)
  {
    hide IsNotice, Existing, TablesFit;
  }

  /** Administration that is not told to anybody. */
  lemma SilentFit(lib: Library, web: bool, request: Request, now: int, sender: Option<string>, before: QueueState,
          after: QueueState)
    requires after.files == before.files && after.trace == before.trace
    requires after.tables == before.tables
             || exists op :: Administers(request, before.tables, op) && after.tables == Effect(before.tables, op)
    ensures StepFits(lib, web, request, now, sender, before, Other, after)
  {
    hide Administers, AsksForSome, IsConfirmed, Effect;
  }

  lemma DeliveryTables(lib: Library, web: bool, request: Request, now: int, before: QueueState, step: QueueStep,
          after: QueueState)
    requires step.Delivery? && MailFits(lib, web, before, step, after) && after.tables == before.tables
    ensures TablesFit(lib, request, now, before, after)
  {
    hide Lmtp.Decide, Lmtp.Flat, Lmtp.Done, Lmtp.Failed, IsConfirmed, AsksForSome, Administers;
    forall e | e in after.trace[|before.trace|..]
      ensures !e.Confirmed?
    {
      var j := InBlock(step.blocks, e);
      var list, d := step.lists[j], Lmtp.Decide(lib, before.tables, step.isBounce, step.lists[j], step.header);
      NoListConfirms(lib, before.tables, web, list, step.header, step.body, step.now, d,
                     if step.code.Some? then step.code.value else 0, step.blocks[j], e);
    }
  }

  lemma NoListConfirms(lib: Library, t: Database, web: bool, list: List, h: Headers.HeaderMap, body: string, now: int,
          d: Lmtp.Decision, code: nat, events: seq<Event>, e: Event)
    requires Lmtp.Done(lib, t, web, list, h, body, now, d, events)
             || Lmtp.Failed(lib, t, web, list, h, body, now, d, code, events)
    requires e in events
    ensures !e.Confirmed?
  {
    hide IsForwardHeader, IsRewritten, AskSubject, MembersWith, NotifyHeader;
    if d.Moderate? && Lmtp.Done(lib, t, web, list, h, body, now, d, events) {
      assert events == [events[0]] + events[1..];
    }
  }

  lemma ModerationFits(lib: Library, web: bool, request: Request, now: int, sender: Option<string>, list: List,
          form: Form, states: seq<QueueState>, entries: seq<Entry>)
    requires ModRun(lib, web, list, form, states, entries)
    requires StepOf(request, sender, Moderation(list, form)) && request.Moderate? && form == request.form
    requires IsAbout(states[0].tables, list, request.list)
    ensures StepFits(lib, web, request, now, sender, states[0], Moderation(list, form), states[|entries|])
  {
    hide ModRun, KeepsQueue, MailFits, AsksForAll, IsAbout, StepOf, OnlyForwards;
    RunHasStates(lib, web, list, form, states, entries);
    ModKeepsQueue(lib, web, list, form, states, entries);
    RunAsks(lib, web, list, form, states, entries, |entries|);
    ModOnlyForwards(lib, web, list, form, states, entries);
    ForwardsFit(lib, web, request, now, states[0], states[|entries|], list);
  }

  lemma RunHasStates(lib: Library, web: bool, list: List, form: Form, states: seq<QueueState>, entries: seq<Entry>)
    requires ModRun(lib, web, list, form, states, entries)
    ensures |states| == |entries| + 1
  {
  }

  /** Nothing but messages that were to be passed is sent, and nothing else happens. */
  ghost predicate OnlyForwards(lib: Library, web: bool, before: QueueState, after: QueueState, list: List, form: Form) {
    && before.trace <= after.trace
    && forall e <- after.trace[|before.trace|..] :: ForwardsPassed(lib, web, before, list, form, e) && e.Sent?
  }

  lemma ModOnlyForwards(lib: Library, web: bool, list: List, form: Form, states: seq<QueueState>, entries: seq<Entry>)
    requires ModRun(lib, web, list, form, states, entries)
    ensures |states| == |entries| + 1 && OnlyForwards(lib, web, states[0], states[|entries|], list, form)
  {
    hide *;
    RunHasStates(lib, web, list, form, states, entries);
    OnlyKnowns(lib, web, list, form, states, entries, 0, |entries|);
    var before, after := states[0], states[|entries|];
    forall k | |before.trace| <= k < |after.trace|
      ensures ForwardsPassed(lib, web, before, list, form, after.trace[k]) && after.trace[k].Sent?
    {
      EventForwards(lib, web, list, form, states, entries, k);
    }
    NewEvents(lib, web, before, after, list, form);
  }

  lemma NewEvents(lib: Library, web: bool, before: QueueState, after: QueueState, list: List, form: Form)
    requires before.trace <= after.trace
    requires forall k | |before.trace| <= k < |after.trace| ::
               ForwardsPassed(lib, web, before, list, form, after.trace[k]) && after.trace[k].Sent?
    ensures OnlyForwards(lib, web, before, after, list, form)
  {
    hide ForwardsPassed;
    var n := |before.trace|;
    assert forall i | 0 <= i < |after.trace| - n :: after.trace[n..][i] == after.trace[n + i];
  }

  lemma EventForwards(lib: Library, web: bool, list: List, form: Form, states: seq<QueueState>, entries: seq<Entry>,
          k: nat)
    requires |states| == |entries| + 1 && ModRun(lib, web, list, form, states, entries)
    requires |states[0].trace| <= k < |states[|entries|].trace|
    ensures ForwardsPassed(lib, web, states[0], list, form, states[|entries|].trace[k])
    ensures states[|entries|].trace[k].Sent?
  {
    hide *;
    ModMail(lib, web, list, form, states, entries, k);
    var i :| 0 <= i < |entries| && SentFor(lib, web, list, form, states, entries, k, i);
    SentForPasses(lib, web, list, form, states, entries, k, i);
  }

  lemma SentForPasses(lib: Library, web: bool, list: List, form: Form, states: seq<QueueState>, entries: seq<Entry>,
          k: nat, i: nat)
    requires |states| == |entries| + 1 && i < |entries| && k < |states[|entries|].trace|
    requires SentFor(lib, web, list, form, states, entries, k, i)
    ensures ForwardsPassed(lib, web, states[0], list, form, states[|entries|].trace[k])
    ensures states[|entries|].trace[k].Sent?
  {
    hide Forwards, Chooses;
    var f := (list.id, entries[i].name);
    ForwardIsSent(lib, states[0].tables, web, list, states[0].files[f], states[|entries|].trace[k]);
  }

  lemma ForwardsFit(lib: Library, web: bool, request: Request, now: int, before: QueueState, after: QueueState,
          list: List)
    requires request.Moderate? && IsAbout(before.tables, list, request.list)
    requires OnlyForwards(lib, web, before, after, list, request.form)
    requires AsksForAll(lib, before, after, list, request.form)
    ensures MailFits(lib, web, before, Moderation(list, request.form), after)
            && TablesFit(lib, request, now, before, after)
  {
    hide ForwardsPassed, AsksForAll, IsAbout, IsConfirmed, Administers, Effect;
  }

  lemma ForwardIsSent(lib: Library, t: Database, web: bool, list: List, text: string, e: Event)
    requires Forwards(lib, t, web, list, text, e)
    ensures e.Sent?
  {
    hide Messages.ReadMessage, IsForwardHeader, IsRewritten;
  }

  lemma NoBlocks(after: seq<Event>, before: seq<Event>)
    requires after == before + Lmtp.Flat([])
    ensures after == before
  {
  }

  lemma OnlyLink(lib: Library, list: List, trace: seq<Event>, user: Option<AddrSpec>, now: int, joins: bool)
    ensures NewNotices(lib, list, trace, trace) && NewNotices(lib, list, trace, trace + [])
    ensures NoConfirmation(trace, trace) && NoConfirmation(trace, trace + [])
    ensures user.Some? ==>
            var longer := trace + [Event.Issued(list, user.value, now, joins)];
            NewNotices(lib, list, trace, longer) && NoConfirmation(trace, longer)
  {
  }

  lemma WelcomesAreNotices(lib: Library, list: List, people: seq<Addr>, subject: string, before: seq<Event>,
          after: seq<Event>)
    requires before <= after && AreWelcomes(lib, list, people, subject, after[|before|..])
    ensures NewNotices(lib, list, before, after) && NoConfirmation(before, after)
  {
    hide NotifyHeader;
    forall e | e in after[|before|..]
      ensures !e.Confirmed? && (e.Sent? ==> IsNotice(lib, list, e))
    {
      var i :| 0 <= i < |after| - |before| && after[|before|..][i] == e;
    }
  }

  /** The events of a confirmation. */
  lemma ConfirmedFits(lib: Library, request: Request, now: int, before: QueueState, after: QueueState, list: List,
          subject: string, e: Event)
    requires request.Confirm? && request.address.Some? && IsAbout(before.tables, list, request.list)
    requires after.trace == before.trace + [e, Confirmed(list, request.address.value.Spec(), now, request.joins)]
    requires IsNotification(lib, list, request.address.value.Spec(), subject, e)
    requires after.tables == Effect(before.tables, ConfirmOperation(list, request.address.value, request.joins))
    requires HasChangedOver(before.tables, after.tables, (list.id, request.address.value.Spec()), request.joins)
    ensures NewNotices(lib, list, before.trace, after.trace) && TablesFit(lib, request, now, before, after)
  {
    hide Effect, NotifyHeader, Administers, AsksForSome, HasChangedOver;
    assert after.trace[|before.trace|..] == [e, Confirmed(list, request.address.value.Spec(), now, request.joins)];
    assert after.trace[|before.trace|..|after.trace| - 1] == [e];
    assert IsConfirmed(request, now, before, after);
  }

  lemma SameTables(lib: Library, request: Request, now: int, before: QueueState, after: QueueState)
    requires after.tables == before.tables && NoConfirmation(before.trace, after.trace)
    ensures TablesFit(lib, request, now, before, after)
  {
    hide IsConfirmed, AsksForSome, Administers;
  }

  lemma OperationFits(lib: Library, request: Request, now: int, before: QueueState, after: QueueState, op: Operation)
    requires Administers(request, before.tables, op) && NoConfirmation(before.trace, after.trace)
    requires after.tables == before.tables || after.tables == Effect(before.tables, op)
    ensures TablesFit(lib, request, now, before, after)
  {
    hide IsConfirmed, AsksForSome, Administers, Effect, NoConfirmation;
  }

  lemma AboutIsExisting(t: Database, list: List, a: Addr)
    requires IsAbout(t, list, a)
    ensures Existing(t, list)
  {
  }
}
