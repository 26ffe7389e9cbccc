/** The mail transactions: lmtp.go. */
module Lmtp {
  import opened Addresses
  import opened Deciding
  import opened Headers
  import opened ListDBs
  import opened Messages
  import opened Resaving
  import opened Tables
  import opened Text
  import opened Ulists

  /** What becomes of a message for one list. */
  datatype Decision =
    | Bounce
    | AskJoin(addr: AddrSpec)
    | AskLeave(addr: AddrSpec)
    | Pass
    | Moderate
    | Refuse(code: nat)

  /** An empty envelope sender marks a bounce notification. */
  predicate IsBlank(sender: string) {
    Trim(sender) == ""
  }

  /** It consists of white space alone: SP, TAB, CR, LF, VT and FF. */
  lemma BlankIs(sender: string)
    ensures IsBlank(sender) <==> forall c <- sender :: c in " \t\r\n\U{0B}\U{0C}"
  {
    var i, j := TrimParts(sender);
    assert i < j ==> Trim(sender)[0] == sender[i];
    forall c | c in sender
      ensures IsSpace(c) <==> c in " \t\r\n\U{0B}\U{0C}"
    {
      WhiteSpace(c);
    }
  }

  lemma WhiteSpace(c: char)
    ensures IsSpace(c) <==> c in " \t\r\n\U{0B}\U{0C}"
  {
    var all := " \t\r\n\U{0B}\U{0C}";
    assert all[0] == ' ' && all[1] == '\t' && all[2] == '\r' && all[3] == '\n';
    assert all[4] == '\U{0B}' && all[5] == '\U{0C}';
  }

  /** Bounce addresses take bounce notifications and nothing else; other addresses take everything else. */
  ghost predicate Accepts(t: Database, isBounce: bool, to: Addr) {
    IsBounceLocal(to.local) == isBounce && ListAt(t, to.Spec().(local := WithoutBounce(to.local))).Some?
  }

  function Command(h: HeaderMap): string {
    ToLower(Trim(Get(h, "Subject")))
  }

  /** The decision about one list, if nothing fails. */
  ghost function Decide(lib: Library, t: Database, isBounce: bool, list: List, h: HeaderMap): Decision {
    if isBounce then Bounce
    else if Command(h) == "join" || Command(h) == "leave" then DecideCommand(lib, t, list, h, Command(h) == "join")
    else
      match AddressesOf(lib, h, "From")
      case None => Refuse(510)
      case Some(froms) =>
        if froms == [] then Refuse(510)
        else
          match Decided(t, list, h, froms)
          case Reject => Refuse(550)
          case Pass => Decision.Pass
          case Mod => Moderate
  }

  /** Join and leave can only be asked personally. */
  ghost function DecideCommand(lib: Library, t: Database, list: List, h: HeaderMap, joins: bool): Decision {
    match AddressesOf(lib, h, "From")
    case None => Refuse(510)
    case Some(froms) =>
      var senders := AddressesOf(lib, h, "Sender");
      if |froms| != 1 then Refuse(513)
      else if senders.Some? && senders.value != [] && froms[0].Equals(senders.value[0]) then Refuse(513)
      else
        var member := (list.id, froms[0].Spec()) in t.members;
        if list.publicSignup && !member && joins then AskJoin(froms[0].Spec())
        else if member && !joins then AskLeave(froms[0].Spec())
        else Refuse(554)
  }

  /** A message to be distributed: it is no bounce, does not ask to join or leave, and has senders. */
  ghost predicate IsPost(lib: Library, isBounce: bool, h: HeaderMap, froms: seq<Addr>) {
    && !isBounce && ToLower(Trim(Get(h, "Subject"))) != "join" && ToLower(Trim(Get(h, "Subject"))) != "leave"
    && Get(h, "From") != "" && lib.parseList(Get(h, "From")) == Some(froms) && froms != []
  }

  /** The message is to be distributed, and this is the action for its senders. */
  ghost predicate IsToBe(lib: Library, t: Database, isBounce: bool, list: List, h: HeaderMap, action: Action) {
    exists froms :: IsPost(lib, isBounce, h, froms) && Decided(t, list, h, froms) == action
  }

  /** What is decided to pass or to be moderated is a post for whose senders this is the action. */
  lemma DecideIs(lib: Library, t: Database, isBounce: bool, list: List, h: HeaderMap)
    ensures Decide(lib, t, isBounce, list, h) == Decision.Pass <==> IsToBe(lib, t, isBounce, list, h, Action.Pass)
    ensures Decide(lib, t, isBounce, list, h) == Moderate <==> IsToBe(lib, t, isBounce, list, h, Mod)
  {
    hide Decided, Get, Trim;
    var froms := AddressesOf(lib, h, "From");
    if froms.Some? && IsPost(lib, isBounce, h, froms.value) {
      assert forall others :: IsPost(lib, isBounce, h, others) ==> others == froms.value;
    }
  }

  predicate Names(list: List, addrs: seq<Addr>) {
    exists i | 0 <= i < |addrs| :: list.addr.Equals(addrs[i])
  }

  /** Every list is in To or Cc. */
  ghost predicate Addressed(lib: Library, lists: seq<List>, h: HeaderMap) {
    var tos, ccs := AddressesOf(lib, h, "To"), AddressesOf(lib, h, "Cc");
    tos.Some? && ccs.Some? && forall list <- lists :: Names(list, tos.value) || Names(list, ccs.value)
  }

  /** No List-Id field names one of the lists. */
  ghost predicate NoLoop(lib: Library, lists: seq<List>, h: HeaderMap) {
    "List-Id" in h ==>
      forall i | 0 <= i < |h["List-Id"]| ::
        var id := lib.parseAddress(h["List-Id"][i]);
        id.Some? && forall list <- lists :: !list.addr.Equals(id.value)
  }

  /** The checks before anything is sent or stored. */
  ghost predicate ChecksPass(lib: Library, isBounce: bool, lists: seq<List>, h: HeaderMap) {
    lists != [] && (isBounce || Addressed(lib, lists, h)) && NoLoop(lib, lists, h)
  }

  ghost predicate IsBounceMail(t: Database, list: List, e: Event) {
    e.Sent? && e.from == None && multiset(e.to) == multiset(MembersWith(t, list, (f: Flags) => f.bounces))
  }

  function BounceHeader(lib: Library, list: List, h: HeaderMap, messageId: string): HeaderMap {
    map["Content-Type" := ["text/plain; charset=utf-8"],
        "From" := [lib.nameAddr(list.addr)],
        "Message-Id" := [messageId],
        "Subject" := ["[" + DisplayOrLocal(list.addr) + "] Bounce notification: " + Get(h, "Subject")],
        "To" := [lib.addrSpec(BounceOf(list.addr.Spec()))]]
  }

  /** The notification has the body and the subject of the bounce. */
  ghost predicate IsBounceOf(lib: Library, t: Database, list: List, h: HeaderMap, body: string, e: Event) {
    && IsBounceMail(t, list, e) && e.body == body
    && exists id :: e.header == BounceHeader(lib, list, h, id)
  }

  lemma BounceIs(lib: Library, t: Database, list: List, h: HeaderMap, body: string, id: string, e: Event)
    requires IsBounceMail(t, list, e) && e.body == body && e.header == BounceHeader(lib, list, h, id)
    ensures IsBounceOf(lib, t, list, h, body, e)
  {
    hide BounceHeader;
  }

  function Links(web: bool, list: List, a: AddrSpec, joins: bool, now: int): seq<Event> {
    if web then [Issued(list, a, now, joins)] else []
  }

  /** The message was forwarded as it was delivered, except that several address fields may have become one. */
  ghost predicate IsForwardOf(lib: Library, t: Database, web: bool, list: List, h: HeaderMap, body: string, e: Event) {
    exists h' :: PartlyJoined(h, h') && IsForward(lib, t, web, list, h', body, e)
  }

  ghost predicate IsModeration(lib: Library, t: Database, list: List, events: seq<Event>) {
    && events != [] && events[0].Stored? && events[0].file.0 == list.id
    && exists mods ::
       multiset(mods) == multiset(MembersWith(t, list, (f: Flags) => f.notify))
           && AreNotifications(lib, list, mods, MOD_SUBJECT, events[1..])
  }

  /** `events` are everything that has to happen for one list. */
  ghost predicate Done(lib: Library, t: Database, web: bool, list: List, h: HeaderMap, body: string, now: int,
          d: Decision, events: seq<Event>)
  {
    match d
    case Bounce => |events| == 1 && IsBounceOf(lib, t, list, h, body, events[0])
    case AskJoin(a) => Asked(lib, web, list, a, true, now, events)
    case AskLeave(a) => Asked(lib, web, list, a, false, now, events)
    case Pass => |events| == 1 && IsForwardOf(lib, t, web, list, h, body, events[0]) && events[0].ok
    case Moderate => IsModeration(lib, t, list, events)
    case Refuse(_) => false
  }

  /** A link was issued (with a web interface), and a mail with it went out to the address in question. */
  ghost predicate Asked(lib: Library, web: bool, list: List, a: AddrSpec, joins: bool, now: int,
          events: seq<Event>)
  {
    exists e :: events == Links(web, list, a, joins, now) + [e]
        && IsNotification(lib, list, a, AskSubject(lib, list, joins), e) && e.ok
  }

  ghost predicate AskFailed(lib: Library, web: bool, list: List, a: AddrSpec, joins: bool, now: int,
          events: seq<Event>)
  {
    || events == [] || events == Links(web, list, a, joins, now)
    || exists e ::
       events == Links(web, list, a, joins, now) + [e]
           && IsNotification(lib, list, a, AskSubject(lib, list, joins), e) && !e.ok
  }

  /** What may have happened for a list when its processing ended with an error. */
  ghost predicate Failed(lib: Library, t: Database, web: bool, list: List, h: HeaderMap, body: string, now: int,
          d: Decision, code: nat, events: seq<Event>)
  {
    match d
    case Bounce => code == 451 && events == []
    case AskJoin(a) => code == 451 && AskFailed(lib, web, list, a, true, now, events)
    case AskLeave(a) => code == 451 && AskFailed(lib, web, list, a, false, now, events)
    case Pass => code == 451
        && (events == [] || (|events| == 1 && IsForwardOf(lib, t, web, list, h, body, events[0]) && !events[0].ok))
    case Moderate =>
      || (code in {451, 471} && events == [])
      || (code == 471 && |events| == 1 && events[0].Leftover? && events[0].file.0 == list.id)
      || (code == 451 && |events| == 1 && events[0].Stored? && events[0].file.0 == list.id)
    case Refuse(c) => events == [] && (code == c || code == 451)
  }

  lemma FailedEarly(lib: Library, t: Database, web: bool, list: List, h: HeaderMap, body: string, now: int, d: Decision)
    requires !d.Moderate?
    ensures Failed(lib, t, web, list, h, body, now, d, 451, [])
  {
  }

  /** Joining address fields changes neither the command, nor the senders, nor a spam mark. */
  lemma DecideAfterJoining(lib: Library, t: Database, isBounce: bool, list: List, h: HeaderMap, h': HeaderMap)
    requires PartlyJoined(h, h')
    ensures Decide(lib, t, isBounce, list, h') == Decide(lib, t, isBounce, list, h)
    ensures Command(h') == Command(h)
  {
    hide Get, PartlyJoined, IsSpam, MaxOfFroms, EqualFold;
    SameGet(h, h', "Subject");
    SameGet(h, h', "From");
    SameGet(h, h', "Sender");
    SpamAfterJoining(h, h');
  }

  lemma SameGet(h: HeaderMap, h': HeaderMap, key: string)
    requires PartlyJoined(h, h') && key != "" && key[0] in {'S', 'F', 'X'}
    ensures Get(h', key) == Get(h, key)
  {
    assert "Reply-To"[0] == 'R' && "To"[0] == 'T' && "Cc"[0] == 'C' && "Bcc"[0] == 'B';
  }

  lemma SameBounce(lib: Library, t: Database, list: List, h: HeaderMap, h': HeaderMap, body: string)
    requires PartlyJoined(h, h')
    ensures forall e | IsBounceOf(lib, t, list, h', body, e) :: IsBounceOf(lib, t, list, h, body, e)
  {
    hide Get, PartlyJoined, IsBounceMail;
    SameGet(h, h', "Subject");
    assert forall id :: BounceHeader(lib, list, h', id) == BounceHeader(lib, list, h, id);
  }

  lemma SpamAfterJoining(h: HeaderMap, h': HeaderMap)
    requires PartlyJoined(h, h')
    ensures IsSpam(h') == IsSpam(h)
  {
    hide SaysSpam, Get;
    forall key | key in SPAM_KEYS
      ensures Get(h', key) == Get(h, key)
    {
      SameGet(h, h', key);
    }
  }

  /** `e` put this file into the queue: as a stored message, or as what was left over of one when storing it failed. */
  predicate PutsInQueue(e: Event, f: FileKey) {
    (e.Stored? || e.Leftover?) && e.file == f
  }

  /** Messages in the queue are only added, by an event each, and what is stored is what was delivered. */
  ghost predicate QueueGrows(before: map<FileKey, string>, after: map<FileKey, string>, events: seq<Event>,
          text: string)
  {
    && (forall f | f in before :: f in after && after[f] == before[f])
    && (forall f | f in after && f !in before :: exists e <- events :: PutsInQueue(e, f))
    && (forall e <- events | e.Stored? :: e.file !in before && e.file in after && after[e.file] == text)
    && (forall e <- events | e.Leftover? :: e.file !in before && e.file in after && after[e.file] <= text)
  }

  class LmtpSession {
    const u: Ulist
    var lists: seq<List>
    var isBounce: bool
    var logId: nat
    /** The envelope sender of the current transaction, and the addresses through which its lists were accepted. */
    ghost var sender: Option<string>
    ghost var via: seq<Addr>

    /** All lists were accepted through bounce addresses exactly when the current sender is blank. */
    ghost predicate Valid()
      reads this, u, u.db
    {
      && u.Valid()
      && isBounce == (sender.Some? && IsBlank(sender.value))
      && |via| == |lists|
      && forall i | 0 <= i < |lists| ::
           IsBounceLocal(via[i].local) == isBounce
               && lists[i].addr.Spec() == via[i].Spec().(local := WithoutBounce(via[i].local))
    }

    constructor (u: Ulist)
      requires u.Valid()
      ensures Valid() && this.u == u && lists == [] && sender == None
    {
      this.u, lists, isBounce, logId, sender, via := u, [], false, 0, None, [];
    }

    /** RSET */
    method Reset()
      requires Valid()
      modifies this
      ensures Valid() && lists == [] && sender == None && logId == old(logId)
    {
      lists, isBounce, sender, via := [], false, None, [];
    }

    /** MAIL FROM */
    method Mail(envelopeFrom: string, nextLogId: nat)
      requires Valid()
      modifies this
      ensures Valid() && lists == [] && sender == Some(envelopeFrom) && logId == nextLogId
      ensures isBounce <==> forall c <- envelopeFrom :: c in " \t\r\n\U{0B}\U{0C}"
    {
      BlankIs(envelopeFrom);
      Reset();
      logId := nextLogId;
      sender := Some(envelopeFrom);
      if IsBlank(envelopeFrom) {
        isBounce := true;
      }
    }

    /** RCPT TO */
    method Rcpt(recipient: string) returns (code: Option<nat>)
      requires Valid()
      modifies this`lists, this`via
      ensures Valid()
      ensures var to := u.lib.parseAddress(recipient);
              && (code == Some(510) <==> to.None?)
              && (code.None? ==> Accepts(u.db.State(), isBounce, to.value) && via == old(via) + [to.value]
                                 && var a := to.value.Spec().(local := WithoutBounce(to.value.local));
                                    lists == old(lists) + [ListAt(u.db.State(), a).value])
              && (code.Some? ==> lists == old(lists) && via == old(via))
              && (to.Some? && code != Some(451) ==> (code.None? <==> Accepts(u.db.State(), isBounce, to.value)))
    {
      var parsed := u.lib.parseAddress(recipient);
      if parsed.None? {
        return Some(510);
      }
      var to := parsed.value.Spec();
      var toBounce := IsBounceLocal(to.local);
      if toBounce && !isBounce {
        return Some(541);
      } else if !toBounce && isBounce {
        return Some(541);
      } else if toBounce && isBounce {
        to := to.(local := WithoutBounce(to.local));
      }
      var list := u.db.GetList(to);
      if list.Err? {
        return Some(451);
      }
      if list.value.None? {
        return Some(550);
      }
      lists := lists + [list.value.value];
      via := via + [parsed.value];
      code := None;
    }

    /** A bounce notification goes to those who take them. */
    method ProcessBounce(list: List, h: HeaderMap, body: string) returns (code: Option<nat>)
      requires u.Valid()
      modifies u`trace
      ensures u.Valid() && old(u.trace) <= u.trace
      ensures var events := u.trace[|old(u.trace)|..];
              && (if code.None? then |events| == 1 && IsBounceOf(u.lib, u.db.State(), list, h, body, events[0])
                  else code == Some(451) && events == [])
              && forall e <- events :: !e.Stored? && !e.Leftover?
    {
      hide OptIn, Faithful, BounceHeader, IsBounceOf;
      var notifieds := u.db.MembersWhere(list, (f: Flags) => f.bounces);
      if notifieds.Err? {
        return Some(451);
      }
      var messageId: string := *;
      var ok := u.Send(None, notifieds.value, BounceHeader(u.lib, list, h, messageId), body);
      BounceIs(u.lib, u.db.State(), list, h, body, messageId, u.trace[|old(u.trace)|]);
      code := None;
    }

    /** Join or leave by mail. */
    method ProcessCommand(list: List, h: HeaderMap, ghost body: string, joins: bool, now: int)
      returns (code: Option<nat>)
      requires u.Valid()
      modifies u`trace, u`sentJoin, u`sentLeave
      ensures u.Valid() && old(u.trace) <= u.trace
      ensures var events, d := u.trace[|old(u.trace)|..], DecideCommand(u.lib, u.db.State(), list, h, joins);
              && (if code.None? then Done(u.lib, u.db.State(), u.web, list, h, body, now, d, events)
                  else Failed(u.lib, u.db.State(), u.web, list, h, body, now, d, code.value, events))
              && forall e <- events :: !e.Stored? && !e.Leftover?
    {
      hide UniqueAddresses, EqualFold, AddressesOf, OptIn, Faithful, Get, IsForwardOf, IsModeration, IsBounceOf, Asked,
           AskFailed, IsNotification, AskSubject;
      assert u.trace[|old(u.trace)|..] == [];
      var froms := AddressesOf(u.lib, h, "From");
      if froms.None? {
        return Some(510);
      }
      if |froms.value| != 1 {
        return Some(513);
      }
      var senders := AddressesOf(u.lib, h, "Sender");
      if senders.Some? && |senders.value| > 0 {
        if froms.value[0].Equals(senders.value[0]) {
          return Some(513);
        }
      }
      var personalFrom := froms.value[0];
      var m := u.db.GetMembership(list, personalFrom.Spec());
      if m.Err? {
        FailedEarly(u.lib, u.db.State(), u.web, list, h, body, now, DecideCommand(u.lib, u.db.State(), list, h, joins));
        return Some(451);
      }
      if list.publicSignup && m.value.None? && joins {
        code := AskToConfirm(list, personalFrom.Spec(), true, now);
        return;
      }
      if m.value.Some? && !joins {
        code := AskToConfirm(list, personalFrom.Spec(), false, now);
        return;
      }
      code := Some(554);
    }

    method AskToConfirm(list: List, from: AddrSpec, joins: bool, now: int) returns (code: Option<nat>)
      requires u.Valid() && (joins <==> (list.id, from) !in u.db.members)
      modifies u`trace, u`sentJoin, u`sentLeave
      ensures u.Valid() && old(u.trace) <= u.trace
      ensures var events := u.trace[|old(u.trace)|..];
              && (if code.None? then Asked(u.lib, u.web, list, from, joins, now, events)
                  else code.value == 451 && AskFailed(u.lib, u.web, list, from, joins, now, events))
              && forall e <- events :: !e.Stored? && !e.Leftover?
    {
      hide OptIn, Faithful, IsRequest, Asked, AskFailed, UniqueAddresses, AskSubject;
      ghost var before := u.trace;
      if joins {
        var problem := u.SendJoinCheckback(list, from, now);
        RequestEvents(u, list, from, true, now, before, u.trace, problem.None?);
        return if problem.Some? then Some(451) else None;
      }
      var _, problem := u.SendLeaveCheckback(list, from, now);
      RequestEvents(u, list, from, false, now, before, u.trace, problem.None?);
      code := if problem.Some? then Some(451) else None;
    }

    /** A message to be distributed, moderated or rejected. */
    method ProcessPost(list: List, m: Message, ghost h: HeaderMap, ghost now: int) returns (code: Option<nat>)
      requires u.Valid() && PartlyJoined(h, m.header.fields)
      requires Command(h) != "join" && Command(h) != "leave"
      modifies u`trace, u`files, m.header
      ensures u.Valid() && old(u.trace) <= u.trace && PartlyJoined(h, m.header.fields)
      ensures var events, d := u.trace[|old(u.trace)|..], Decide(u.lib, u.db.State(), false, list, h);
              && (if code.None? then Done(u.lib, u.db.State(), u.web, list, h, m.body, now, d, events)
                  else Failed(u.lib, u.db.State(), u.web, list, h, m.body, now, d, code.value, events))
              && QueueGrows(old(u.files), u.files, events, SavedText(h, m.body))
    {
      hide OptIn, Faithful, Get, IsForward, SavedText, Decided, PartlyJoined;
      ghost var t, before := u.db.State(), u.trace;
      DecideAfterJoining(u.lib, t, false, list, h, m.header.fields);
      assert u.trace[|before|..] == [];
      var froms := AddressesOf(u.lib, m.header.fields, "From");
      if froms.None? {
        return Some(510);
      }
      if |froms.value| == 0 {
        return Some(510);
      }
      var action := GetAction(u.db, list, m.header.fields, froms.value);
      if action.Err? {
        return Some(451);
      }
      match action.value.0
      case Reject =>
        code := Some(550);
      case Pass =>
        code := PostForward(list, m, h, now);
      case Mod =>
        code := PostModerate(list, m, h, now);
    }

    method PostForward(list: List, m: Message, ghost h: HeaderMap, ghost now: int) returns (code: Option<nat>)
      requires u.Valid() && PartlyJoined(h, m.header.fields)
      modifies u`trace
      ensures u.Valid() && old(u.trace) <= u.trace
      ensures var events := u.trace[|old(u.trace)|..];
              && (if code.None? then Done(u.lib, u.db.State(), u.web, list, h, m.body, now, Decision.Pass, events)
                  else Failed(u.lib, u.db.State(), u.web, list, h, m.body, now, Decision.Pass, code.value, events))
              && forall e <- events :: e.Sent?
    {
      hide OptIn, Faithful, IsForwardHeader;
      ghost var before := u.trace;
      var problem := u.Forward(list, m);
      ghost var events := u.trace[|before|..];
      if u.trace == before {
        assert events == [];
      } else {
        assert events == [u.trace[|before|]];
        assert IsForwardOf(u.lib, u.db.State(), u.web, list, h, m.body, events[0]);
      }
      code := if problem.Some? then Some(451) else None;
    }

    method PostModerate(list: List, m: Message, ghost h: HeaderMap, ghost now: int) returns (code: Option<nat>)
      requires u.Valid() && PartlyJoined(h, m.header.fields)
      modifies u`trace, u`files, m.header
      ensures u.Valid() && old(u.trace) <= u.trace && PartlyJoined(h, m.header.fields)
      ensures var events := u.trace[|old(u.trace)|..];
              && (if code.None? then Done(u.lib, u.db.State(), u.web, list, h, m.body, now, Moderate, events)
                  else Failed(u.lib, u.db.State(), u.web, list, h, m.body, now, Moderate, code.value, events))
              && QueueGrows(old(u.files), u.files, events, SavedText(h, m.body))
    {
      hide OptIn, Faithful, IsForward, SavedText, PartlyJoined, PlainName, Done, AreNotifications;
      ghost var before, fields := u.trace, m.header.fields;
      SavedTextAfterJoining(h, fields, m.body);
      var problem, file := u.Save(list, m);
      PartlyJoinedTwice(h, fields, m.header.fields);
      if problem.Some? {
        if u.trace == before {
          assert u.trace[|before|..] == [];
        } else {
          assert u.trace[|before|..] == [Leftover(file)];
          assert PutsInQueue(Leftover(file), file) && Leftover(file) in [Leftover(file)];
        }
        return Some(471);
      }
      assert u.trace[|before|..] == [Stored(file)];
      assert PutsInQueue(Stored(file), file) && Stored(file) in [Stored(file)];
      var notifieds := u.db.MembersWhere(list, (f: Flags) => f.notify);
      if notifieds.Err? {
        return Some(451);
      }
      ghost var stored := u.trace;
      var _ := u.NotifyMods(list, notifieds.value);
      ghost var sent := u.trace[|stored|..];
      ghost var events := u.trace[|before|..];
      assert events == [Stored(file)] + sent;
      assert Stored(file) in events;
      ModerationDone(u.lib, u.db.State(), u.web, list, h, m.body, now, file, notifieds.value, sent);
      code := None;
    }

    /** One list of a transaction. */
    method ProcessList(list: List, m: Message, ghost h: HeaderMap, now: int) returns (code: Option<nat>)
      requires u.Valid() && PartlyJoined(h, m.header.fields)
      modifies u`trace, u`files, u`sentJoin, u`sentLeave, m.header
      ensures u.Valid() && old(u.trace) <= u.trace && PartlyJoined(h, m.header.fields)
      ensures var events, d := u.trace[|old(u.trace)|..], Decide(u.lib, u.db.State(), isBounce, list, h);
              && (if code.None? then Done(u.lib, u.db.State(), u.web, list, h, m.body, now, d, events)
                  else Failed(u.lib, u.db.State(), u.web, list, h, m.body, now, d, code.value, events))
              && QueueGrows(old(u.files), u.files, events, SavedText(h, m.body))
    {
      hide OptIn, Faithful, Get, SavedText, PartlyJoined, Asked, AskFailed, IsModeration, IsForwardOf, IsBounceMail,
           IsNotification, Command;
      DecideAfterJoining(u.lib, u.db.State(), isBounce, list, h, m.header.fields);
      if isBounce {
        SameBounce(u.lib, u.db.State(), list, h, m.header.fields, m.body);
        code := ProcessBounce(list, m.header.fields, m.body);
      } else {
        var command := Command(m.header.fields);
        if command == "join" || command == "leave" {
          code := ProcessCommand(list, m.header.fields, m.body, command == "join", now);
        } else {
          code := ProcessPost(list, m, h, now);
        }
      }
    }

    /** Every list must be in To or Cc, which avoids spam by Bcc. */
    method CheckRecipients(h: HeaderMap) returns (code: Option<nat>)
      ensures code.None? <==> Addressed(u.lib, lists, h)
      ensures code.Some? ==> code.value in {510, 541}
    {
      hide Get;
      var tos := AddressesOf(u.lib, h, "To");
      if tos.None? {
        return Some(510);
      }
      var ccs := AddressesOf(u.lib, h, "Cc");
      if ccs.None? {
        return Some(510);
      }
      for i := 0 to |lists|
        invariant forall j | 0 <= j < i :: Names(lists[j], tos.value) || Names(lists[j], ccs.value)
      {
        var found := Find(lists[i], tos.value);
        if found {
          continue;
        }
        found := Find(lists[i], ccs.value);
        if found {
          continue;
        }
        return Some(541);
      }
      code := None;
    }

    static method Find(list: List, addrs: seq<Addr>) returns (found: bool)
      ensures found == Names(list, addrs)
    {
      for i := 0 to |addrs|
        invariant forall j | 0 <= j < i :: !list.addr.Equals(addrs[j])
      {
        if list.addr.Equals(addrs[i]) {
          return true;
        }
      }
      found := false;
    }

    /** A message that has come over one of the lists before is refused. */
    method CheckLoops(h: HeaderMap) returns (code: Option<nat>)
      ensures code.None? <==> NoLoop(u.lib, lists, h)
      ensures code.Some? ==> code.value in {510, 554}
    {
      var fields := if "List-Id" in h then h["List-Id"] else [];
      for i := 0 to |fields|
        invariant forall k | 0 <= k < i ::
                    var id := u.lib.parseAddress(fields[k]);
                    id.Some? && forall list <- lists :: !list.addr.Equals(id.value)
      {
        var listId := u.lib.parseAddress(fields[i]);
        if listId.None? {
          return Some(510);
        }
        for j := 0 to |lists|
          invariant forall k | 0 <= k < j :: !lists[k].addr.Equals(listId.value)
        {
          if lists[j].addr.Equals(listId.value) {
            return Some(554);
          }
        }
      }
      code := None;
    }

    /** DATA. The events of the transaction are those of its lists, one block for each. */
    method Data(text: string, now: int) returns (code: Option<nat>, ghost blocks: seq<seq<Event>>)
      requires Valid()
      modifies u`trace, u`files, u`sentJoin, u`sentLeave
      ensures Valid() && lists == old(lists) && sender == old(sender)
      ensures u.trace == old(u.trace) + Flat(blocks)
      ensures var message := Messages.ReadMessage(text);
              if lists == [] then code == Some(550) && blocks == []
              else if message.Failure? then code == Some(442) && blocks == []
              else
                var (h, body) := message.value;
                || (code == Some(442) && blocks == [])
                || (!ChecksPass(u.lib, isBounce, lists, h) && code.Some? && code.value in {510, 541, 554}
                   && blocks == [])
                || (ChecksPass(u.lib, isBounce, lists, h)
                   && Transacted(u.lib, u.db.State(), u.web, isBounce, lists, h, body, now, code, blocks))
      ensures blocks == [] ==> u.files == old(u.files)
      ensures code.None? ==> |blocks| == |lists| > 0
      ensures var message := Messages.ReadMessage(text);
              message.Success? ==>
                  QueueGrows(old(u.files), u.files, Flat(blocks), SavedText(message.value.0, message.value.1))
    {
      hide OptIn, Faithful, Addressed, NoLoop, Decide, Done, Failed, SavedText, PartlyJoined, Messages.ReadMessage,
           Accepts;
      blocks := [];
      assert u.trace + [] == u.trace;
      if |lists| == 0 {
        return Some(550), [];
      }
      var message := Messages.ReadMessage(text);
      var fails := Fails();
      if message.Failure? || fails {
        return Some(442), [];
      }
      var m := NewMessage(message.value.0, message.value.1);
      ghost var h := message.value.0;
      if !isBounce {
        code := CheckRecipients(m.header.fields);
        if code.Some? {
          return code, [];
        }
      }
      code := CheckLoops(m.header.fields);
      if code.Some? {
        return code, [];
      }
      code, blocks := ProcessLists(m, h, now);
    }

    /** The lists of a transaction, in order, until the first error. */
    method ProcessLists(m: Message, ghost h: HeaderMap, now: int)
      returns (code: Option<nat>, ghost blocks: seq<seq<Event>>)
      requires Valid() && PartlyJoined(h, m.header.fields) && lists != []
      modifies u`trace, u`files, u`sentJoin, u`sentLeave, m.header
      ensures Valid() && lists == old(lists) && sender == old(sender)
      ensures u.trace == old(u.trace) + Flat(blocks)
      ensures Transacted(u.lib, u.db.State(), u.web, isBounce, lists, h, m.body, now, code, blocks)
      ensures QueueGrows(old(u.files), u.files, Flat(blocks), SavedText(h, m.body))
    {
      hide OptIn, Faithful, Decide, Done, Failed, SavedText, PartlyJoined, QueueGrows, Flat, UniqueAddresses,
           IsBounceLocal, WithoutBounce;
      blocks := [];
      NothingHappened(u.trace, u.files, SavedText(h, m.body));
      ghost var t := u.db.State();
      for i := 0 to |lists|
        invariant Valid() && PartlyJoined(h, m.header.fields)
        invariant |blocks| == i && u.trace == old(u.trace) + Flat(blocks)
        invariant forall j | 0 <= j < i ::
                  Done(u.lib, t, u.web, lists[j], h, m.body, now, Decide(u.lib, t, isBounce, lists[j], h), blocks[j])
        invariant QueueGrows(old(u.files), u.files, Flat(blocks), SavedText(h, m.body))
      {
        ghost var before, files := u.trace, u.files;
        code := ProcessList(lists[i], m, h, now);
        ghost var block := u.trace[|before|..];
        TraceGrows(old(u.trace), Flat(blocks), before, u.trace);
        QueueGrowsOn(old(u.files), files, u.files, Flat(blocks), block, SavedText(h, m.body));
        FlatLast(blocks, block);
        blocks := blocks + [block];
        if code.Some? {
          return;
        }
      }
      code := None;
    }
  }

  method NewMessage(fields: HeaderMap, body: string) returns (m: Message)
    ensures fresh(m.header) && m.header.fields == fields && m.body == body && PartlyJoined(fields, m.header.fields)
  {
    var header := new Header(fields);
    m := Message(header, body);
  }

  /** All events of the blocks, in order. */
  ghost function Flat(blocks: seq<seq<Event>>): seq<Event> {
    if blocks == [] then [] else Flat(blocks[..|blocks| - 1]) + blocks[|blocks| - 1]
  }

  lemma FlatLast(blocks: seq<seq<Event>>, block: seq<Event>)
    ensures Flat(blocks + [block]) == Flat(blocks) + block
  {
    assert (blocks + [block])[..|blocks|] == blocks;
  }

  lemma NothingHappened(trace: seq<Event>, files: map<FileKey, string>, text: string)
    ensures trace + Flat([]) == trace && QueueGrows(files, files, Flat([]), text)
  {
  }

  lemma TraceGrows(start: seq<Event>, flat: seq<Event>, before: seq<Event>, after: seq<Event>)
    requires before == start + flat && before <= after
    ensures after == start + (flat + after[|before|..])
  {
    assert after == before + after[|before|..];
  }

  lemma QueueGrowsOn(a: map<FileKey, string>, b: map<FileKey, string>, c: map<FileKey, string>, first: seq<Event>,
          second: seq<Event>, text: string)
    requires QueueGrows(a, b, first, text) && QueueGrows(b, c, second, text)
    ensures QueueGrows(a, c, first + second, text)
  {
    hide PutsInQueue;
    forall e | e in first + second && (e.Stored? || e.Leftover?)
      ensures e.file !in a && e.file in c && if e.Stored? then c[e.file] == text else c[e.file] <= text
    {
      assert e in first || e in second;
    }
    forall f | f in c && f !in a
      ensures exists e <- first + second :: PutsInQueue(e, f)
    {
      var e :| e in (if f in b then first else second) && PutsInQueue(e, f);
      assert e in first + second;
    }
  }

  /** Every list has been dealt with in order: all of them on success; on an error the last one that was begun failed,
      the ones before are done, and the ones behind are untouched. */
  ghost predicate Transacted(lib: Library, t: Database, web: bool, isBounce: bool, lists: seq<List>, h: HeaderMap,
          body: string, now: int, code: Option<nat>, blocks: seq<seq<Event>>)
  {
    && |blocks| <= |lists|
    && (if code.None? then |blocks| == |lists| else blocks != [])
    && forall i | 0 <= i < |blocks| ::
         var d := Decide(lib, t, isBounce, lists[i], h);
         if code.None? || i < |blocks| - 1 then Done(lib, t, web, lists[i], h, body, now, d, blocks[i])
         else Failed(lib, t, web, lists[i], h, body, now, d, code.value, blocks[i])
  }

  lemma ModerationDone(lib: Library, t: Database, web: bool, list: List, h: HeaderMap, body: string, now: int,
          file: FileKey, mods: seq<AddrSpec>, sent: seq<Event>)
    requires file.0 == list.id && multiset(mods) == multiset(MembersWith(t, list, (f: Flags) => f.notify))
    requires AreNotifications(lib, list, mods, MOD_SUBJECT, sent)
    ensures Done(lib, t, web, list, h, body, now, Moderate, [Stored(file)] + sent)
    ensures forall e <- [Stored(file)] + sent :: !e.Leftover? && (e.Stored? ==> e.file == file)
  {
    assert ([Stored(file)] + sent)[1..] == sent;
  }

  lemma RequestEvents(u: Ulist, list: List, a: AddrSpec, joins: bool, now: int, before: seq<Event>,
          after: seq<Event>, fine: bool)
    requires IsRequest(u, list, a, joins, now, before, after, fine)
    ensures before <= after
    ensures fine && |after| > |before| ==> Asked(u.lib, u.web, list, a, joins, now, after[|before|..])
    ensures !fine ==> AskFailed(u.lib, u.web, list, a, joins, now, after[|before|..])
    ensures forall e <- after[|before|..] :: !e.Stored? && !e.Leftover?
  {
    var links := Links(u.web, list, a, joins, now);
    if after == before {
      assert after[|before|..] == [];
    } else if !fine && after == before + links {
      assert after[|before|..] == links;
    } else {
      var e :| after == before + links + [e] && IsNotification(u.lib, list, a, AskSubject(u.lib, list, joins), e)
          && (fine <==> e.ok);
      assert after[|before|..] == links + [e];
    }
  }

  /** What an event of a list may send: to the bounce notifieds with an empty envelope sender if the transaction is
      a bounce notification, and with the bounce address of the list as envelope sender if not. */
  ghost predicate Disciplined(t: Database, isBounce: bool, list: List, e: Event) {
    e.Sent? ==> if isBounce then IsBounceMail(t, list, e) else e.from == Some(BounceOf(list.addr.Spec()))
  }

  lemma BlockIsDisciplined(lib: Library, t: Database, web: bool, isBounce: bool, list: List, h: HeaderMap, body: string,
          now: int, code: nat, events: seq<Event>)
    requires var d := Decide(lib, t, isBounce, list, h);
             Done(lib, t, web, list, h, body, now, d, events)
                 || Failed(lib, t, web, list, h, body, now, d, code, events)
    ensures forall e <- events :: Disciplined(t, isBounce, list, e)
  {
    hide IsForwardHeader, Decided, Command, AddressesOf;
    var d := Decide(lib, t, isBounce, list, h);
    if d.AskJoin? || d.AskLeave? {
      AskIsDisciplined(lib, web, t, list, d.addr, d.AskJoin?, now, events);
    }
  }

  lemma AskIsDisciplined(lib: Library, web: bool, t: Database, list: List, a: AddrSpec, joins: bool, now: int,
          events: seq<Event>)
    requires AskFailed(lib, web, list, a, joins, now, events) || Asked(lib, web, list, a, joins, now, events)
    ensures forall e <- events :: Disciplined(t, false, list, e)
  {
  }

  /** Main result: in every transaction, whatever fails, only the kind of mail that its sender allows is sent. */
  lemma TransactionsAreDisciplined(lib: Library, t: Database, web: bool, isBounce: bool, lists: seq<List>, h: HeaderMap,
          body: string, now: int, code: Option<nat>, blocks: seq<seq<Event>>, i: nat, e: Event)
    requires Transacted(lib, t, web, isBounce, lists, h, body, now, code, blocks)
    requires i < |blocks| && e in blocks[i]
    ensures Disciplined(t, isBounce, lists[i], e)
  {
    hide Done, Failed, Decide, Disciplined;
    BlockIsDisciplined(lib, t, web, isBounce, lists[i], h, body, now, if code.Some? then code.value else 0, blocks[i]);
  }

  /** A list that refuses the message ends the transaction: nothing happens for it and for the lists behind it. */
  lemma RefusalEndsTransaction(lib: Library, t: Database, web: bool, isBounce: bool, lists: seq<List>, h: HeaderMap,
          body: string, now: int, code: Option<nat>, blocks: seq<seq<Event>>, k: nat)
    requires Transacted(lib, t, web, isBounce, lists, h, body, now, code, blocks)
    requires k < |lists| && Decide(lib, t, isBounce, lists[k], h).Refuse?
    ensures code.Some? && |blocks| <= k + 1 && (|blocks| == k + 1 ==> blocks[k] == [])
  {
    hide Decide, IsModeration, IsForwardOf, Asked, AskFailed, IsBounceOf;
    var d := Decide(lib, t, isBounce, lists[k], h);
    if k < |blocks| {
      assert !Done(lib, t, web, lists[k], h, body, now, d, blocks[k]);
    }
  }
}
