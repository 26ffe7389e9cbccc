/** What becomes of a message that is delivered over LMTP, told from the tables, the settings of the list and the
    fields of the message. */
module Dispositions {
  import opened Addresses
  import opened Deciding
  import opened Forwarding
  import opened Headers
  import opened ListDBs
  import opened Lmtp
  import opened Sorting
  import opened Tables
  import opened Text
  import opened Ulists
  import Routing

  /** The mail is an attempt to forward the message over the list. */
  ghost predicate HasForward(lib: Library, t: Database, web: bool, list: List, h: HeaderMap, body: string,
          events: seq<Event>)
  {
    exists e <- events :: IsForwardOf(lib, t, web, list, h, body, e)
  }

  lemma NotificationHasNoListId(lib: Library, list: List, recipient: AddrSpec, subject: string, e: Event)
    requires IsNotification(lib, list, recipient, subject, e)
    ensures "List-Id" !in e.header
  {
    assert "List-Id"[0] == 'L' && "Content-Type"[0] == 'C' && "From"[0] == 'F' && "Message-Id"[0] == 'M';
    assert "Subject"[0] == 'S' && "To"[0] == 'T';
  }

  /** A notification is no forwarded message. */
  lemma NotificationIsNoForward(lib: Library, t: Database, web: bool, list: List, h: HeaderMap, body: string,
          recipient: AddrSpec, subject: string, e: Event)
    requires IsNotification(lib, list, recipient, subject, e)
    ensures !IsForwardOf(lib, t, web, list, h, body, e)
  {
    hide IsNotification, IsForwardHeader, IsRewritten, PartlyJoined;
    NotificationHasNoListId(lib, list, recipient, subject, e);
    if h' :| PartlyJoined(h, h') && IsForward(lib, t, web, list, h', body, e) {
      Routing.ListIdSent(lib, list, h', e.header);
    }
  }

  /** Exactly those who take notifications are told, each once, and in no other mail. */
  ghost predicate AreTold(t: Database, list: List, told: seq<Event>) {
    && (forall e <- told :: e.Sent? && |e.to| == 1 && e.from == Some(BounceOf(list.addr.Spec())))
    && (forall i, j | 0 <= i < j < |told| :: told[i].to != told[j].to)
    && forall a :: (exists e <- told :: e.to == [a]) <==>
          (list.id, a) in t.members && t.members[(list.id, a)].notify
  }

  lemma NotifiedAreTold(lib: Library, t: Database, list: List, mods: seq<AddrSpec>, told: seq<Event>)
    requires multiset(mods) == multiset(MembersWith(t, list, (f: Flags) => f.notify))
    requires AreNotifications(lib, list, mods, MOD_SUBJECT, told)
    ensures AreTold(t, list, told)
  {
    hide IsNotification, BounceOf;
    EachOnce(mods, MembersWith(t, list, (f: Flags) => f.notify));
    forall i | 0 <= i < |told|
      ensures told[i].Sent? && told[i].to == [mods[i]] && told[i].from == Some(BounceOf(list.addr.Spec()))
    {
      NotificationSays(lib, list, mods[i], MOD_SUBJECT, told[i]);
    }
    forall a
      ensures (exists e <- told :: e.to == [a]) <==> a in mods
    {
      if a in mods {
        var i :| 0 <= i < |mods| && mods[i] == a;
        assert told[i] in told;
      }
      if e :| e in told && e.to == [a] {
        var i :| 0 <= i < |told| && told[i] == e;
        assert [mods[i]][0] == [a][0];
      }
    }
  }

  /** One file is stored, and then it is told. */
  ghost predicate IsStoredAndTold(t: Database, list: List, events: seq<Event>) {
    events != [] && events[0].Stored? && events[0].file.0 == list.id && AreTold(t, list, events[1..])
  }

  lemma ModerationIs(lib: Library, t: Database, web: bool, list: List, h: HeaderMap, body: string, events: seq<Event>)
    requires IsModeration(lib, t, list, events)
    ensures IsStoredAndTold(t, list, events) && !HasForward(lib, t, web, list, h, body, events)
  {
    hide IsNotification, IsForwardOf, AreTold;
    var mods :| multiset(mods) == multiset(MembersWith(t, list, (f: Flags) => f.notify))
        && AreNotifications(lib, list, mods, MOD_SUBJECT, events[1..]);
    NotifiedAreTold(lib, t, list, mods, events[1..]);
    forall e | e in events
      ensures !IsForwardOf(lib, t, web, list, h, body, e)
    {
      var i :| 0 <= i < |events| && events[i] == e;
      if i == 0 {
        StoredIsNoForward(lib, t, web, list, h, body, e);
      } else {
        assert events[1..][i - 1] == e;
        NotificationIsNoForward(lib, t, web, list, h, body, mods[i - 1], MOD_SUBJECT, e);
      }
    }
  }

  lemma StoredIsNoForward(lib: Library, t: Database, web: bool, list: List, h: HeaderMap, body: string, e: Event)
    requires !e.Sent?
    ensures !IsForwardOf(lib, t, web, list, h, body, e)
  {
  }

  /** What has been done for a list about a post with this action. */
  ghost predicate IsDisposed(lib: Library, t: Database, web: bool, list: List, h: HeaderMap, body: string, a: Action,
          events: seq<Event>)
  {
    match a
    case Reject => false
    case Pass => |events| == 1 && IsForwardOf(lib, t, web, list, h, body, events[0]) && events[0].ok
    case Mod => IsStoredAndTold(t, list, events)
  }

  /** Main result on posts: a message with senders that is no bounce and does not ask to join or leave is forwarded
      exactly if the decision about its senders is to pass, and stored exactly if it is to moderate; if it is to
      reject, nothing happens. A list whose processing failed has not begun to do anything else. */
  lemma PostsAreDisposed(lib: Library, t: Database, web: bool, isBounce: bool, lists: seq<List>, h: HeaderMap,
          body: string, now: int, code: Option<nat>, blocks: seq<seq<Event>>, i: nat, froms: seq<Addr>)
    requires Transacted(lib, t, web, isBounce, lists, h, body, now, code, blocks) && i < |blocks|
    requires IsPost(lib, isBounce, h, froms)
    ensures var list, events, a := lists[i], blocks[i], Decided(t, lists[i], h, froms);
            && (code.None? || i < |blocks| - 1 ==> IsDisposed(lib, t, web, list, h, body, a, events))
            && (HasForward(lib, t, web, list, h, body, events) ==> a == Action.Pass)
            && (HasQueued(events) ==> a == Mod)
            && (a == Reject ==> events == [] && code.Some? && code.value in {550, 451})
            && (code.Some? && i == |blocks| - 1 && a == Action.Pass ==> code == Some(451))
            && (code.Some? && i == |blocks| - 1 && a == Mod ==> code.value in {451, 471})
  {
    hide IsForwardOf, IsStoredAndTold, IsModeration, Decided, IsPost, HasForward, HasQueued;
    var list, events, d := lists[i], blocks[i], Decide(lib, t, isBounce, lists[i], h);
    PostDecision(lib, t, isBounce, list, h, froms);
    if d.Moderate? && IsModeration(lib, t, list, events) {
      ModerationIs(lib, t, web, list, h, body, events);
      StoredIsQueued(t, list, events);
    } else {
      FewEvents(lib, t, web, list, h, body, events);
    }
  }

  /** Something was put into the queue. */
  predicate HasQueued(events: seq<Event>) {
    exists e <- events :: e.Stored? || e.Leftover?
  }

  lemma StoredIsQueued(t: Database, list: List, events: seq<Event>)
    requires IsStoredAndTold(t, list, events)
    ensures HasQueued(events)
  {
    assert events[0] in events;
  }

  lemma FewEvents(lib: Library, t: Database, web: bool, list: List, h: HeaderMap, body: string, events: seq<Event>)
    requires |events| <= 1
    ensures HasForward(lib, t, web, list, h, body, events) <==>
            events != [] && IsForwardOf(lib, t, web, list, h, body, events[0])
    ensures HasQueued(events) <==> events != [] && (events[0].Stored? || events[0].Leftover?)
    ensures HasForward(lib, t, web, list, h, body, events) ==> !HasQueued(events)
  {
    hide IsForwardHeader, IsRewritten, PartlyJoined;
  }

  /** The decision about a post is the action for its senders. */
  lemma PostDecision(lib: Library, t: Database, isBounce: bool, list: List, h: HeaderMap, froms: seq<Addr>)
    requires IsPost(lib, isBounce, h, froms)
    ensures Decide(lib, t, isBounce, list, h) ==
            match Decided(t, list, h, froms)
            case Reject => Refuse(550)
            case Pass => Decision.Pass
            case Mod => Moderate
  {
    hide Decided, Get, Trim;
  }

  /** A message without senders, or whose senders cannot be read, is refused by the first list, unless it is a
      bounce. */
  lemma SenderlessIsRefused(lib: Library, t: Database, web: bool, lists: seq<List>, h: HeaderMap, body: string,
          now: int, code: Option<nat>, blocks: seq<seq<Event>>)
    requires Transacted(lib, t, web, false, lists, h, body, now, code, blocks) && lists != []
    requires Get(h, "From") == "" || lib.parseList(Get(h, "From")).None? || lib.parseList(Get(h, "From")) == Some([])
    ensures blocks == [[]] && code.Some? && code.value in {510, 513, 451}
  {
    hide Get, Trim, Decided;
    var d := Decide(lib, t, false, lists[0], h);
    assert d.Refuse? && (d.code == 510 || d.code == 513);
    RefusalEndsTransaction(lib, t, web, false, lists, h, body, now, code, blocks, 0);
  }

  /** What is forwarded of a delivered message: the receivers get what `Forwarding.IsSentAs` says, where addresses of
      the message may have been joined because an earlier list has stored it. */
  lemma DeliveredAs(lib: Library, t: Database, web: bool, list: List, h: HeaderMap, body: string, e: Event)
    requires IsForwardOf(lib, t, web, list, h, body, e)
    ensures e.Sent? && e.from == Some(BounceOf(list.addr.Spec())) && (!web ==> e.body == body)
    ensures forall a :: a in e.to <==> (list.id, a) in t.members && t.members[(list.id, a)].receive
    ensures forall i, j | 0 <= i < j < |e.to| :: e.to[i] != e.to[j]
    ensures IsFromList(lib, list, h, e.header) && HasListFields(lib, list, h, e.header)
    ensures exists h' :: PartlyJoined(h, h') && IsSentAs(lib, list, h', e.header)
  {
    hide IsForward, PartlyJoined, ShowsSenders, HidesSender, Get;
    var h' :| PartlyJoined(h, h') && IsForward(lib, t, web, list, h', body, e);
    ForwardedAs(lib, t, web, list, h', body, e);
    SameGet(h, h', "From");
    SameGet(h, h', "Subject");
  }

  /** The message comes from this one address alone, which may join or leave. */
  ghost predicate MayAsk(lib: Library, t: Database, list: List, h: HeaderMap, joins: bool, from: Addr) {
    && Get(h, "From") != "" && lib.parseList(Get(h, "From")) == Some([from])
    && if joins then list.publicSignup && (list.id, from.Spec()) !in t.members else (list.id, from.Spec()) in t.members
  }

  /** This address is asked to confirm, by a mail with a link if there is a web interface. */
  ghost predicate IsAsked(web: bool, list: List, a: AddrSpec, joins: bool, now: int, events: seq<Event>) {
    && |events| == (if web then 2 else 1) && (web ==> events[0] == Issued(list, a, now, joins))
    && var mail := events[|events| - 1];
       mail.Sent? && mail.ok && mail.to == [a] && mail.from == Some(BounceOf(list.addr.Spec()))
  }

  /** All events concern this address. */
  ghost predicate OnlyConcern(list: List, a: AddrSpec, joins: bool, events: seq<Event>) {
    forall e <- events ::
      || (e.Issued? && e.list == list && e.addr == a && e.joins == joins)
      || (e.Sent? && e.to == [a] && e.from == Some(BounceOf(list.addr.Spec())))
  }

  /** Main result on join and leave by mail: the answer goes to the only sender, and only if this is no member yet and
      the list is public, or if this is a member, respectively; everybody else gets nothing and is refused. Without a
      Sender field, whoever may ask is asked to confirm unless something fails. */
  lemma CommandsAreDisposed(lib: Library, t: Database, web: bool, lists: seq<List>, h: HeaderMap, body: string,
          now: int, code: Option<nat>, blocks: seq<seq<Event>>, i: nat, joins: bool)
    requires Transacted(lib, t, web, false, lists, h, body, now, code, blocks) && i < |blocks|
    requires ToLower(Trim(Get(h, "Subject"))) == if joins then "join" else "leave"
    ensures var list, events := lists[i], blocks[i];
            && (code.None? || i < |blocks| - 1 ==>
                  exists a :: MayAsk(lib, t, list, h, joins, a) && IsAsked(web, list, a.Spec(), joins, now, events))
            && (events != [] ==>
                  exists a :: MayAsk(lib, t, list, h, joins, a) && OnlyConcern(list, a.Spec(), joins, events))
            && (code.Some? && i == |blocks| - 1 && Get(h, "Sender") == "" ==>
                  forall a | MayAsk(lib, t, list, h, joins, a) :: code == Some(451))
  {
    hide Asked, Lmtp.AskFailed, MayAsk, IsAsked, OnlyConcern, Get, Trim, DecideCommand;
    var list, events := lists[i], blocks[i];
    assert "join"[0] == 'j' && "leave"[0] == 'l';
    var d := DecideCommand(lib, t, list, h, joins);
    assert d == Decide(lib, t, false, list, h);
    var froms := CommandDecision(lib, t, list, h, joins);
    if d.AskJoin? || d.AskLeave? {
      AskedIs(lib, web, list, d.addr, joins, now, events);
    }
  }

  /** Who is asked. */
  lemma CommandDecision(lib: Library, t: Database, list: List, h: HeaderMap, joins: bool) returns (from: Option<Addr>)
    ensures var d := DecideCommand(lib, t, list, h, joins);
            && (from.Some? ==> MayAsk(lib, t, list, h, joins, from.value)
                               && d == if joins then AskJoin(from.value.Spec()) else AskLeave(from.value.Spec()))
            && (from.None? ==> d.Refuse?)
            && (Get(h, "Sender") == "" && from.None? ==> forall a :: !MayAsk(lib, t, list, h, joins, a))
  {
    hide Get, EqualFold;
    var froms := AddressesOf(lib, h, "From");
    from := if DecideCommand(lib, t, list, h, joins).Refuse? then None else Some(froms.value[0]);
    if from.Some? {
      assert froms.value == [froms.value[0]];
    }
  }

  lemma AskedIs(lib: Library, web: bool, list: List, a: AddrSpec, joins: bool, now: int, events: seq<Event>)
    ensures Asked(lib, web, list, a, joins, now, events) ==>
            IsAsked(web, list, a, joins, now, events) && OnlyConcern(list, a, joins, events)
    ensures Lmtp.AskFailed(lib, web, list, a, joins, now, events) ==> OnlyConcern(list, a, joins, events)
  {
    hide AskSubject, NotifyHeader;
  }

  /** Main result on bounces: a bounce goes on in one mail with an empty envelope sender, with its body and its subject,
      to exactly the members who take bounces; or the database failed, and nothing has happened. */
  lemma BouncesAreDisposed(lib: Library, t: Database, web: bool, lists: seq<List>, h: HeaderMap, body: string, now: int,
          code: Option<nat>, blocks: seq<seq<Event>>, i: nat)
    requires Transacted(lib, t, web, true, lists, h, body, now, code, blocks) && i < |blocks|
    ensures var list, events := lists[i], blocks[i];
            if code.None? || i < |blocks| - 1 then |events| == 1 && IsBouncedTo(lib, t, list, h, body, events[0])
            else code == Some(451) && events == []
  {
    hide BounceHeader, IsBouncedTo, IsBounceMail;
    if code.None? || i < |blocks| - 1 {
      BounceIsBouncedTo(lib, t, lists[i], h, body, blocks[i][0]);
    }
  }

  ghost predicate IsBouncedTo(lib: Library, t: Database, list: List, h: HeaderMap, body: string, e: Event) {
    && e.Sent? && e.from == None && e.body == body
    && (forall a :: a in e.to <==> (list.id, a) in t.members && t.members[(list.id, a)].bounces)
    && (forall i, j | 0 <= i < j < |e.to| :: e.to[i] != e.to[j])
    && Has(e.header, "From", [lib.nameAddr(list.addr)])
    && Has(e.header, "To", [lib.addrSpec(BounceOf(list.addr.Spec()))])
    && exists prefix ::
         Has(e.header, "Subject", ["[" + prefix + "] Bounce notification: " + Get(h, "Subject")])
  }

  lemma BounceIsBouncedTo(lib: Library, t: Database, list: List, h: HeaderMap, body: string, e: Event)
    requires IsBounceOf(lib, t, list, h, body, e)
    ensures IsBouncedTo(lib, t, list, h, body, e)
  {
    hide Get, BounceOf, DisplayOrLocal;
    EachOnce(e.to, MembersWith(t, list, (f: Flags) => f.bounces));
    assert "Content-Type"[0] == 'C' && "From"[0] == 'F' && "Message-Id"[0] == 'M';
    assert "Subject"[0] == 'S' && "To"[0] == 'T';
    var id :| e.header == BounceHeader(lib, list, h, id);
    assert Has(e.header, "Subject",
               ["[" + DisplayOrLocal(list.addr) + "] Bounce notification: " + Get(h, "Subject")]);
  }

  /** The mailbox of the list is among the addresses in the field. */
  ghost predicate IsIn(lib: Library, h: HeaderMap, field: string, list: List) {
    exists addrs: seq<Addr> :: AreIn(lib, h, field, addrs) && exists a <- addrs :: a.Spec() == list.addr.Spec()
  }

  ghost predicate CanBeRead(lib: Library, h: HeaderMap, field: string) {
    exists addrs :: AreIn(lib, h, field, addrs)
  }

  /** Main result on the checks before anything is done: a post passes if and only if To and Cc can be read and the
      mailbox of every list is in one of them, and every List-Id can be read and is none of the lists; a bounce needs
      only the latter. */
  lemma ChecksPassExactly(lib: Library, isBounce: bool, lists: seq<List>, h: HeaderMap)
    ensures ChecksPass(lib, isBounce, lists, h) <==>
            && lists != []
            && (isBounce ||
                (CanBeRead(lib, h, "To") && CanBeRead(lib, h, "Cc")
                 && forall list <- lists :: IsIn(lib, h, "To", list) || IsIn(lib, h, "Cc", list)))
            && ("List-Id" in h ==> forall value <- h["List-Id"] ::
                  && lib.parseAddress(value).Some?
                  && forall list <- lists :: lib.parseAddress(value).value.Spec() != list.addr.Spec())
  {
    hide Get, EqualFold;
    forall list: List, a: Addr
      ensures list.addr.Equals(a) <==> a.Spec() == list.addr.Spec()
    {
      EqualsIffSame(list.addr, a);
    }
    FieldNames(lib, lists, h, "To");
    FieldNames(lib, lists, h, "Cc");
    hide IsIn, CanBeRead, Names, AddressesOf;
  }

  lemma FieldNames(lib: Library, lists: seq<List>, h: HeaderMap, field: string)
    ensures CanBeRead(lib, h, field) <==> AddressesOf(lib, h, field).Some?
    ensures AddressesOf(lib, h, field).Some? ==>
            forall list: List :: IsIn(lib, h, field, list) <==> Names(list, AddressesOf(lib, h, field).value)
  {
    hide Get, EqualFold;
    var addrs := AddressesOf(lib, h, field);
    if addrs.Some? {
      assert AreIn(lib, h, field, addrs.value);
      forall list: List
        ensures IsIn(lib, h, field, list) <==> Names(list, addrs.value)
      {
        forall a: Addr
          ensures list.addr.Equals(a) <==> a.Spec() == list.addr.Spec()
        {
          EqualsIffSame(list.addr, a);
        }
      }
    }
  }
}
