/** The list server: ulist.go, list.go and mod.go. Every database, mail and file operation may fail. */
module Ulists {
  import opened Addresses
  import opened Fold
  import opened Headers
  import opened ListDBs
  import opened Macs
  import opened Messages
  import opened Output
  import opened Reader
  import opened Tables
  import opened Text
  import Decides = Deciding

  /** Library code that is not part of this model, as functions. */
  datatype Library = Library(
    parseList: string -> Option<seq<Addr>>,
    parseAddress: string -> Option<Addr>,
    addrSpec: AddrSpec -> string,
    nameAddr: Addr -> string,
    mailto: (AddrSpec, string) -> string,
    prefixSubject: (Addr, string) -> string)

  /** What is assumed of printing and parsing: printed addresses have no NUL byte and can be told apart, and parsing
      what was printed gives the same mailbox. */
  ghost predicate Faithful(lib: Library) {
    && (forall a: AddrSpec :: NulFree(lib.addrSpec(a)))
    && (forall a, b: AddrSpec :: lib.addrSpec(a) == lib.addrSpec(b) ==> a == b)
    && (forall a: Addr ::
       lib.parseAddress(lib.nameAddr(a)).Some? && lib.parseAddress(lib.nameAddr(a)).value.Spec() == a.Spec())
  }

  /** `RFC5322AddrSpec` for addresses that need no quotes. */
  function Unquoted(a: AddrSpec): string {
    a.local + "@" + a.domain
  }

  /** The index behind the last `@`, or 0. */
  function BehindAt(s: string): (i: nat)
    ensures i <= |s| && '@' !in s[i..] && (i > 0 ==> s[i - 1] == '@')
  {
    if s == "" || s[|s| - 1] == '@' then |s|
    else
      var i := BehindAt(s[..|s| - 1]);
      assert s[i..] == s[..|s| - 1][i..] + [s[|s| - 1]];
      i
  }

  /** `NewAddr`: the local part may contain an `@`, so the text is split at the last one; letters become lower case. */
  function NewAddr(s: string): Option<Addr> {
    var i := BehindAt(s);
    if i == 0 then None
    else
      var local, domain := ToLower(s[..i - 1]), ToLower(s[i..]);
      var good := local != "" && domain != "" && NoControls(local) && NoControls(domain) && ' ' !in domain;
      if !good || '@' in domain then None else Some(Addr("", local, domain))
  }

  /** The `@` before the domain is the last one. */
  lemma BehindAtIs(local: string, domain: string)
    requires '@' !in domain
    ensures BehindAt(local + "@" + domain) == |local| + 1
  {
    var s, n := local + "@" + domain, |local|;
    var i := BehindAt(s);
    assert s[n] == '@';
    forall k | n < k < |s|
      ensures s[k] != '@'
    {
      assert s[k] == domain[k - n - 1];
    }
    forall k | i <= k < |s|
      ensures s[k] != '@'
    {
      assert s[k] == s[i..][k - i];
    }
  }

  lemma NewAddrOfUnquoted(a: AddrSpec)
    ensures BehindAt(Unquoted(a)) == |a.local| + 1
    ensures a.local != "" ==> NewAddr(Unquoted(a)).Some? && NewAddr(Unquoted(a)).value.Spec() == a
  {
    hide BehindAt, ToLower;
    var s, n := Unquoted(a), |a.local|;
    BehindAtIs(a.local, a.domain);
    assert s[..n] == a.local && s[n + 1..] == a.domain;
    LowerIsSame(a.local);
    LowerIsSame(a.domain);
  }

  /** Printing without quotes and display names, and splitting as `NewAddr` does, meet what is assumed. */
  lemma FaithfulExists() returns (lib: Library)
    ensures Faithful(lib) && lib.addrSpec == Unquoted && lib.parseAddress == NewAddr
  {
    lib := Library(s => None, NewAddr, Unquoted, (a: Addr) => Unquoted(a.Spec()), (a, query) => "",
          (a, subject) => subject);
    forall a: AddrSpec
      ensures NulFree(lib.addrSpec(a))
    {
      assert ' ' > NUL;
    }
    forall a: AddrSpec, b: AddrSpec | lib.addrSpec(a) == lib.addrSpec(b)
      ensures a == b
    {
      NewAddrOfUnquoted(a);
      NewAddrOfUnquoted(b);
      assert a.local == Unquoted(a)[..|a.local|] == b.local;
      assert a.domain == Unquoted(a)[|a.local| + 1..] == b.domain;
    }
    forall a: Addr
      ensures lib.parseAddress(lib.nameAddr(a)).Some? && lib.parseAddress(lib.nameAddr(a)).value.Spec() == a.Spec()
    {
      NewAddrOfUnquoted(a.Spec());
    }
  }

  /** A file of the moderation queue: list id and file name. */
  type FileKey = (int, string)

  /** What the server does to the world, in order. */
  datatype Event =
    | Sent(from: Option<AddrSpec>, to: seq<AddrSpec>, header: HeaderMap, body: string, ok: bool)
    | Stored(file: FileKey)
    | Leftover(file: FileKey)
    | Issued(list: List, addr: AddrSpec, timestamp: int, joins: bool)
    | Confirmed(list: List, addr: AddrSpec, at: int, joins: bool)

  const SEVEN_DAYS := 7 * 24 * 60 * 60

  /** A link for this list and address that was issued no longer than seven days before. */
  ghost predicate Entitles(e: Event, list: List, addr: AddrSpec, at: int) {
    && e.Issued? && e.list.hmacKey == list.hmacKey && e.list.addr.Spec() == list.addr.Spec()
    && e.addr == addr && e.timestamp >= at - SEVEN_DAYS
  }

  /** Double opt-in: nobody joins or leaves by a link that was not issued before. */
  ghost predicate OptIn(trace: seq<Event>) {
    forall i | 0 <= i < |trace| && trace[i].Confirmed? ::
      exists j | 0 <= j < i :: Entitles(trace[j], trace[i].list, trace[i].addr, trace[i].at)
  }

  ghost predicate NoneConfirmed(events: seq<Event>) {
    forall e <- events :: !e.Confirmed?
  }

  lemma OptInExtends(trace: seq<Event>, more: seq<Event>)
    requires OptIn(trace) && NoneConfirmed(more)
    ensures OptIn(trace + more)
  {
    var all := trace + more;
    assert forall i | |trace| <= i < |all| :: all[i] == more[i - |trace|] && all[i] in more;
    forall i | 0 <= i < |all| && all[i].Confirmed?
      ensures exists j | 0 <= j < i :: Entitles(all[j], all[i].list, all[i].addr, all[i].at)
    {
      if i < |trace| {
        var j :| 0 <= j < i && Entitles(trace[j], trace[i].list, trace[i].addr, trace[i].at);
        assert all[j] == trace[j];
      }
    }
  }

  /** The tag of a link. */
  function LinkTag(lib: Library, list: List, addr: AddrSpec, timestamp: int): Tag {
    Tag(list.hmacKey, MacInput(lib.addrSpec(list.addr.Spec()), Some(lib.addrSpec(addr)), timestamp))
  }

  /** An ideal MAC: who presents a genuine tag has it from a link. */
  ghost predicate Unforged(lib: Library, trace: seq<Event>, tag: Tag) {
    tag.Tag? ==> exists i | 0 <= i < |trace| ::
        trace[i].Issued? && tag == LinkTag(lib, trace[i].list, trace[i].addr, trace[i].timestamp)
  }

  /** A tag that validates stands for a link of the same list, address and time. */
  lemma ValidTagWasIssued(lib: Library, trace: seq<Event>, list: List, addr: AddrSpec, timestamp: int)
    requires Faithful(lib) && Unforged(lib, trace, LinkTag(lib, list, addr, timestamp))
    ensures exists i | 0 <= i < |trace| ::
              && trace[i].Issued? && trace[i].list.hmacKey == list.hmacKey
                 && trace[i].list.addr.Spec() == list.addr.Spec()
              && trace[i].addr == addr && trace[i].timestamp == timestamp
  {
    var i :| 0 <= i < |trace| && trace[i].Issued?
        && LinkTag(lib, list, addr, timestamp) == LinkTag(lib, trace[i].list, trace[i].addr, trace[i].timestamp);
    var e := trace[i];
    MacInputIsInjective(lib.addrSpec(list.addr.Spec()), Some(lib.addrSpec(addr)), timestamp,
                        lib.addrSpec(e.list.addr.Spec()), Some(lib.addrSpec(e.addr)), e.timestamp);
  }

  /** The text before the first `@`. */
  function BeforeAt(s: string): string {
    if s == "" || s[0] == '@' then "" else [s[0]] + BeforeAt(s[1..])
  }

  function DisplayOrLocal(a: Addr): string {
    BeforeAt(if a.display != "" then a.display else a.local)
  }

  function NotifyHeader(lib: Library, list: List, recipient: AddrSpec, subject: string, messageId: string): HeaderMap {
    map["Content-Type" := ["text/plain; charset=utf-8"],
        "From" := [lib.nameAddr(list.addr)],
        "Message-Id" := [messageId],
        "Subject" := ["[" + DisplayOrLocal(list.addr) + "] " + subject],
        "To" := [lib.addrSpec(recipient)]]
  }

  /** `ParseAddressesFromHeader`. */
  function AddressesOf(lib: Library, h: HeaderMap, field: string): Option<seq<Addr>> {
    if Get(h, field) == "" then Some([]) else lib.parseList(Get(h, field))
  }

  /** `IsSpamKey`. */
  predicate IsSpamKey(key: string) {
    Canonical(key) in Decides.SPAM_KEYS
  }

  /** "Alice via List", at the address of the list. */
  function Munged(from: Addr, list: List): Addr {
    Addr(DisplayOrLocal(from) + " via " + DisplayOrLocal(list.addr), list.addr.local, list.addr.domain)
  }

  function MungedFroms(lib: Library, list: List, froms: seq<Addr>): seq<string> {
    seq(|froms|, i requires 0 <= i < |froms| => lib.nameAddr(Munged(froms[i], list)))
  }

  function NameAddrs(lib: Library, froms: seq<Addr>): seq<string> {
    seq(|froms|, i requires 0 <= i < |froms| => lib.nameAddr(froms[i]))
  }

  /** The fields that every forwarded message gets anew. */
  function ListFields(lib: Library, list: List, h: HeaderMap, messageId: string): HeaderMap {
    map["List-Id" := [lib.nameAddr(list.addr)],
        "List-Post" := [lib.mailto(list.addr.Spec(), "")],
        "List-Unsubscribe" := [lib.mailto(list.addr.Spec(), "subject=leave")],
        "Message-Id" := [messageId],
        "Subject" := [lib.prefixSubject(list.addr, Get(h, "Subject"))],
        "Dkim-Signature" := []]
  }

  /** From and Reply-To of a forwarded message. */
  function FromFields(lib: Library, list: List, froms: seq<Addr>): HeaderMap {
    if list.hideFrom then map["From" := [lib.nameAddr(list.addr)], "Reply-To" := []]
    else map["From" := [Join(MungedFroms(lib, list, froms), ",")], "Reply-To" := [AddressList(NameAddrs(lib, froms))]]
  }

  function WithoutSpam(h: HeaderMap): HeaderMap {
    map key | key in h && !IsSpamKey(key) :: h[key]
  }

  /** The header of a forwarded message, before the footer is inserted. */
  function ForwardHeader(lib: Library, list: List, h: HeaderMap, froms: seq<Addr>, messageId: string): HeaderMap {
    WithoutSpam(h) + ListFields(lib, list, h, messageId) + FromFields(lib, list, froms)
    + map["Sender" := []]
  }

  /** The only message that cannot be forwarded as such has a From field that cannot be parsed. */
  predicate Forwardable(lib: Library, list: List, h: HeaderMap) {
    list.hideFrom || AddressesOf(lib, h, "From").Some?
  }

  lemma SameContent(h: HeaderMap)
    ensures SameButContent(h, h)
  {
  }

  /** Inserting the footer may change these fields. */
  const CONTENT_KEYS := {"Content-Type", "Content-Disposition", "Content-Transfer-Encoding"}

  ghost predicate SameButContent(a: HeaderMap, b: HeaderMap) {
    a - CONTENT_KEYS == b - CONTENT_KEYS
  }

  /** `sent` is exactly the header `h`, rewritten for the list. */
  ghost predicate IsRewritten(lib: Library, list: List, h: HeaderMap, sent: HeaderMap) {
    exists froms, id ::
      && (list.hideFrom || AddressesOf(lib, h, "From") == Some(froms))
      && sent == ForwardHeader(lib, list, h, froms, id)
  }

  /** `sent` is the header `h`, rewritten for the list, but for what the footer may change. */
  ghost predicate IsForwardHeader(lib: Library, list: List, h: HeaderMap, sent: HeaderMap) {
    exists froms, id ::
      && (list.hideFrom || AddressesOf(lib, h, "From") == Some(froms))
      && SameButContent(sent, ForwardHeader(lib, list, h, froms, id))
  }

  /** `e` forwards a message over the list to its receivers; without a web interface there is no footer, and the body is
      as it was. */
  ghost predicate IsForward(lib: Library, t: Database, web: bool, list: List, h: HeaderMap, body: string, e: Event) {
    && e.Sent? && e.from == Some(BounceOf(list.addr.Spec()))
    && multiset(e.to) == multiset(MembersWith(t, list, (f: Flags) => f.receive))
    && IsForwardHeader(lib, list, h, e.header) && (!web ==> e.body == body && IsRewritten(lib, list, h, e.header))
  }

  /** `e` tells the recipient something about the list. */
  ghost predicate IsNotification(lib: Library, list: List, recipient: AddrSpec, subject: string, e: Event) {
    && e.Sent? && e.from == Some(BounceOf(list.addr.Spec())) && e.to == [recipient]
    && exists id :: e.header == NotifyHeader(lib, list, recipient, subject, id)
  }

  lemma NotificationIs(lib: Library, list: List, recipient: AddrSpec, subject: string, id: string, e: Event)
    requires e.Sent? && e.from == Some(BounceOf(list.addr.Spec())) && e.to == [recipient]
             && e.header == NotifyHeader(lib, list, recipient, subject, id)
    ensures IsNotification(lib, list, recipient, subject, e)
  {
    hide NotifyHeader;
  }

  /** What a notification says at its head. */
  lemma NotificationSays(lib: Library, list: List, recipient: AddrSpec, subject: string, e: Event)
    requires IsNotification(lib, list, recipient, subject, e)
    ensures e.Sent? && e.from == Some(BounceOf(list.addr.Spec())) && e.to == [recipient]
    ensures "To" in e.header && e.header["To"] == [lib.addrSpec(recipient)]
    ensures "From" in e.header && e.header["From"] == [lib.nameAddr(list.addr)]
    ensures "Subject" in e.header && exists prefix :: e.header["Subject"] == ["[" + prefix + "] " + subject]
    ensures e.header.Keys == {"Content-Type", "From", "Message-Id", "Subject", "To"}
  {
    hide DisplayOrLocal, BounceOf;
    assert "Content-Type"[0] == 'C' && "From"[0] == 'F' && "Message-Id"[0] == 'M';
    assert "Subject"[0] == 'S' && "To"[0] == 'T';
  }

  const MOD_SUBJECT := "A message needs moderation"

  /** The subject of a mail with a link for joining or leaving. */
  function AskSubject(lib: Library, list: List, joins: bool): string {
    (if joins then "Please confirm: join the mailing list " else "Please confirm: leave the mailing list ")
    + lib.addrSpec(list.addr.Spec())
  }

  datatype Problem =
    DatabaseProblem | HeaderProblem | MailProblem | FileProblem | FooterProblem | AlreadyRequested | LinkProblem

  type Outcome = Option<Problem>

  /** Posting and bounce addresses of lists are routed to the list server. */
  ghost predicate Routed(t: Database, a: AddrSpec) {
    ListAt(t, a.(local := WithoutBounce(a.local))).Some?
  }

  /** A confirmation mail for this list and address was recorded, and another one is not due yet. */
  predicate AskedBefore(sent: map<(AddrSpec, AddrSpec), int>, list: List, a: AddrSpec, now: int) {
    (a, list.addr.Spec()) in sent && sent[(a, list.addr.Spec())] < now + SEVEN_DAYS
  }

  /** Who was asked once is never asked again, unless the clock is set back by seven days or more: the comparison is
      with a time in the future. */
  lemma AskedForEver(sent: map<(AddrSpec, AddrSpec), int>, list: List, a: AddrSpec, at: int, now: int)
    ensures AskedBefore(sent[(a, list.addr.Spec()) := at], list, a, now) <==> now > at - 7 * 86400
    ensures (a, list.addr.Spec()) !in sent ==> !AskedBefore(sent, list, a, now)
  {
  }

  /** File names as the moderation page shows them. */
  predicate PlainName(name: string) {
    !Contains(name, "..") && '/' !in name
  }

  /** There is such a file, and it can be parsed. */
  ghost predicate IsReadable(files: map<FileKey, string>, file: FileKey) {
    file in files && Messages.ReadMessage(files[file]).Success?
  }

  class Ulist {
    const lib: Library
    const db: ListDB
    /** Whether there is a web interface. */
    const web: bool
    var files: map<FileKey, string>
    var trace: seq<Event>
    var sentJoin: map<(AddrSpec, AddrSpec), int>
    var sentLeave: map<(AddrSpec, AddrSpec), int>

    /** In every reachable state, double opt-in holds of all that has happened. */
    ghost predicate Valid()
      reads this, db
    {
      Faithful(lib) && OptIn(trace) && UniqueAddresses(db.State())
    }

    constructor (lib: Library, db: ListDB, web: bool)
      requires Faithful(lib) && UniqueAddresses(db.State())
      ensures Valid() && this.lib == lib && this.db == db && this.web == web
      ensures trace == [] && files == map[] && sentJoin == map[] && sentLeave == map[]
    {
      this.lib, this.db, this.web := lib, db, web;
      files, trace, sentJoin, sentLeave := map[], [], map[], map[];
    }

    /** Whether mail to this address is for the list server, as the socketmap service tells the mail transfer agent. */
    method IsListOrBounce(a: AddrSpec) returns (r: Result<bool>)
      ensures r.Ok? ==> r.value == Routed(db.State(), a)
    {
      r := db.IsList(a.(local := WithoutBounce(a.local)));
    }

    /** Hands a message to the mail transfer agent. The attempt is recorded even if it fails. */
    method Send(from: Option<AddrSpec>, to: seq<AddrSpec>, header: HeaderMap, body: string) returns (ok: bool)
      requires Valid()
      modifies this`trace
      ensures Valid() && trace == old(trace) + [Sent(from, to, header, body, ok)]
    {
      var fails := Fails();
      ok := !fails;
      OptInExtends(trace, [Sent(from, to, header, body, ok)]);
      trace := trace + [Sent(from, to, header, body, ok)];
    }

    method Notify(list: List, recipient: AddrSpec, subject: string, body: string) returns (ok: bool)
      requires Valid()
      modifies this`trace
      ensures Valid() && |trace| == |old(trace)| + 1 && trace[..|old(trace)|] == old(trace)
      ensures trace[|old(trace)|].Sent? && IsNotification(lib, list, recipient, subject, trace[|old(trace)|])
              && trace[|old(trace)|].body == body
              && trace[|old(trace)|].ok == ok
      ensures trace[|old(trace)|].to == [recipient] && trace[|old(trace)|].from == Some(BounceOf(list.addr.Spec()))
    {
      hide OptIn, Faithful, NotifyHeader, IsNotification;
      var messageId: string := *;
      ok := Send(Some(BounceOf(list.addr.Spec())), [recipient], NotifyHeader(lib, list, recipient, subject, messageId),
            body);
      NotificationIs(lib, list, recipient, subject, messageId, trace[|old(trace)|]);
    }

    /** Creates a link for joining or leaving, if there is a web interface. */
    method IssueLink(list: List, recipient: AddrSpec, now: int, joins: bool) returns (ok: bool)
      requires Valid()
      modifies this`trace
      ensures Valid() && ok == (web ==> UsableKey(list.hmacKey))
      ensures trace == old(trace) + if web && ok then [Issued(list, recipient, now, joins)] else []
    {
      ok := true;
      if web {
        var made := CreateTag(list.hmacKey, lib.addrSpec(list.addr.Spec()), Some(lib.addrSpec(recipient)), now);
        if made.NotMade? {
          return false;
        }
        OptInExtends(trace, [Issued(list, recipient, now, joins)]);
        trace := trace + [Issued(list, recipient, now, joins)];
      }
    }

    /** Sends a link for joining, unless the recipient is a member already. The caller has checked the authorization. */
    method SendJoinCheckback(list: List, recipient: AddrSpec, now: int) returns (problem: Outcome)
      requires Valid()
      modifies this`trace, this`sentJoin
      ensures Valid()
      ensures IsAnswered(this, AskedBefore(old(sentJoin), list, recipient, now), list, recipient, true, now,
                         old(trace), trace, problem)
      ensures sentJoin ==
              if problem.None? && |trace| > |old(trace)| then old(sentJoin)[(recipient, list.addr.Spec()) := now]
              else old(sentJoin)
    {
      hide OptIn, Faithful, UniqueAddresses, IsNotification, AskSubject;
      if (recipient, list.addr.Spec()) in sentJoin {
        if sentJoin[(recipient, list.addr.Spec())] < now + SEVEN_DAYS {
          return Some(AlreadyRequested);
        }
      }
      var m := db.GetMembership(list, recipient);
      if m.Err? {
        return Some(DatabaseProblem);
      }
      if m.value.Some? {
        return None;
      }
      var ok := IssueLink(list, recipient, now, true);
      if !ok {
        return Some(LinkProblem);
      }
      var body: string := *;
      ok := Notify(list, recipient, AskSubject(lib, list, true), body);
      if !ok {
        return Some(MailProblem);
      }
      sentJoin := sentJoin[(recipient, list.addr.Spec()) := now];
      problem := None;
    }

    /** Sends a link for leaving, if the user is a member. */
    method SendLeaveCheckback(list: List, user: AddrSpec, now: int) returns (sent: bool, problem: Outcome)
      requires Valid()
      modifies this`trace, this`sentLeave
      ensures Valid()
      ensures IsAnswered(this, AskedBefore(old(sentLeave), list, user, now), list, user, false, now,
                         old(trace), trace, problem)
      ensures sent <==> problem.None? && (list.id, user) in db.members
      ensures sentLeave == if sent then old(sentLeave)[(user, list.addr.Spec()) := now] else old(sentLeave)
    {
      hide OptIn, Faithful, UniqueAddresses, IsNotification, AskSubject;
      sent := false;
      if (user, list.addr.Spec()) in sentLeave {
        if sentLeave[(user, list.addr.Spec())] < now + SEVEN_DAYS {
          return false, Some(AlreadyRequested);
        }
      }
      var m := db.GetMembership(list, user);
      if m.Err? {
        return false, Some(DatabaseProblem);
      }
      if m.value.None? {
        return false, None;
      }
      var ok := IssueLink(list, user, now, false);
      if !ok {
        return false, Some(LinkProblem);
      }
      var body: string := *;
      ok := Notify(list, user, AskSubject(lib, list, false), body);
      if !ok {
        return false, Some(MailProblem);
      }
      sentLeave := sentLeave[(user, list.addr.Spec()) := now];
      return true, None;
    }

    /** Asks every moderator to look at the queue. A failing notification does not stop the others. */
    method NotifyMods(list: List, mods: seq<AddrSpec>) returns (ok: bool)
      requires Valid()
      modifies this`trace
      ensures Valid() && old(trace) <= trace && AreNotifications(lib, list, mods, MOD_SUBJECT, trace[|old(trace)|..])
      ensures ok == AllSent(trace[|old(trace)|..])
    {
      ok := true;
      ghost var before := |trace|;
      for i := 0 to |mods|
        invariant Valid() && |trace| == before + i && trace[..before] == old(trace)
        invariant AreNotifications(lib, list, mods[..i], MOD_SUBJECT, trace[before..])
        invariant ok == AllSent(trace[before..])
      {
        var body: string := *;
        var sent := Notify(list, mods[i], MOD_SUBJECT, body);
        if !sent {
          ok := false;
        }
        assert trace[before..] == trace[before..before + i] + [trace[before + i]];
      }
      assert mods[..|mods|] == mods;
    }

    /** Adds members and welcomes those who were added, if wanted. */
    method AddMembers(list: List, sendWelcome: bool, addrs: seq<Addr>, flags: Flags) returns (added: nat, fine: bool)
      requires Valid()
      modifies this`trace, db`members
      ensures Valid() && old(trace) <= trace
      ensures var people := if sendWelcome && added > 0 then Others(list, addrs) else [];
              AreWelcomes(lib, list, people, "Welcome", trace[|old(trace)|..])
      ensures |trace| - |old(trace)| == if sendWelcome then added else 0
      ensures added == 0 ==> db.State() == old(db.State())
      ensures fine ==> added == |Others(list, addrs)| && AllSent(trace[|old(trace)|..])
      ensures !fine ==> added == 0 || !AllSent(trace[|old(trace)|..])
      ensures added > 0 ==>
              db.State() == Effect(old(db.State()), Operation.AddMembers(list, addrs, flags))
                  && added == |Others(list, addrs)|
    {
      hide OptIn, Faithful;
      var r := db.AddMembers(list, addrs, flags);
      if r.Err? {
        return 0, false;
      }
      added := |r.value|;
      NothingToChange(old(db.State()), list, flags);
      fine := true;
      if sendWelcome {
        fine := NotifyAll(list, r.value, "Welcome");
      }
    }

    /** Removes members and says goodbye to them, if wanted. */
    method RemoveMembers(list: List, sendGoodbye: bool, addrs: seq<Addr>) returns (removed: nat, fine: bool)
      requires Valid()
      modifies this`trace, db`members
      ensures Valid() && old(trace) <= trace
      ensures AreWelcomes(lib, list, if sendGoodbye && removed > 0 then addrs else [], "Goodbye", trace[|old(trace)|..])
      ensures |trace| - |old(trace)| == if sendGoodbye then removed else 0
      ensures removed > 0 ==>
              db.State() == Effect(old(db.State()), Operation.RemoveMembers(list, addrs)) && removed == |addrs|
      ensures removed == 0 ==> db.State() == old(db.State())
      ensures fine ==> removed == |addrs| && AllSent(trace[|old(trace)|..])
      ensures !fine ==> removed == 0 || !AllSent(trace[|old(trace)|..])
    {
      hide OptIn, Faithful;
      var r := db.RemoveMembers(list, addrs);
      if r.Err? {
        return 0, false;
      }
      removed := |r.value|;
      NothingToChange(old(db.State()), list, Flags(false, false, false, false, false));
      fine := true;
      if sendGoodbye {
        fine := NotifyAll(list, r.value, "Goodbye");
      }
    }

    /** Notifies every address; a failing notification does not stop the others. */
    method NotifyAll(list: List, addrs: seq<Addr>, subject: string) returns (fine: bool)
      requires Valid()
      modifies this`trace
      ensures Valid() && old(trace) <= trace && AreWelcomes(lib, list, addrs, subject, trace[|old(trace)|..])
      ensures fine == AllSent(trace[|old(trace)|..])
    {
      hide OptIn, Faithful;
      fine := true;
      ghost var before := |trace|;
      for i := 0 to |addrs|
        invariant Valid() && |trace| == before + i && trace[..before] == old(trace)
        invariant AreWelcomes(lib, list, addrs[..i], subject, trace[before..])
        invariant fine == AllSent(trace[before..])
      {
        var body: string := *;
        var sent := Notify(list, addrs[i].Spec(), subject, body);
        fine := fine && sent;
        assert trace[before..] == trace[before..before + i] + [trace[before + i]];
      }
      assert addrs[..|addrs|] == addrs;
    }

    /** Stores a message in the moderation queue of the list, in a file with a new name. */
    method Save(list: List, m: Message) returns (problem: Outcome, file: FileKey)
      requires Valid()
      modifies this`files, this`trace, m.header
      ensures Valid()
      ensures problem.None? ==>
                && file.0 == list.id && PlainName(file.1) && file !in old(files)
                && files == old(files)[file := SavedText(old(m.header.fields), m.body)]
                   && trace == old(trace) + [Stored(file)]
      ensures problem.Some? && trace == old(trace) ==> files == old(files)
      ensures problem.Some? && trace != old(trace) ==>
                && file.0 == list.id && file !in old(files) && trace == old(trace) + [Leftover(file)]
                && file in files && files == old(files)[file := files[file]]
                   && files[file] <= SavedText(old(m.header.fields), m.body)
      ensures PartlyJoined(old(m.header.fields), m.header.fields)
    {
      hide SavedText, OptIn, Faithful;
      ghost var h := m.header.fields;
      var name: string := *;
      file := (list.id, name);
      var fails := Fails();
      if fails || file in files || !PlainName(name) {
        return Some(FileProblem), file;
      }
      ghost var before := files;
      files := files[file := ""];
      var w := new Writer();
      var err := Messages.Save(m, w);
      files := files[file := w.out];
      assert "" + SavedText(h, m.body) == SavedText(h, m.body);
      if err != NoError {
        fails := Fails();
        if fails {
          OptInExtends(trace, [Leftover(file)]);
          trace := trace + [Leftover(file)];
        } else {
          files := files - {file};
          assert files == before;
        }
        return Some(FileProblem), file;
      }
      OptInExtends(trace, [Stored(file)]);
      trace := trace + [Stored(file)];
      problem := None;
    }

    /** Reads a message of the moderation queue. */
    method ReadMessage(list: List, filename: string) returns (m: Option<Message>, ghost fault: bool)
      ensures m.Some? <==> !fault && PlainName(filename) && IsReadable(files, (list.id, filename))
      ensures m.Some? ==>
                && fresh(m.value.header)
                && Messages.ReadMessage(files[(list.id, filename)]) == Success((m.value.header.fields, m.value.body))
    {
      hide Messages.ReadMessage;
      fault := false;
      if !PlainName(filename) {
        return None, false;
      }
      var fails := Fails();
      if fails || (list.id, filename) !in files {
        return None, fails;
      }
      match Messages.ReadMessage(files[(list.id, filename)])
      case Failure(_) =>
        m := None;
      case Success((fields, body)) =>
        var header := new Header(fields);
        m := Some(Message(header, body));
    }

    /** Removes a message from the moderation queue. */
    method DeleteModeratedMail(list: List, filename: string) returns (ok: bool, ghost fault: bool)
      requires PlainName(filename)
      modifies this`files
      ensures ok <==> !fault && filename != "" && (list.id, filename) in old(files)
      ensures ok ==> files == old(files) - {(list.id, filename)}
      ensures !ok ==> files == old(files)
    {
      if filename == "" {
        return false, false;
      }
      var fails := Fails();
      if fails || (list.id, filename) !in files {
        return false, fails;
      }
      files := files - {(list.id, filename)};
      ok, fault := true, false;
    }

    /** Forwards a message over the list: the main job. */
    method Forward(list: List, m: Message) returns (problem: Outcome)
      requires Valid()
      modifies this`trace
      ensures Valid()
      ensures problem == Some(HeaderProblem) <==> !Forwardable(lib, list, m.header.fields)
      ensures problem.Some? ==> problem.value in {HeaderProblem, FooterProblem, DatabaseProblem, MailProblem}
      ensures problem == Some(FooterProblem) ==> web
      ensures trace == old(trace) <==> problem.Some? && problem.value != MailProblem
      ensures trace != old(trace) ==>
                && |trace| == |old(trace)| + 1 && trace[..|old(trace)|] == old(trace)
                && IsForward(lib, db.State(), web, list, m.header.fields, m.body, trace[|old(trace)|])
                && (problem.None? <==> trace[|old(trace)|].ok)
    {
      hide IsForwardHeader, IsRewritten, AddressesOf, OptIn, Faithful, UniqueAddresses;
      var body := m.body;
      var header := RewrittenHeader(list, m.header.fields);
      if header.None? {
        return Some(HeaderProblem);
      }
      SameContent(header.value);
      FooterKeepsForwardHeader(lib, list, m.header.fields, header.value, header.value);
      if web {
        var inserted: Option<(HeaderMap, string)> := InsertFooter(header.value, body);
        if inserted.None? {
          return Some(FooterProblem);
        }
        FooterKeepsForwardHeader(lib, list, m.header.fields, header.value, inserted.value.0);
        header, body := Some(inserted.value.0), inserted.value.1;
      }
      var recipients := db.MembersWhere(list, (f: Flags) => f.receive);
      if recipients.Err? {
        return Some(DatabaseProblem);
      }
      var ok := Send(Some(BounceOf(list.addr.Spec())), recipients.value, header.value, body);
      problem := if ok then None else Some(MailProblem);
    }

    /** The first part of the header that `Forward` fills step by step. */
    method WithListFields(list: List, h: HeaderMap) returns (header: HeaderMap, messageId: string)
      ensures header == WithoutSpam(h) + ListFields(lib, list, h, messageId)
    {
      hide IsSpamKey, Get;
      messageId := *;
      header := WithoutSpam(h);
      ghost var base := header;
      NotSpamKey("Subject");
      GetWithoutSpam(h, "Subject");
      OthersUntouched(base, [lib.nameAddr(list.addr)], [lib.mailto(list.addr.Spec(), "")],
                      [lib.mailto(list.addr.Spec(), "subject=leave")], [messageId]);
      header := header["List-Id" := [lib.nameAddr(list.addr)]];
      header := header["List-Post" := [lib.mailto(list.addr.Spec(), "")]];
      header := header["List-Unsubscribe" := [lib.mailto(list.addr.Spec(), "subject=leave")]];
      header := header["Message-Id" := [messageId]];
      header := header["Subject" := [lib.prefixSubject(list.addr, Get(header, "Subject"))]];
      header := header["Dkim-Signature" := []];
    }

    /** The whole header of a forwarded message, without the footer. */
    method RewrittenHeader(list: List, h: HeaderMap) returns (r: Option<HeaderMap>)
      ensures r.Some? ==> IsRewritten(lib, list, h, r.value)
      ensures r.None? <==> !list.hideFrom && AddressesOf(lib, h, "From").None?
    {
      hide IsSpamKey, MungedFroms, NameAddrs, Get, ListFields, IsRewritten, ForwardHeader, WithoutSpam, Join,
           AddressList;
      var header, messageId := WithListFields(list, h);
      ghost var base := header;
      NotSpamKey("From");
      GetWithoutSpam(h, "From");
      FromUntouched(lib, list, h, messageId, WithoutSpam(h));
      var froms: seq<Addr> := [];
      if list.hideFrom {
        header := header["From" := [lib.nameAddr(list.addr)]];
        header := header["Reply-To" := []];
      } else {
        var oldFroms := AddressesOf(lib, header, "From");
        if oldFroms.None? {
          return None;
        }
        froms := oldFroms.value;
        header := header["From" := [Join(MungedFroms(lib, list, froms), ",")]];
        header := header["Reply-To" := [AddressList(NameAddrs(lib, froms))]];
      }
      assert header == base + FromFields(lib, list, froms);
      header := header["Sender" := []];
      RewrittenIs(lib, list, h, froms, messageId, header);
      r := Some(header);
    }
  }

  lemma RewrittenIs(lib: Library, list: List, h: HeaderMap, froms: seq<Addr>, id: string, header: HeaderMap)
    requires list.hideFrom || AddressesOf(lib, h, "From") == Some(froms)
    requires header ==
             (WithoutSpam(h) + ListFields(lib, list, h, id) + FromFields(lib, list, froms))["Sender" := []]
    ensures IsRewritten(lib, list, h, header)
  {
    hide WithoutSpam, ListFields, FromFields, AddressesOf;
    assert header == ForwardHeader(lib, list, h, froms, id);
  }

  lemma FooterKeepsForwardHeader(lib: Library, list: List, h: HeaderMap, a: HeaderMap, b: HeaderMap)
    requires IsRewritten(lib, list, h, a) && SameButContent(b, a)
    ensures IsForwardHeader(lib, list, h, b)
  {
    hide ForwardHeader, AddressesOf;
  }

  /** One notification for each recipient, in order, whether or not it could be sent. */
  ghost predicate AreNotifications(lib: Library, list: List, recipients: seq<AddrSpec>, subject: string,
          events: seq<Event>)
  {
    |events| == |recipients| && forall i | 0 <= i < |events| ::
        IsNotification(lib, list, recipients[i], subject, events[i])
  }

  lemma NothingToChange(t: Database, list: List, flags: Flags)
    ensures forall addrs | Others(list, addrs) == [] :: Effect(t, Operation.AddMembers(list, addrs, flags)) == t
    ensures Effect(t, Operation.RemoveMembers(list, [])) == t
  {
    assert Tables.Keys(list, []) == {};
    assert t.members - {} == t.members;
  }

  ghost predicate AllSent(events: seq<Event>) {
    forall e <- events :: e.Sent? ==> e.ok
  }

  /** One notification for each person, in order. */
  ghost predicate AreWelcomes(lib: Library, list: List, people: seq<Addr>, subject: string, events: seq<Event>) {
    |events| == |people| && forall i | 0 <= i < |events| ::
        IsNotification(lib, list, people[i].Spec(), subject, events[i])
  }

  /** Every person gets one mail alone, in this order. */
  lemma WelcomesGoTo(lib: Library, list: List, people: seq<Addr>, subject: string, events: seq<Event>)
    requires AreWelcomes(lib, list, people, subject, events)
    ensures |events| == |people|
    ensures forall i | 0 <= i < |events| :: events[i].Sent? && events[i].to == [people[i].Spec()]
  {
    hide NotifyHeader;
  }

  /** What asking for a confirmation may do: nothing, or issue a link (with a web interface), or issue it and
      mail it to the address in question; if the mail went out and nothing failed, both. */
  ghost predicate IsRequest(u: Ulist, list: List, a: AddrSpec, joins: bool, now: int, before: seq<Event>,
          after: seq<Event>, fine: bool)
  {
    var links := if u.web then [Issued(list, a, now, joins)] else [];
    || after == before
    || (!fine && after == before + links)
    || exists e ::
       after == before + links + [e] && IsNotification(u.lib, list, a, AskSubject(u.lib, list, joins), e)
           && (fine <==> e.ok)
  }

  /** How asking for a confirmation ends: it is refused exactly if it was asked before; without a problem the mail goes
      out exactly to those whom it concerns; and the other problems are what they say. */
  ghost predicate IsAnswered(u: Ulist, asked: bool, list: List, a: AddrSpec, joins: bool, now: int, before: seq<Event>,
          after: seq<Event>, problem: Outcome)
    reads u.db
  {
    && IsRequest(u, list, a, joins, now, before, after, problem.None?)
    && (asked <==> problem == Some(AlreadyRequested))
    && (problem.None? ==> (|after| > |before| <==> ((list.id, a) in u.db.members) != joins))
    && (problem.Some? ==> problem.value in {AlreadyRequested, DatabaseProblem, LinkProblem, MailProblem})
    && (problem.Some? ==> (after == before <==> problem != Some(MailProblem)))
    && (problem == Some(LinkProblem) ==> u.web && !UsableKey(list.hmacKey))
    && (problem == Some(MailProblem) ==> after != [] && after[|after| - 1].Sent? && !after[|after| - 1].ok)
  }

  /** Who gets such a mail: nobody but the address in question, and only if it is no member and asked to join, or is a
      member and asked to leave. */
  lemma AnswerGoesTo(u: Ulist, asked: bool, list: List, a: AddrSpec, joins: bool, now: int, before: seq<Event>,
          after: seq<Event>, problem: Outcome)
    requires IsAnswered(u, asked, list, a, joins, now, before, after, problem)
    ensures before <= after && forall e <- after[|before|..] ::
              (e.Sent? && e.to == [a]) || e == Issued(list, a, now, joins)
    ensures problem.None? && ((list.id, a) in u.db.members) != joins ==>
              |after| > |before| && after[|after| - 1].Sent? && after[|after| - 1].ok && after[|after| - 1].to == [a]
    ensures problem.None? && ((list.id, a) in u.db.members) == joins ==> after == before
  {
    hide NotifyHeader, AskSubject, BounceOf;
  }

  /** Setting the List fields and Message-Id leaves Subject alone. */
  lemma OthersUntouched(m: HeaderMap, a: seq<string>, b: seq<string>, c: seq<string>, d: seq<string>)
    ensures Get(m["List-Id" := a]["List-Post" := b]["List-Unsubscribe" := c]["Message-Id" := d], "Subject") ==
            Get(m, "Subject")
  {
    var s := "Subject";
    assert s[0] == 'S' && "List-Id"[0] == 'L' && "List-Post"[0] == 'L' && "List-Unsubscribe"[0] == 'L'
           && "Message-Id"[0] == 'M';
  }

  lemma FromUntouched(lib: Library, list: List, h: HeaderMap, messageId: string, m: HeaderMap)
    ensures Get(m + ListFields(lib, list, h, messageId), "From") == Get(m, "From")
  {
    var s := "From";
    assert s[0] == 'F' && "List-Id"[0] == 'L' && "List-Post"[0] == 'L' && "List-Unsubscribe"[0] == 'L'
           && "Message-Id"[0] == 'M';
    assert "Subject"[0] == 'S' && "Dkim-Signature"[0] == 'D';
  }

  lemma NotSpamKey(key: string)
    requires key != "" && key[0] != 'X' && key[0] != 'x'
    ensures !IsSpamKey(key)
  {
    assert Canonical(key)[0] != 'X';
  }

  lemma GetWithoutSpam(h: HeaderMap, key: string)
    requires !IsSpamKey(key)
    ensures Get(WithoutSpam(h), key) == Get(h, key)
  {
  }

  /** Inserts the footer with the link for leaving: some change of the body and the fields that describe it, or an
      error. */
  method InsertFooter(header: HeaderMap, body: string) returns (r: Option<(HeaderMap, string)>)
    ensures r.Some? ==> SameButContent(r.value.0, header)
  {
    var fails := Fails();
    if fails {
      return None;
    }
    var content: HeaderMap := *;
    var changed: string := *;
    r := Some(((header - CONTENT_KEYS) + (content - (content.Keys - CONTENT_KEYS)), changed));
    assert r.value.0 - CONTENT_KEYS == header - CONTENT_KEYS;
  }
}
