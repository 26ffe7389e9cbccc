/** The web interface: confirmation links and the moderation form of web/web.go. */
module Webs {
  import opened Addresses
  import opened Macs
  import opened Moderations
  import opened Reader
  import opened Tables
  import opened Text
  import opened Ulists
  import Messages

  /** The link can be parsed, is genuine for this list and address, and not too old. */
  ghost predicate ValidLink(lib: Library, list: List, address: Option<Addr>, timestamp: Option<int>, tag: Option<Tag>,
          now: int)
  {
    && address.Some? && timestamp.Some? && tag.Some? && UsableKey(list.hmacKey)
    && tag.value == LinkTag(lib, list, address.value.Spec(), timestamp.value) && timestamp.value >= now - SEVEN_DAYS
  }

  /** The tag of a link does not say what the link is for: a link that was issued for joining is valid for leaving and
      the other way round, for seven days. */
  lemma LinksServeBoth(lib: Library, list: List, addr: Addr, timestamp: int, issuedFor: bool, now: int)
    requires UsableKey(list.hmacKey) && timestamp >= now - SEVEN_DAYS
    ensures var tag, trace := LinkTag(lib, list, addr.Spec(), timestamp),
              [Issued(list, addr.Spec(), timestamp, issuedFor)];
            Unforged(lib, trace, tag) && ValidLink(lib, list, Some(addr), Some(timestamp), Some(tag), now)
  {
    hide MacInput;
    var trace := [Issued(list, addr.Spec(), timestamp, issuedFor)];
    assert trace[0].Issued?;
  }

  datatype JoinResult = NoValidLink | Already | NotYet | DatabaseError | ShowButton | Finished(changed: nat)

  /** `m` is what reading the file has given. */
  ghost predicate HasRead(files: map<FileKey, string>, file: FileKey, m: Option<Messages.Message>, unread: bool)
    reads if m.Some? then {m.value.header} else {}
  {
    && (m.Some? <==> !unread && IsReadable(files, file))
    && (m.Some? ==> Messages.ReadMessage(files[file]) == Success((m.value.header.fields, m.value.body)))
  }

  datatype AskResult = NoSuchList | ShowForm | Redirected | Asked | AskFailed

  class Web {
    const u: Ulist

    constructor (u: Ulist)
      ensures this.u == u
    {
      this.u := u;
    }

    /** `ValidateHMAC`: whether the link is genuine and not older than the given number of seconds. */
    method Validate(list: List, tag: Tag, addr: AddrSpec, timestamp: int, maxAge: int, now: int) returns (valid: bool)
      ensures valid <==>
              UsableKey(list.hmacKey) && tag == LinkTag(u.lib, list, addr, timestamp) && timestamp >= now - maxAge
    {
      var expected := CreateTag(list.hmacKey, u.lib.addrSpec(list.addr.Spec()), Some(u.lib.addrSpec(addr)), timestamp);
      if expected.NotMade? {
        return false;
      }
      if tag != expected.tag {
        return false;
      }
      if timestamp < now - maxAge {
        return false;
      }
      valid := true;
    }

    /** Asking to join. A user who is logged in is led to the link, anybody else gets it by mail. `email` is the parsed
        input. */
    method AskJoin(list: List, user: Option<AddrSpec>, email: Option<AddrSpec>, now: int)
      returns (r: AskResult, ghost problem: Outcome)
      requires u.Valid()
      modifies u`trace, u`sentJoin
      ensures u.Valid()
      ensures r == NoSuchList <==> !list.publicSignup
      ensures r == Redirected <==> list.publicSignup && user.Some? && (u.web ==> UsableKey(list.hmacKey))
      ensures r == Redirected ==>
              u.trace == old(u.trace) + if u.web then [Issued(list, user.value, now, true)] else []
      ensures r == ShowForm <==> list.publicSignup && user.None? && email.None?
      ensures list.publicSignup && user.None? && email.Some? ==>
              && (r == Asked <==> problem.None?)
              && IsAnswered(u, AskedBefore(old(u.sentJoin), list, email.value, now), list, email.value, true, now,
                            old(u.trace), u.trace, problem)
      ensures !(list.publicSignup && user.None? && email.Some?) && r != Redirected ==> u.trace == old(u.trace)
    {
      hide OptIn, Faithful, UniqueAddresses, IsAnswered, AskSubject, AskedBefore;
      problem := None;
      if !list.publicSignup {
        return NoSuchList, None;
      }
      if user.Some? {
        var ok := u.IssueLink(list, user.value, now, true);
        r := if ok then Redirected else AskFailed;
        return;
      }
      if email.None? {
        return ShowForm, None;
      }
      var outcome := u.SendJoinCheckback(list, email.value, now);
      problem := outcome;
      r := if outcome.None? then Asked else AskFailed;
    }

    /** Asking to leave. The answer to an address does not tell whether a mail was sent. `fault` tells that looking up
        the user failed. */
    method AskLeave(list: List, user: Option<AddrSpec>, email: Option<AddrSpec>, now: int)
      returns (r: AskResult, ghost fault: bool, ghost problem: Outcome)
      requires u.Valid()
      modifies u`trace, u`sentLeave
      ensures u.Valid() && r != NoSuchList
      ensures var isMember := user.Some? && (list.id, user.value) in u.db.members && !fault;
              && (r == Redirected <==> isMember && (u.web ==> UsableKey(list.hmacKey)))
              && (r == AskFailed <==> isMember && !(u.web ==> UsableKey(list.hmacKey)))
              && (r == ShowForm <==> !isMember && email.None?)
      ensures r == Redirected ==>
              u.trace == old(u.trace) + if u.web then [Issued(list, user.value, now, false)] else []
      ensures r == AskFailed || r == ShowForm ==> u.trace == old(u.trace)
      ensures r == Asked ==>
              IsAnswered(u, AskedBefore(old(u.sentLeave), list, email.value, now), list, email.value, false, now,
                         old(u.trace), u.trace, problem)
    {
      hide OptIn, Faithful, UniqueAddresses, IsAnswered, AskSubject, AskedBefore;
      fault, problem := false, None;
      if user.Some? {
        var m := u.db.GetMembership(list, user.value);
        fault := m.Err?;
        if m.Ok? && m.value.Some? {
          var ok := u.IssueLink(list, user.value, now, false);
          r := if ok then Redirected else AskFailed;
          return;
        }
      }
      if email.None? {
        r := ShowForm;
        return;
      }
      var _, outcome := u.SendLeaveCheckback(list, email.value, now);
      problem := outcome;
      r := Asked;
    }

    /** Following a link for joining. The parts of the link are None if they cannot be parsed. */
    method ConfirmJoin(list: List, address: Option<Addr>, timestamp: Option<int>, tag: Option<Tag>, confirmed: bool,
            now: int)
      returns (r: JoinResult)
      requires u.Valid()
      requires tag.Some? ==> Unforged(u.lib, u.trace, tag.value)
      modifies u`trace, u.db`members
      ensures u.Valid()
      ensures r == NoValidLink <==> !ValidLink(u.lib, list, address, timestamp, tag, now)
      ensures r == Already ==> (list.id, address.value.Spec()) in old(u.db.members)
      ensures r == ShowButton || r.Finished? ==>
              (list.id, address.value.Spec()) !in old(u.db.members) && (confirmed <==> r.Finished?)
      ensures r.Finished? ==> r.changed <= 1
      ensures r == Finished(1) ==>
                && u.db.State() == Effect(old(u.db.State()),
                     Operation.AddMembers(list, [address.value], Flags(true, false, false, false, false)))
                && HasChangedOver(old(u.db.State()), u.db.State(), (list.id, address.value.Spec()), true)
                && timestamp.value >= now - 7 * 86400
                && exists e :: u.trace == old(u.trace) + [e, Confirmed(list, address.value.Spec(), now, true)]
                               && IsNotification(u.lib, list, address.value.Spec(), "Welcome", e)
      ensures r != Finished(1) ==> u.db.State() == old(u.db.State()) && u.trace == old(u.trace)
    {
      hide OptIn, Faithful, Effect, LinkTag, Unforged, Others, AreWelcomes, IsNotification, HasChangedOver;
      if address.None? || timestamp.None? || tag.None? {
        return NoValidLink;
      }
      var valid := Validate(list, tag.value, address.value.Spec(), timestamp.value, SEVEN_DAYS, now);
      if !valid {
        return NoValidLink;
      }
      var m := u.db.GetMembership(list, address.value.Spec());
      if m.Err? {
        return DatabaseError;
      }
      if m.value.Some? {
        return Already;
      }
      if !confirmed {
        return ShowButton;
      }
      ghost var before := u.trace;
      OthersOfOne(list, address.value);
      var added, _ := u.AddMembers(list, true, [address.value], Flags(true, false, false, false, false));
      if added > 0 {
        OneJoins(old(u.db.State()), list, address.value);
        ghost var e := OneNotification(u.lib, list, address.value, "Welcome", before, u.trace);
        Confirm(u, before, list, address.value.Spec(), timestamp.value, now, true);
        u.trace := u.trace + [Confirmed(list, address.value.Spec(), now, true)];
        assert u.trace == before + [e, Confirmed(list, address.value.Spec(), now, true)];
      } else {
        NoNotification(u.lib, list, "Welcome", before, u.trace);
      }
      r := Finished(added);
    }

    /** Following a link for leaving. */
    method ConfirmLeave(list: List, address: Option<Addr>, timestamp: Option<int>, tag: Option<Tag>, confirmed: bool,
            now: int)
      returns (r: JoinResult)
      requires u.Valid()
      requires tag.Some? ==> Unforged(u.lib, u.trace, tag.value)
      modifies u`trace, u.db`members
      ensures u.Valid()
      ensures r == NoValidLink <==> !ValidLink(u.lib, list, address, timestamp, tag, now)
      ensures r == NotYet ==> (list.id, address.value.Spec()) !in old(u.db.members)
      ensures r == ShowButton || r.Finished? ==>
              (list.id, address.value.Spec()) in old(u.db.members) && (confirmed <==> r.Finished?)
      ensures r.Finished? ==> r.changed <= 1
      ensures r == Finished(1) ==>
                && u.db.State() == Effect(old(u.db.State()), Operation.RemoveMembers(list, [address.value]))
                && HasChangedOver(old(u.db.State()), u.db.State(), (list.id, address.value.Spec()), false)
                && timestamp.value >= now - 7 * 86400
                && exists e :: u.trace == old(u.trace) + [e, Confirmed(list, address.value.Spec(), now, false)]
                               && IsNotification(u.lib, list, address.value.Spec(), "Goodbye", e)
      ensures r != Finished(1) ==> u.db.State() == old(u.db.State()) && u.trace == old(u.trace)
    {
      hide OptIn, Faithful, Effect, LinkTag, Unforged, AreWelcomes, IsNotification, HasChangedOver;
      if address.None? || timestamp.None? || tag.None? {
        return NoValidLink;
      }
      var valid := Validate(list, tag.value, address.value.Spec(), timestamp.value, SEVEN_DAYS, now);
      if !valid {
        return NoValidLink;
      }
      var m := u.db.GetMembership(list, address.value.Spec());
      if m.Err? {
        return DatabaseError;
      }
      if m.value.None? {
        return NotYet;
      }
      if !confirmed {
        return ShowButton;
      }
      ghost var before := u.trace;
      var removed, _ := u.RemoveMembers(list, true, [address.value]);
      if removed > 0 {
        OneLeaves(old(u.db.State()), list, address.value);
        ghost var e := OneNotification(u.lib, list, address.value, "Goodbye", before, u.trace);
        Confirm(u, before, list, address.value.Spec(), timestamp.value, now, false);
        u.trace := u.trace + [Confirmed(list, address.value.Spec(), now, false)];
        assert u.trace == before + [e, Confirmed(list, address.value.Spec(), now, false)];
      } else {
        NoNotification(u.lib, list, "Goodbye", before, u.trace);
      }
      r := Finished(removed);
    }

    /** "Add to known senders" of the moderation page: only if known senders get the same treatment. */
    method AddKnownSender(list: List, m: Messages.Message, treatment: Action) returns (added: bool, ghost fault: bool)
      modifies u.db`knowns
      ensures var from := SingleFrom(u.lib, m.header.fields);
              && (added <==> !fault && list.actionKnown == treatment && from.Some?)
              && u.db.State() ==
                 if added then Effect(old(u.db.State()), Operation.AddKnowns(list, [from.value])) else old(u.db.State())
    {
      added, fault := false, false;
      var from := SingleFrom(u.lib, m.header.fields);
      if from.Some? && list.actionKnown == treatment {
        var r := u.db.AddKnowns(list, [from.value]);
        added, fault := r.Ok?, r.Err?;
      }
    }

    /** One entry of the moderation form. A message that could not be read has no sender to be added: the handler
        crashes there. */
    method ModEntry(list: List, form: Form, filename: string, action: string)
      returns (deleted: bool, passed: bool, addedKnown: bool, crashed: bool, ghost unread: bool, ghost fault: bool)
      requires u.Valid() && PlainName(filename) && Chooses(form, filename, action)
      modifies u`trace, u`files, u.db`knowns
      ensures u.Valid()
      ensures EntryDone(u.lib, u.web, old(Queue(u)), Queue(u), list, form,
                        Entry(filename, unread, fault, deleted, passed, addedKnown, crashed))
    {
      hide OptIn, Faithful, Effect, IsForward, SingleFrom, Messages.ReadMessage, Forwardable, EntryDone;
      deleted, passed, addedKnown, crashed := false, false, false, false;
      var m;
      m, unread := u.ReadMessage(list, filename);
      if action == "delete" {
        deleted, addedKnown, crashed, fault := DeleteEntry(list, form, filename, m, unread);
      } else if action == "pass" {
        passed, addedKnown, fault := PassEntry(list, form, filename, m, unread);
      } else {
        fault := unread;
        NothingDone(u.lib, u.web, Queue(u), list, form, filename, unread);
      }
    }

    /** "delete" */
    method DeleteEntry(list: List, form: Form, filename: string, m: Option<Messages.Message>, ghost unread: bool)
      returns (deleted: bool, addedKnown: bool, crashed: bool, ghost fault: bool)
      requires u.Valid() && PlainName(filename) && Chooses(form, filename, "delete")
               && HasRead(u.files, (list.id, filename), m, unread)
      modifies u`files, u.db`knowns
      ensures u.Valid()
      ensures EntryDone(u.lib, u.web, old(Queue(u)), Queue(u), list, form,
                        Entry(filename, unread, fault, deleted, false, addedKnown, crashed))
    {
      hide OptIn, Faithful, Effect, SingleFrom, Messages.ReadMessage, Forwards, CanForward;
      addedKnown, crashed, fault := false, false, unread;
      ghost var failed;
      deleted, failed := u.DeleteModeratedMail(list, filename);
      fault := fault || failed;
      if ValueOf(form, "addknown-delete-" + filename) != "" {
        if m.None? {
          crashed := true;
          return;
        }
        addedKnown, failed := AddKnownSender(list, m.value, Reject);
        fault := fault || failed;
      }
    }

    /** "pass" */
    method PassEntry(list: List, form: Form, filename: string, m: Option<Messages.Message>, ghost unread: bool)
      returns (passed: bool, addedKnown: bool, ghost fault: bool)
      requires u.Valid() && PlainName(filename) && Chooses(form, filename, "pass")
               && HasRead(u.files, (list.id, filename), m, unread)
      modifies u`trace, u`files, u.db`knowns
      ensures u.Valid()
      ensures EntryDone(u.lib, u.web, old(Queue(u)), Queue(u), list, form,
                        Entry(filename, unread, fault, false, passed, addedKnown, false))
    {
      hide OptIn, Faithful, Effect, IsForward, SingleFrom, Messages.ReadMessage, Forwardable;
      passed, addedKnown, fault := false, false, unread;
      if m.None? {
        return;
      }
      var problem := u.Forward(list, m.value);
      fault := fault || (problem.Some? && problem.value != HeaderProblem);
      if problem.None? {
        passed := true;
        var _, failed := u.DeleteModeratedMail(list, filename);
        fault := fault || failed;
      }
      if ValueOf(form, "addknown-pass-" + filename) != "" {
        ghost var failed;
        addedKnown, failed := AddKnownSender(list, m.value, Pass);
        fault := fault || failed;
      }
    }

    /** A POST request of a moderator. The entries of the form are visited in any order. */
    method Mod(list: List, form: Form)
      returns (deleted: nat, passed: nat, addedKnown: nat, crashed: bool, ghost entries: seq<Entry>,
            ghost states: seq<QueueState>)
      requires u.Valid() && PlainForm(form)
      modifies u`trace, u`files, u.db`knowns
      ensures u.Valid()
      ensures |states| == |entries| + 1 && states[0] == old(Queue(u)) && states[|entries|] == Queue(u)
      ensures ModRun(u.lib, u.web, list, form, states, entries) && Counted(entries, deleted, passed, addedKnown)
      ensures crashed <==> exists e <- entries :: e.crashed
      ensures !crashed ==> Complete(form, entries)
    {
      hide OptIn, Faithful, EntryDone, UniqueAddresses, PlainName, ModRun, AllButLeft, Complete, Counted;
      deleted, passed, addedKnown, crashed, entries, states := 0, 0, 0, false, [], [Queue(u)];
      var left := form.Keys;
      NoEntries(u.lib, u.web, list, form, states, left);
      while left != {}
        invariant u.Valid() && left <= form.Keys
        invariant |states| == |entries| + 1 && states[0] == old(Queue(u)) && states[|entries|] == Queue(u)
        invariant ModRun(u.lib, u.web, list, form, states, entries) && AllButLeft(form, left, entries)
        invariant !crashed && Counted(entries, deleted, passed, addedKnown)
        decreases |left|
      {
        var k :| k in left;
        ghost var before := left;
        left := left - {k};
        if !HasPrefix(k, ACTION_PREFIX) {
          OtherKey(form, before, k, entries);
          continue;
        }
        var filename := k[|ACTION_PREFIX|..];
        IsActionKey(form, k, filename);
        var isDeleted, isPassed, isAdded, isCrashed, unread, fault := ModEntry(list, form, filename, form[k]);
        ghost var e := Entry(filename, unread, fault, isDeleted, isPassed, isAdded, isCrashed);
        OneMore(u.lib, u.web, list, form, states, entries, before, Queue(u), e);
        OneMoreCounted(entries, deleted, passed, addedKnown, e);
        entries, states := entries + [e], states + [Queue(u)];
        if isDeleted {
          deleted := deleted + 1;
        }
        if isPassed {
          passed := passed + 1;
        }
        if isAdded {
          addedKnown := addedKnown + 1;
        }
        if isCrashed {
          crashed := true;
          assert e in entries;
          assert |states| == |entries| + 1;
          return;
        }
      }
      AllVisited(form, entries);
    }
  }

  lemma OthersOfOne(list: List, a: Addr)
    ensures Others(list, [a]) == [] || Others(list, [a]) == [a]
  {
    hide EqualFold;
  }

  lemma NoNotification(lib: Library, list: List, subject: string, before: seq<Event>, after: seq<Event>)
    requires before <= after && AreWelcomes(lib, list, [], subject, after[|before|..])
    ensures after == before
  {
  }

  /** One person was notified. */
  lemma OneNotification(lib: Library, list: List, a: Addr, subject: string, before: seq<Event>, after: seq<Event>)
    returns (e: Event)
    requires before <= after && AreWelcomes(lib, list, [a], subject, after[|before|..])
    ensures after == before + [e] && IsNotification(lib, list, a.Spec(), subject, e)
  {
    hide IsNotification;
    e := after[|before|..][0];
    assert after == before + after[|before|..];
  }

  /** Confirming by a valid link keeps double opt-in. */
  lemma Confirm(u: Ulist, before: seq<Event>, list: List, addr: AddrSpec, timestamp: int, now: int, joins: bool)
    requires u.Valid() && before <= u.trace && timestamp >= now - SEVEN_DAYS
    requires Unforged(u.lib, before, LinkTag(u.lib, list, addr, timestamp))
    ensures OptIn(u.trace + [Confirmed(list, addr, now, joins)])
  {
    hide Faithful, LinkTag, Unforged;
    ValidTagWasIssued(u.lib, before, list, addr, timestamp);
    var i :| 0 <= i < |before| && before[i].Issued? && before[i].list.hmacKey == list.hmacKey
        && before[i].list.addr.Spec() == list.addr.Spec()
             && before[i].addr == addr && before[i].timestamp == timestamp;
    assert u.trace[i] == before[i] && Entitles(u.trace[i], list, addr, now);
    OptInConfirmed(u.trace, i, list, addr, now, joins);
  }

  lemma OptInConfirmed(trace: seq<Event>, i: nat, list: List, addr: AddrSpec, now: int, joins: bool)
    requires OptIn(trace) && i < |trace| && Entitles(trace[i], list, addr, now)
    ensures OptIn(trace + [Confirmed(list, addr, now, joins)])
  {
    var all := trace + [Confirmed(list, addr, now, joins)];
    forall k | 0 <= k < |all| && all[k].Confirmed?
      ensures exists j | 0 <= j < k :: Entitles(all[j], all[k].list, all[k].addr, all[k].at)
    {
      if k < |trace| {
        var j :| 0 <= j < k && Entitles(trace[j], trace[k].list, trace[k].addr, trace[k].at);
        assert all[j] == trace[j];
      } else {
        assert all[i] == trace[i];
      }
    }
  }
}
