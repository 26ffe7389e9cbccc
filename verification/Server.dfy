/** The whole server: ulist.go. Requests of mail clients, web users and administrators, one after the other. */
module Servers {
  import opened Addresses
  import opened ListDBs
  import opened Macs
  import opened Moderations
  import opened Runs
  import opened Tables
  import opened Ulists
  import opened Webs
  import Lmtp
  import Messages

  class Server {
    const u: Ulist
    const session: Lmtp.LmtpSession
    const web: Web

    ghost predicate Valid()
      reads this, u, u.db, session, session.u, session.u.db
    {
      session.u == u && web.u == u && session.Valid() && Safe(Queue(u))
    }

    constructor (u: Ulist)
      requires u.Valid() && Consistent(u.db.State())
      ensures Valid() && this.u == u && fresh(session)
    {
      this.u := u;
      session := new Lmtp.LmtpSession(u);
      web := new Web(u);
    }

    /** The list that a request is about. */
    method Find(list: Addr) returns (r: Option<List>)
      requires Valid()
      ensures r.Some? ==> Existing(u.db.State(), r.value) && r.value.addr.Spec() == list.Spec()
    {
      hide OptIn, Faithful;
      var found := u.db.GetList(list.Spec());
      if found.Err? || found.value.None? {
        return None;
      }
      ListIsExisting(u.db.State(), list.Spec());
      r := found.value;
    }

    /** LMTP commands. */
    method ServeMail(request: Request, now: int) returns (ghost step: QueueStep)
      requires Valid()
      modifies session, u`trace, u`files, u`sentJoin, u`sentLeave
      ensures Valid() && session.sender == NextSender(old(session.sender), request)
      ensures StepFits(u.lib, u.web, request, now, old(session.sender), old(Queue(u)), step, Queue(u))
    {
      hide OptIn, Faithful, Consistent, StepFits, Lmtp.QueueGrows, Lmtp.Accepts;
      ghost var before, sender := Queue(u), session.sender;
      step := Other;
      match request {
        case Rset => session.Reset();
        case MailFrom(from, logId) => session.Mail(from, logId);
        case RcptTo(recipient) => var _ := session.Rcpt(recipient);
        case DataOf(text) =>
          step := ServeData(text, now);
          return;
        case _ =>
      }
      StepOfNothing(u.lib, u.web, request, now, sender, before);
    }

    method ServeData(text: string, now: int) returns (ghost step: QueueStep)
      requires Valid()
      modifies session, u`trace, u`files, u`sentJoin, u`sentLeave
      ensures Valid() && session.sender == old(session.sender)
      ensures StepFits(u.lib, u.web, DataOf(text), now, old(session.sender), old(Queue(u)), step, Queue(u))
    {
      hide OptIn, Faithful, Consistent, KeepsQueue, TablesFit, Lmtp.QueueGrows, Lmtp.Flat, Lmtp.Transacted,
           Lmtp.ChecksPass, Messages.ReadMessage, Messages.SavedText, Lmtp.IsBlank;
      ghost var before, sender, isBounce, lists := Queue(u), session.sender, session.isBounce, session.lists;
      var code, blocks := session.Data(text, now);
      if blocks == [] {
        step := Other;
        NoBlocks(u.trace, before.trace);
        StepOfNothing(u.lib, u.web, DataOf(text), now, sender, before);
      } else {
        ghost var (h, body) := Messages.ReadMessage(text).value;
        step := Delivery(isBounce, lists, h, body, now, code, blocks);
        assert u.trace[|before.trace|..] == Lmtp.Flat(blocks);
        DeliveryKeepsQueue(u.lib, u.web, before, step, Queue(u));
        DeliveryTables(u.lib, u.web, DataOf(text), now, before, step, Queue(u));
      }
    }

    /** Pages of a list. A form with other file names than the page shows is ignored. */
    method ServeWeb(request: Request, now: int) returns (ghost step: QueueStep)
      requires Valid()
      modifies u`trace, u`files, u`sentJoin, u`sentLeave, u.db`members, u.db`knowns
      ensures Valid() && StepFits(u.lib, u.web, request, now, session.sender, old(Queue(u)), step, Queue(u))
    {
      hide OptIn, Faithful, Consistent, StepFits, PlainForm;
      step := Other;
      StepOfNothing(u.lib, u.web, request, now, session.sender, Queue(u));
      match request
      case AskToJoin(list, user, email) =>
        var found := Find(list);
        if found.Some? {
          ServeAsk(request, found.value, user, email, true, now);
        }
      case AskToLeave(list, user, email) =>
        var found := Find(list);
        if found.Some? {
          ServeAsk(request, found.value, user, email, false, now);
        }
      case Confirm(list, _, _, _, _, _) =>
        var found := Find(list);
        if found.Some? {
          ServeConfirm(request, found.value, now);
        }
      case Moderate(list, form) =>
        var found := Find(list);
        if found.Some? && PlainForm(form) {
          step := ServeForm(request, found.value, now);
        }
      case _ =>
    }

    /** The form of the moderation page. */
    method ServeForm(request: Request, list: List, ghost now: int) returns (ghost step: QueueStep)
      requires Valid() && request.Moderate? && PlainForm(request.form) && IsAbout(u.db.State(), list, request.list)
      modifies u`trace, u`files, u.db`knowns
      ensures Valid() && StepFits(u.lib, u.web, request, now, session.sender, old(Queue(u)), step, Queue(u))
    {
      hide OptIn, Faithful, Consistent, StepFits, PlainForm, AsksForAll;
      var _, _, _, _, entries, states := web.Mod(list, request.form);
      RunAsks(u.lib, u.web, list, request.form, states, entries, |entries|);
      AskedRowsAreGood(u.lib, states[0], states[|entries|], list, request.form);
      ModerationFits(u.lib, u.web, request, now, session.sender, list, request.form, states, entries);
      step := Moderation(list, request.form);
    }

    /** Asking to join or leave. */
    method ServeAsk(request: Request, list: List, user: Option<AddrSpec>, email: Option<AddrSpec>, joins: bool,
            now: int)
      requires Valid() && Existing(u.db.State(), list)
      modifies u`trace, u`sentJoin, u`sentLeave
      ensures Valid() && StepFits(u.lib, u.web, request, now, session.sender, old(Queue(u)), Other, Queue(u))
    {
      hide OptIn, Faithful, Consistent, IsRequest, NewNotices, NoConfirmation, AskSubject, UsableKey, StepFits,
           TablesFit;
      ghost var before := Queue(u);
      OnlyLink(u.lib, list, before.trace, user, now, joins);
      if joins {
        var r, problem := web.AskJoin(list, user, email, now);
        if list.publicSignup && user.None? && email.Some? {
          RequestGrows(u, list, email.value, true, now, before.trace, u.trace, problem.None?);
        }
      } else {
        var r, _, problem := web.AskLeave(list, user, email, now);
        if r == Asked {
          RequestGrows(u, list, email.value, false, now, before.trace, u.trace, problem.None?);
        }
      }
      SameTables(u.lib, request, now, before, Queue(u));
      NoticesFit(u.lib, u.web, request, now, session.sender, before, Queue(u), list);
    }

    /** Following a link. Only issued tags and forgeries can be presented. */
    method ServeConfirm(request: Request, list: List, now: int)
      requires Valid() && request.Confirm? && IsAbout(u.db.State(), list, request.list)
      modifies u`trace, u.db`members
      ensures Valid() && StepFits(u.lib, u.web, request, now, session.sender, old(Queue(u)), Other, Queue(u))
    {
      hide OptIn, Faithful, Consistent, Effect, LinkTag, Unforged, Presented, IsNotification, StepFits, NewNotices,
           TablesFit;
      ghost var before, t := Queue(u), u.db.State();
      var address, timestamp, yes := request.address, request.timestamp, request.yes;
      var tag := Presented(u.lib, u.trace, request.link);
      PresentedIsUnforged(u.lib, u.trace, request.link);
      var r;
      if request.joins {
        r := web.ConfirmJoin(list, address, timestamp, tag, yes, now);
      } else {
        r := web.ConfirmLeave(list, address, timestamp, tag, yes, now);
      }
      if r == Finished(1) {
        EffectIsConsistent(t, ConfirmOperation(list, address.value, request.joins));
        ghost var subject := if request.joins then "Welcome" else "Goodbye";
        ghost var e :| u.trace == before.trace + [e, Confirmed(list, address.value.Spec(), now, request.joins)]
                       && IsNotification(u.lib, list, address.value.Spec(), subject, e);
        ConfirmedFits(u.lib, request, now, before, Queue(u), list, subject, e);
        NoticesFit(u.lib, u.web, request, now, session.sender, before, Queue(u), list);
      } else {
        StepOfNothing(u.lib, u.web, request, now, session.sender, before);
      }
    }

    /** Administration of lists, members and known senders. */
    method ServeAdmin(request: Request, ghost now: int)
      requires Valid()
      modifies u`trace, u.db
      ensures Valid() && StepFits(u.lib, u.web, request, now, session.sender, old(Queue(u)), Other, Queue(u))
    {
      hide OptIn, Faithful, Consistent, StepFits, Administers, Effect;
      ghost var before := Queue(u);
      StepOfNothing(u.lib, u.web, request, now, session.sender, before);
      if request.CreateList? {
        ServeCreate(request);
        SilentFit(u.lib, u.web, request, now, session.sender, before, Queue(u));
        return;
      }
      if request.Rset? || request.MailFrom? || request.RcptTo? || request.DataOf? {
        return;
      }
      var found := Find(request.list);
      if found.None? {
        return;
      }
      if request.AddMembers? || request.RemoveMembers? {
        ServeMembers(request, found.value, now);
      } else {
        ServeTables(request, found.value);
        SilentFit(u.lib, u.web, request, now, session.sender, before, Queue(u));
      }
    }

    /** Members are told when they are added or removed. */
    method ServeMembers(request: Request, list: List, ghost now: int)
      requires Valid() && (request.AddMembers? || request.RemoveMembers?) && IsAbout(u.db.State(), list, request.list)
      modifies u`trace, u.db`members
      ensures Valid() && StepFits(u.lib, u.web, request, now, session.sender, old(Queue(u)), Other, Queue(u))
    {
      hide OptIn, Faithful, Consistent, Effect, AreWelcomes, NewNotices, NoConfirmation, Others, AllSent, StepFits,
           TablesFit;
      ghost var before, t := Queue(u), u.db.State();
      ghost var op;
      if request.AddMembers? {
        var welcome, addrs, flags := request.welcome, request.addrs, request.flags;
        op := Operation.AddMembers(list, addrs, flags);
        var added, _ := u.AddMembers(list, welcome, addrs, flags);
        ghost var people := if welcome && added > 0 then Others(list, addrs) else [];
        WelcomesAreNotices(u.lib, list, people, "Welcome", before.trace, u.trace);
      } else {
        var goodbye, addrs := request.goodbye, request.addrs;
        op := Operation.RemoveMembers(list, addrs);
        var removed, _ := u.RemoveMembers(list, goodbye, addrs);
        WelcomesAreNotices(u.lib, list, if goodbye && removed > 0 then addrs else [], "Goodbye", before.trace, u.trace);
      }
      EffectIsConsistent(t, op);
      OperationFits(u.lib, request, now, before, Queue(u), op);
      NoticesFit(u.lib, u.web, request, now, session.sender, before, Queue(u), list);
    }

    method ServeTables(request: Request, list: List)
      requires Valid() && !request.Rset? && !request.MailFrom? && !request.RcptTo? && !request.DataOf?
      requires !request.CreateList? && IsAbout(u.db.State(), list, request.list)
      modifies u.db
      ensures Valid()
      ensures u.db.State() == old(u.db.State())
              || exists op ::
                 Administers(request, old(u.db.State()), op) && u.db.State() == Effect(old(u.db.State()), op)
    {
      hide OptIn, Faithful, Consistent, Effect, WithSettings, Others, IsAbout;
      ghost var t := u.db.State();
      ghost var op: Operation := Operation.Delete(list);
      match request {
        case UpdateList(_, settings) =>
          op := Operation.Update(list, settings);
          var _ := u.db.Update(list, settings);
        case DeleteList(_) =>
          var _ := u.db.Delete(list);
        case UpdateMember(_, address, flags) =>
          if address.None? {
            return;
          }
          op := Operation.UpdateMember(list, address.value, flags);
          var _ := u.db.UpdateMember(list, address, flags);
        case AddKnowns(_, addrs) =>
          op := Operation.AddKnowns(list, addrs);
          var _ := u.db.AddKnowns(list, addrs);
        case RemoveKnowns(_, addrs) =>
          op := Operation.RemoveKnowns(list, addrs);
          var _ := u.db.RemoveKnowns(list, addrs);
        case _ =>
          return;
      }
      assert Administers(request, t, op);
      AboutIsExisting(t, list, request.list);
      EffectIsConsistent(t, op);
      ConsistentIsUnique(u.db.State());
    }

    method ServeCreate(request: Request)
      requires Valid() && request.CreateList?
      modifies u.db
      ensures Valid()
      ensures u.db.State() == old(u.db.State())
              || exists op ::
                 Administers(request, old(u.db.State()), op) && u.db.State() == Effect(old(u.db.State()), op)
    {
      hide OptIn, Faithful, Consistent, Effect, MayCreate;
      ghost var t := u.db.State();
      var address, name, hmacKey := request.address, request.name, request.hmacKey;
      var r := u.db.Create(address, name, hmacKey);
      if u.db.State() != t {
        ghost var id :| MayCreate(t, id, Named(address.value, name))
                        && u.db.State() == Effect(t, Operation.Create(id, Named(address.value, name), hmacKey.value));
        ghost var op := Operation.Create(id, Named(address.value, name), hmacKey.value);
        assert Administers(request, t, op);
        EffectIsConsistent(t, op);
      }
    }

    /** One request. */
    method Serve(request: Request, now: int) returns (ghost step: QueueStep)
      requires Valid()
      modifies session, u`trace, u`files, u`sentJoin, u`sentLeave, u.db
      ensures Valid() && session.sender == NextSender(old(session.sender), request)
      ensures StepFits(u.lib, u.web, request, now, old(session.sender), old(Queue(u)), step, Queue(u))
    {
      hide OptIn, Faithful, Consistent, StepFits;
      step := Other;
      match request
      case Rset => step := ServeMail(request, now);
      case MailFrom(_, _) => step := ServeMail(request, now);
      case RcptTo(_) => step := ServeMail(request, now);
      case DataOf(_) => step := ServeMail(request, now);
      case AskToJoin(_, _, _) => step := ServeWeb(request, now);
      case AskToLeave(_, _, _) => step := ServeWeb(request, now);
      case Confirm(_, _, _, _, _, _) => step := ServeWeb(request, now);
      case Moderate(_, _) => step := ServeWeb(request, now);
      case _ => ServeAdmin(request, now);
    }

    /** Main result on the server: whatever is requested, in whatever order, and whatever fails, in every state
        the tables are consistent and double opt-in holds; the moderation queue only changes as it may, no mail is sent
        without a reason, a delivery is taken for a bounce exactly if the sender of its transaction is blank, and every
        request does nothing to the tables or the whole of its own operation. */
    method ServeAll(requests: seq<(Request, int)>) returns (ghost states: seq<QueueState>, ghost steps: seq<QueueStep>)
      requires Valid()
      modifies session, u`trace, u`files, u`sentJoin, u`sentLeave, u.db
      ensures Valid() && session.sender == SenderAfter(old(session.sender), requests)
      ensures |steps| == |requests| && QueueRun(u.lib, u.web, states, steps) && MailRun(u.lib, u.web, states, steps)
      ensures TableRun(u.lib, requests, states)
      ensures states[0] == old(Queue(u)) && states[|requests|] == Queue(u)
      ensures forall s <- states :: Safe(s)
      ensures forall i | 0 <= i < |steps| ::
              StepOf(requests[i].0, SenderAfter(old(session.sender), requests[..i]), steps[i])
    {
      hide Safe, KeepsQueue, MailFits, TablesFit, StepOf, Presented, NextSender, IsNotice, OptIn, Faithful,
           UniqueAddresses, Lmtp.IsBlank, IsBounceLocal, WithoutBounce;
      states, steps := [Queue(u)], [];
      ghost var sender := session.sender;
      for i := 0 to |requests|
        invariant Valid() && |steps| == i && |states| == i + 1 && session.sender == SenderAfter(sender, requests[..i])
        invariant states[0] == old(Queue(u)) && states[i] == Queue(u)
        invariant forall k | 0 <= k < i ::
                    StepFits(u.lib, u.web, requests[k].0, requests[k].1, SenderAfter(sender, requests[..k]),
                             states[k], steps[k], states[k + 1])
        invariant forall s <- states :: Safe(s)
      {
        ghost var step := Serve(requests[i].0, requests[i].1);
        assert requests[..i + 1][..i] == requests[..i];
        states, steps := states + [Queue(u)], steps + [step];
      }
      assert requests[..|requests|] == requests;
      forall i | 0 <= i < |steps|
        ensures StepOf(requests[i].0, SenderAfter(sender, requests[..i]), steps[i])
      {
        assert StepFits(u.lib, u.web, requests[i].0, requests[i].1, SenderAfter(sender, requests[..i]),
                        states[i], steps[i], states[i + 1]);
      }
    }
  }
}
