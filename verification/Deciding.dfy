/** What happens to a message: `GetRoles` of ulist.go, `GetAction` of list.go, `IsSpam` of mailutil/header.go. */
module Deciding {
  import opened Addresses
  import opened Headers
  import opened ListDBs
  import opened Tables
  import opened Text

  const SPAM_KEYS := ["X-Spam", "X-Spam-Flag", "X-Spam-Status"]

  predicate SaysSpam(value: string) {
    var v := ToLower(Trim(value));
    HasPrefix(v, "true") || HasPrefix(v, "yes")
  }

  /** Whether a spam filter has marked the message. */
  predicate IsSpam(h: HeaderMap) {
    exists key <- SPAM_KEYS :: SaysSpam(Get(h, key))
  }

  /** The roles of an address on a list. */
  ghost function Roles(t: Database, list: List, a: AddrSpec): seq<Status> {
    (if (list.id, a) in t.members then [if t.members[(list.id, a)].moderate then Moderator else Member] else [])
    + if (list.id, a) in t.knowns then [Known] else []
  }

  method GetRoles(db: ListDB, list: List, addr: Addr) returns (r: Result<seq<Status>>)
    ensures r.Ok? ==> r.value == Roles(db.State(), list, addr.Spec())
  {
    var roles: seq<Status> := [];
    var membership := db.GetMembership(list, addr.Spec());
    if membership.Err? {
      return Err(membership.error);
    }
    if membership.value.Some? {
      if membership.value.value.moderate {
        roles := roles + [Moderator];
      } else {
        roles := roles + [Member];
      }
    }
    var isKnown := db.IsKnown(list, addr.Spec());
    if isKnown.Err? {
      return Err(isKnown.error);
    }
    if isKnown.value {
      roles := roles + [Known];
    }
    r := Ok(roles);
  }

  function Configured(list: List, status: Status): Action {
    match status
    case Known => list.actionKnown
    case Member => list.actionMember
    case Moderator => list.actionMod
  }

  function Max(a: Action, b: Action): Action {
    if a.Rank() < b.Rank() then b else a
  }

  function MaxOfRoles(list: List, roles: seq<Status>, least: Action): Action {
    if roles == [] then least else MaxOfRoles(list, roles[1..], Max(least, Configured(list, roles[0])))
  }

  ghost function MaxOfFroms(t: Database, list: List, froms: seq<Addr>, least: Action): Action {
    if froms == [] then least
    else MaxOfFroms(t, list, froms[1..], MaxOfRoles(list, Roles(t, list, froms[0].Spec()), least))
  }

  /** The action for a message from the given addresses. */
  ghost function Decided(t: Database, list: List, h: HeaderMap, froms: seq<Addr>): Action {
    var action := MaxOfFroms(t, list, froms, list.actionUnknown);
    if action == Pass && IsSpam(h) then Mod else action
  }

  /** Why an action was chosen. */
  datatype Reason =
    | AnyFromAllowed
    | AllUnknown
    | HasRole(from: Addr, status: Status)
    | ButSpam(reason: Reason, key: string)

  /** The address has this status in the tables, and the list has configured this action for it. */
  ghost predicate Earns(t: Database, list: List, a: AddrSpec, status: Status, action: Action) {
    var row := (list.id, a);
    match status
    case Known => row in t.knowns && action == list.actionKnown
    case Member => row in t.members && !t.members[row].moderate && action == list.actionMember
    case Moderator => row in t.members && t.members[row].moderate && action == list.actionMod
  }

  lemma RolesEarn(t: Database, list: List, a: AddrSpec, status: Status, action: Action)
    ensures Earns(t, list, a, status, action) <==> status in Roles(t, list, a) && action == Configured(list, status)
  {
  }

  /** The reason tells the truth. */
  ghost predicate Justifies(t: Database, list: List, h: HeaderMap, froms: seq<Addr>, reason: Reason, action: Action) {
    match reason
    case AnyFromAllowed => action == Pass == list.actionUnknown
    case AllUnknown => action == list.actionUnknown
    case HasRole(from, status) => from in froms && Earns(t, list, from.Spec(), status, action)
    case ButSpam(r, key) =>
      action == Mod && Justifies(t, list, h, froms, r, Pass) && key in SPAM_KEYS && SaysSpam(Get(h, key))
  }

  method FindSpam(h: HeaderMap) returns (isSpam: bool, key: string)
    ensures isSpam == IsSpam(h) && (isSpam ==> key in SPAM_KEYS && SaysSpam(Get(h, key)))
  {
    hide SaysSpam, Get;
    for i := 0 to |SPAM_KEYS|
      invariant forall j | 0 <= j < i :: !SaysSpam(Get(h, SPAM_KEYS[j]))
    {
      if SaysSpam(Get(h, SPAM_KEYS[i])) {
        return true, SPAM_KEYS[i];
      }
    }
    return false, "";
  }

  method GetAction(db: ListDB, list: List, h: HeaderMap, froms: seq<Addr>) returns (r: Result<(Action, Reason)>)
    ensures r.Ok? ==> r.value.0 == Decided(db.State(), list, h, froms)
    ensures r.Ok? ==> Justifies(db.State(), list, h, froms, r.value.1, r.value.0)
    ensures list.actionUnknown == Pass ==> r.Ok?
  {
    hide IsSpam, SaysSpam, Get, Earns;
    ghost var t := db.State();
    var action := list.actionUnknown;
    var reason;
    if action == Pass {
      reason := AnyFromAllowed;
      PassIsMaximal(t, list, froms);
    } else {
      reason := AllUnknown;
      assert froms[0..] == froms;
      for i := 0 to |froms|
        invariant MaxOfFroms(t, list, froms[i..], action) == MaxOfFroms(t, list, froms, list.actionUnknown)
        invariant reason == AllUnknown || reason.HasRole?
        invariant Justifies(t, list, h, froms, reason, action)
      {
        var roles := GetRoles(db, list, froms[i]);
        if roles.Err? {
          return Err(roles.error);
        }
        assert froms[i..][1..] == froms[i + 1..];
        ghost var before := action;
        var statuses := roles.value;
        assert statuses[0..] == statuses;
        for j := 0 to |statuses|
          invariant MaxOfRoles(list, statuses[j..], action) == MaxOfRoles(list, statuses, before)
          invariant reason == AllUnknown || reason.HasRole?
          invariant Justifies(t, list, h, froms, reason, action)
        {
          assert statuses[j..][1..] == statuses[j + 1..];
          var fromAction := Configured(list, statuses[j]);
          RolesEarn(t, list, froms[i].Spec(), statuses[j], fromAction);
          if action.Rank() < fromAction.Rank() {
            action := fromAction;
            reason := HasRole(froms[i], statuses[j]);
          }
        }
      }
    }
    if action == Pass {
      var isSpam, key := FindSpam(h);
      if isSpam {
        return Ok((Mod, ButSpam(reason, key)));
      }
    }
    r := Ok((action, reason));
  }

  /** `a` is what the list does for unknown senders, or for some From address that is known, a member or a moderator. */
  ghost predicate Candidate(t: Database, list: List, froms: seq<Addr>, a: Action) {
    a == list.actionUnknown || exists from, status :: from in froms && Earns(t, list, from.Spec(), status, a)
  }

  /** `a` is the greatest candidate. */
  ghost predicate IsMaximum(t: Database, list: List, froms: seq<Addr>, a: Action) {
    Candidate(t, list, froms, a) && forall b: Action | Candidate(t, list, froms, b) :: b.Rank() <= a.Rank()
  }

  lemma {:induction false} MaxOfRolesIs(list: List, roles: seq<Status>, least: Action)
    ensures var m := MaxOfRoles(list, roles, least);
            && (m == least || exists s <- roles :: m == Configured(list, s))
            && least.Rank() <= m.Rank() && forall s <- roles :: Configured(list, s).Rank() <= m.Rank()
  {
    if roles != [] {
      MaxOfRolesIs(list, roles[1..], Max(least, Configured(list, roles[0])));
      assert roles == [roles[0]] + roles[1..];
    }
  }

  lemma {:induction false} MaxOfFromsIs(t: Database, list: List, froms: seq<Addr>, least: Action)
    ensures var m := MaxOfFroms(t, list, froms, least);
            && (m == least || exists f, s :: f in froms && s in Roles(t, list, f.Spec()) && m == Configured(list, s))
            && least.Rank() <= m.Rank()
            && forall f, s | f in froms && s in Roles(t, list, f.Spec()) :: Configured(list, s).Rank() <= m.Rank()
  {
    hide Roles, Configured;
    if froms != [] {
      var roles := Roles(t, list, froms[0].Spec());
      var least' := MaxOfRoles(list, roles, least);
      MaxOfRolesIs(list, roles, least);
      MaxOfFromsIs(t, list, froms[1..], least');
      assert froms == [froms[0]] + froms[1..];
    }
  }

  /** The maximum is unique. */
  lemma MaximumIsUnique(t: Database, list: List, froms: seq<Addr>, a: Action)
    ensures IsMaximum(t, list, froms, a) <==> a == MaxOfFroms(t, list, froms, list.actionUnknown)
  {
    hide Roles, Configured, Earns;
    MaxOfFromsIs(t, list, froms, list.actionUnknown);
    forall f, s, b
      ensures Earns(t, list, f, s, b) <==> s in Roles(t, list, f) && b == Configured(list, s)
    {
      RolesEarn(t, list, f, s, b);
    }
    var m := MaxOfFroms(t, list, froms, list.actionUnknown);
    if m != list.actionUnknown {
      var f, s :| f in froms && s in Roles(t, list, f.Spec()) && m == Configured(list, s);
      assert Earns(t, list, f.Spec(), s, m);
    }
    assert Candidate(t, list, froms, m);
  }

  /** Main result: there is one maximum of the action for unknown senders and the actions that the From addresses
      earn in the tables, and the decision is this maximum, lowered from Pass to Mod if the message is marked as spam.
      In other words: the message passes if something lets it pass and it is no spam; else it is moderated if
      something lets it be moderated or pass; else it is rejected. */
  lemma DecidedIsMaximum(t: Database, list: List, h: HeaderMap, froms: seq<Addr>)
    ensures exists a :: IsMaximum(t, list, froms, a)
    ensures forall a | IsMaximum(t, list, froms, a) ::
              Decided(t, list, h, froms) == if a == Pass && IsSpam(h) then Mod else a
    ensures Decided(t, list, h, froms) ==
            if Candidate(t, list, froms, Pass) then if IsSpam(h) then Mod else Pass
            else if Candidate(t, list, froms, Mod) then Mod else Reject
  {
    hide IsSpam, Candidate;
    forall a
      ensures IsMaximum(t, list, froms, a) <==> a == MaxOfFroms(t, list, froms, list.actionUnknown)
    {
      MaximumIsUnique(t, list, froms, a);
    }
    var m := MaxOfFroms(t, list, froms, list.actionUnknown);
    assert IsMaximum(t, list, froms, m);
    assert Candidate(t, list, froms, m);
  }

  /** A spam mark is a field X-Spam, X-Spam-Flag or X-Spam-Status whose first value begins with "true" or "yes", in
      whatever case and behind white space. */
  lemma SpamMarks(h: HeaderMap)
    ensures IsSpam(h) <==>
            exists key ::
              && (key == "X-Spam" || key == "X-Spam-Flag" || key == "X-Spam-Status")
              && SaysYes(ToLower(Trim(Get(h, key))))
  {
    hide Get, Trim;
    assert SPAM_KEYS == ["X-Spam", "X-Spam-Flag", "X-Spam-Status"];
    forall key
      ensures key in SPAM_KEYS <==> key == "X-Spam" || key == "X-Spam-Flag" || key == "X-Spam-Status"
    {
      assert key == "X-Spam" ==> key == SPAM_KEYS[0];
      assert key == "X-Spam-Flag" ==> key == SPAM_KEYS[1];
      assert key == "X-Spam-Status" ==> key == SPAM_KEYS[2];
    }
    forall key
      ensures SaysSpam(Get(h, key)) <==> SaysYes(ToLower(Trim(Get(h, key))))
    {
    }
  }

  predicate SaysYes(v: string) {
    (|v| >= 4 && v[..4] == "true") || (|v| >= 3 && v[..3] == "yes")
  }

  /** With the settings of a new list, a message from unknown senders is moderated, and one with a From address
      that is a member, a moderator or a known sender passes, unless it is marked as spam. */
  lemma NewListDecides(t: Database, id: int, addr: Addr, hmacKey: string, h: HeaderMap, froms: seq<Addr>)
    ensures var isKnown := exists f <- froms :: (id, f.Spec()) in t.members || (id, f.Spec()) in t.knowns;
            Decided(t, NewList(id, addr, hmacKey), h, froms) == if isKnown && !IsSpam(h) then Pass else Mod
  {
    hide IsSpam, Decided;
    var list := NewList(id, addr, hmacKey);
    DecidedIsMaximum(t, list, h, froms);
    if f :| f in froms && ((id, f.Spec()) in t.members || (id, f.Spec()) in t.knowns) {
      var status := if (id, f.Spec()) in t.knowns then Known
                    else if t.members[(id, f.Spec())].moderate then Moderator else Member;
      assert Earns(t, list, f.Spec(), status, Pass);
    } else {
      assert Candidate(t, list, froms, Mod);
    }
  }

  lemma PassIsMaximal(t: Database, list: List, froms: seq<Addr>)
    requires list.actionUnknown == Pass
    ensures MaxOfFroms(t, list, froms, list.actionUnknown) == Pass
  {
    hide Roles, Configured;
    MaxOfFromsIs(t, list, froms, list.actionUnknown);
  }

  /** Neither the order nor the repetition of From addresses matters, nor their display names. */
  lemma OrderDoesNotMatter(t: Database, list: List, h: HeaderMap, froms: seq<Addr>, others: seq<Addr>)
    requires forall f <- froms :: exists g <- others :: f.Spec() == g.Spec()
    requires forall g <- others :: exists f <- froms :: f.Spec() == g.Spec()
    ensures Decided(t, list, h, froms) == Decided(t, list, h, others)
  {
    hide IsSpam, Roles, Configured;
    MaxOfFromsIs(t, list, froms, list.actionUnknown);
    MaxOfFromsIs(t, list, others, list.actionUnknown);
  }

  /** Raising any configured action never lowers the decision. */
  lemma DecidedIsMonotone(t: Database, list: List, raised: List, h: HeaderMap, froms: seq<Addr>)
    requires list.id == raised.id
    requires list.actionMod.Rank() <= raised.actionMod.Rank() && list.actionMember.Rank() <= raised.actionMember.Rank()
    requires list.actionKnown.Rank() <= raised.actionKnown.Rank()
             && list.actionUnknown.Rank() <= raised.actionUnknown.Rank()
    ensures Decided(t, list, h, froms).Rank() <= Decided(t, raised, h, froms).Rank()
  {
    forall a
      ensures Roles(t, list, a) == Roles(t, raised, a)
    {
    }
    hide IsSpam, Roles, MaxOfFroms;
    MaxOfFromsIs(t, list, froms, list.actionUnknown);
    MaxOfFromsIs(t, raised, froms, raised.actionUnknown);
    var m, m' := MaxOfFroms(t, list, froms, list.actionUnknown), MaxOfFroms(t, raised, froms, raised.actionUnknown);
    if m != list.actionUnknown {
      var f, s :| f in froms && s in Roles(t, list, f.Spec()) && m == Configured(list, s);
      assert Configured(list, s).Rank() <= Configured(raised, s).Rank() <= m'.Rank();
    }
  }
}
