/** Mailing lists and the three database tables: list.go, action.go, status.go, membership.go and the schema of
    repo/sqlite/list.go. */
module Tables {
  import opened Addresses
  import opened Text

  datatype Option<+T> = None | Some(value: T)

  datatype Action = Reject | Mod | Pass {
    /** Actions are ordered. */
    function Rank(): nat {
      match this
      case Reject => 0
      case Mod => 1
      case Pass => 2
    }
  }

  datatype Status = Known | Member | Moderator

  /** What a member of a list gets and may do. */
  datatype Flags = Flags(receive: bool, moderate: bool, notify: bool, admin: bool, bounces: bool)

  datatype List = List(id: int, addr: Addr, hmacKey: string, publicSignup: bool, hideFrom: bool,
                       actionMod: Action, actionMember: Action, actionKnown: Action, actionUnknown: Action)

  type RowKey = (int, AddrSpec)

  /** The tables: lists by id, and members and known senders by list id and address. */
  datatype Database = Database(lists: map<int, List>, members: map<RowKey, Flags>, knowns: set<RowKey>)

  predicate SameMailbox(a: AddrSpec, b: AddrSpec) {
    EqualFold(a.local, b.local) && EqualFold(a.domain, b.domain)
  }

  /** The list with that posting address, if any. */
  ghost function ListAt(t: Database, a: AddrSpec): Option<List> {
    if id :| id in t.lists && t.lists[id].addr.Spec() == a then Some(t.lists[id]) else None
  }

  lemma ListAtIs(t: Database, id: int)
    requires UniqueAddresses(t) && id in t.lists
    ensures ListAt(t, t.lists[id].addr.Spec()) == Some(t.lists[id])
  {
    assert t.lists[id].addr.Spec() == t.lists[id].addr.Spec();
  }

  /** The schema lets no two lists have the same address. */
  ghost predicate UniqueAddresses(t: Database) {
    forall i, j | i in t.lists && j in t.lists && t.lists[i].addr.Spec() == t.lists[j].addr.Spec() :: i == j
  }

  /** A row of the member or known table belongs to a list, and not to the address of that list. */
  predicate GoodRow(t: Database, k: RowKey) {
    k.0 in t.lists && !SameMailbox(t.lists[k.0].addr.Spec(), k.1)
  }

  /** What holds of the tables whatever happens. */
  ghost predicate Consistent(t: Database) {
    && UniqueAddresses(t)
    && (forall id | id in t.lists :: t.lists[id].id == id && !IsBounceLocal(t.lists[id].addr.local))
    && (forall k | k in t.members :: GoodRow(t, k))
    && (forall k | k in t.knowns :: GoodRow(t, k))
  }

  /** The addresses without the own address of the list. */
  function Others(list: List, addrs: seq<Addr>): seq<Addr> {
    if addrs == [] then []
    else (if list.addr.Equals(addrs[0]) then [] else [addrs[0]]) + Others(list, addrs[1..])
  }

  function Keys(list: List, addrs: seq<Addr>): set<RowKey> {
    set i | 0 <= i < |addrs| :: (list.id, addrs[i].Spec())
  }

  datatype Operation =
    | Create(id: int, addr: Addr, hmacKey: string)
    | AddMembers(list: List, addrs: seq<Addr>, flags: Flags)
    | RemoveMembers(list: List, addrs: seq<Addr>)
    | UpdateMember(list: List, addr: Addr, flags: Flags)
    | AddKnowns(list: List, addrs: seq<Addr>)
    | RemoveKnowns(list: List, addrs: seq<Addr>)
    | Update(list: List, settings: List)
    | Delete(list: List)

  /** Default actions: unknown senders are moderated, all others pass. */
  function NewList(id: int, addr: Addr, hmacKey: string): List {
    List(id, addr, hmacKey, false, false, Pass, Pass, Pass, Mod)
  }

  ghost predicate MayCreate(t: Database, id: int, addr: Addr) {
    id !in t.lists && !IsBounceLocal(addr.local) && forall j | j in t.lists :: t.lists[j].addr.Spec() != addr.Spec()
  }

  /** What may be changed of a list afterwards. */
  function WithSettings(list: List, s: List): List {
    list.(addr := list.addr.(display := s.addr.display), publicSignup := s.publicSignup, hideFrom := s.hideFrom,
          actionMod := s.actionMod, actionMember := s.actionMember,
          actionKnown := s.actionKnown, actionUnknown := s.actionUnknown)
  }

  /** The whole effect of an operation that succeeds. */
  ghost function Effect(t: Database, op: Operation): Database {
    match op
    case Create(id, addr, hmacKey) =>
      if MayCreate(t, id, addr) then t.(lists := t.lists[id := NewList(id, addr, hmacKey)]) else t
    case AddMembers(list, addrs, flags) =>
      t.(members := t.members + map k | k in Keys(list, Others(list, addrs)) :: flags)
    case RemoveMembers(list, addrs) =>
      t.(members := t.members - Keys(list, addrs))
    case UpdateMember(list, addr, flags) =>
      if (list.id, addr.Spec()) in t.members then t.(members := t.members[(list.id, addr.Spec()) := flags]) else t
    case AddKnowns(list, addrs) =>
      t.(knowns := t.knowns + Keys(list, Others(list, addrs)))
    case RemoveKnowns(list, addrs) =>
      t.(knowns := t.knowns - Keys(list, addrs))
    case Update(list, settings) =>
      if list.id in t.lists then t.(lists := t.lists[list.id := WithSettings(t.lists[list.id], settings)]) else t
    case Delete(list) =>
      Database(t.lists - {list.id},
               map k | k in t.members && k.0 != list.id :: t.members[k],
               set k | k in t.knowns && k.0 != list.id)
  }

  /** A row of the list for one of the addresses. */
  predicate IsRowOf(list: List, addrs: seq<Addr>, k: RowKey) {
    k.0 == list.id && exists a <- addrs :: a.Spec() == k.1
  }

  /** The same, but not a row for the list itself. */
  predicate IsOtherRowOf(list: List, addrs: seq<Addr>, k: RowKey) {
    IsRowOf(list, addrs, k) && k.1 != list.addr.Spec()
  }

  lemma KeysAre(list: List, addrs: seq<Addr>)
    ensures forall k :: k in Keys(list, addrs) <==> IsRowOf(list, addrs, k)
    ensures forall k :: k in Keys(list, Others(list, addrs)) <==> IsOtherRowOf(list, addrs, k)
  {
    hide EqualFold, Others;
    RowsOfOthers(list, addrs);
    forall a: Addr
      ensures list.addr.Equals(a) <==> a.Spec() == list.addr.Spec()
    {
      EqualsIffSame(list.addr, a);
    }
    forall k
      ensures k in Keys(list, addrs) <==> IsRowOf(list, addrs, k)
    {
      if a :| a in addrs && k == (list.id, a.Spec()) {
        var i :| 0 <= i < |addrs| && addrs[i] == a;
        assert k == (list.id, addrs[i].Spec());
      }
    }
  }

  /** Adding: afterwards exactly the rows from before and those of the addresses other than the one of the list are
      there, and the latter have the given flags. */
  lemma AddedRows(t: Database, list: List, addrs: seq<Addr>, flags: Flags)
    ensures var m := Effect(t, AddMembers(list, addrs, flags));
            && (forall k :: k in m.members <==> k in t.members || IsOtherRowOf(list, addrs, k))
            && (forall k | k in m.members ::
                  m.members[k] == if IsOtherRowOf(list, addrs, k) then flags else t.members[k])
            && m.lists == t.lists && m.knowns == t.knowns
    ensures var m := Effect(t, AddKnowns(list, addrs));
            && (forall k :: k in m.knowns <==> k in t.knowns || IsOtherRowOf(list, addrs, k))
            && m.lists == t.lists && m.members == t.members
  {
    hide Keys, Others, IsOtherRowOf;
    KeysAre(list, addrs);
  }

  /** Removing: afterwards exactly the rows for other addresses or lists are there, as they were. */
  lemma RemovedRows(t: Database, list: List, addrs: seq<Addr>)
    ensures var m := Effect(t, RemoveMembers(list, addrs));
            && (forall k :: k in m.members <==> k in t.members && !IsRowOf(list, addrs, k))
            && (forall k | k in m.members :: m.members[k] == t.members[k])
            && m.lists == t.lists && m.knowns == t.knowns
    ensures var m := Effect(t, RemoveKnowns(list, addrs));
            && (forall k :: k in m.knowns <==> k in t.knowns && !IsRowOf(list, addrs, k))
            && m.lists == t.lists && m.members == t.members
  {
    hide Keys, IsRowOf;
    KeysAre(list, addrs);
  }

  /** The only difference is that the member of this row has joined, to receive the mail of the list and with no other
      rights, or has left. */
  ghost predicate HasChangedOver(t: Database, t': Database, row: RowKey, joins: bool) {
    && t'.lists == t.lists && t'.knowns == t.knowns
    && (forall k | k != row :: k in t'.members <==> k in t.members)
    && (forall k | k != row && k in t.members :: t'.members[k] == t.members[k])
    && (row in t.members) != joins
    && (if joins then row in t'.members && t'.members[row] == Flags(true, false, false, false, false)
        else row !in t'.members)
  }

  lemma OneJoins(t: Database, list: List, a: Addr)
    requires (list.id, a.Spec()) !in t.members && Others(list, [a]) == [a]
    ensures HasChangedOver(t, Effect(t, AddMembers(list, [a], Flags(true, false, false, false, false))),
                           (list.id, a.Spec()), true)
  {
    hide Effect, Others, EqualFold;
    AddedRows(t, list, [a], Flags(true, false, false, false, false));
    OthersAre(list, [a]);
    EqualsIffSame(list.addr, a);
    assert a in [a];
  }

  lemma OneLeaves(t: Database, list: List, a: Addr)
    requires (list.id, a.Spec()) in t.members
    ensures HasChangedOver(t, Effect(t, RemoveMembers(list, [a])), (list.id, a.Spec()), false)
  {
    hide Effect;
    RemovedRows(t, list, [a]);
    assert a in [a];
  }

  /** `list` is in the table, under its id and with its address. */
  predicate Existing(t: Database, list: List) {
    list.id in t.lists && t.lists[list.id].addr.Spec() == list.addr.Spec()
  }

  /** Rows are only added to lists that exist. */
  predicate OnExistingList(t: Database, op: Operation) {
    (op.AddMembers? || op.AddKnowns?) ==> Existing(t, op.list)
  }

  lemma {:induction false} OthersAre(list: List, addrs: seq<Addr>)
    ensures forall a :: a in Others(list, addrs) <==> a in addrs && !list.addr.Equals(a)
  {
    hide EqualFold;
    if addrs != [] {
      OthersAre(list, addrs[1..]);
      assert addrs == [addrs[0]] + addrs[1..];
    }
  }

  lemma OtherRowsAreGood(t: Database, list: List, addrs: seq<Addr>)
    requires Existing(t, list)
    ensures forall k | k in Keys(list, Others(list, addrs)) :: GoodRow(t, k)
  {
    hide EqualFold, Others;
    OthersAre(list, addrs);
    var others := Others(list, addrs);
    forall k | k in Keys(list, others)
      ensures GoodRow(t, k)
    {
      var i :| 0 <= i < |others| && k == (list.id, others[i].Spec());
      assert others[i] in others;
    }
  }

  /** Every operation keeps the tables consistent. */
  lemma EffectIsConsistent(t: Database, op: Operation)
    requires Consistent(t) && OnExistingList(t, op)
    ensures Consistent(Effect(t, op))
  {
    hide SameMailbox, EqualFold, HasSuffix, IsBounceLocal, Others, Keys, IsLowerCase, NoControls;
    if op.AddMembers? || op.AddKnowns? {
      OtherRowsAreGood(t, op.list, op.addrs);
    }
  }

  /** Exactly when adding rows keeps the tables consistent, with any handle: the id of the handle belongs to a list, and
      none of the addresses that the handle lets through is the address of that list. A stale handle can fail
      both ways, as its list may be gone and its id may have been given to another list. */
  lemma StaleHandle(t: Database, list: List, addrs: seq<Addr>, flags: Flags)
    requires Consistent(t)
    ensures Consistent(Effect(t, AddMembers(list, addrs, flags))) <==> MayAdd(t, list, addrs)
    ensures Consistent(Effect(t, AddKnowns(list, addrs))) <==> MayAdd(t, list, addrs)
  {
    hide EqualFold, HasSuffix, IsBounceLocal, Others, Keys, IsLowerCase, NoControls;
    RowsOfOthers(list, addrs);
    var rows := Keys(list, Others(list, addrs));
    var added, known := Effect(t, AddMembers(list, addrs, flags)), Effect(t, AddKnowns(list, addrs));
    if MayAdd(t, list, addrs) {
      assert forall k <- rows :: GoodRow(t, k);
    } else {
      var a :| a in addrs && !list.addr.Equals(a) && !(list.id in t.lists && !t.lists[list.id].addr.Equals(a));
      assert (list.id, a.Spec()) in rows;
      assert (list.id, a.Spec()) in added.members && (list.id, a.Spec()) in known.knowns;
      assert !GoodRow(t, (list.id, a.Spec()));
    }
  }

  predicate MayAdd(t: Database, list: List, addrs: seq<Addr>) {
    forall a <- addrs | !list.addr.Equals(a) :: list.id in t.lists && !t.lists[list.id].addr.Equals(a)
  }

  lemma RowsOfOthers(list: List, addrs: seq<Addr>)
    ensures forall k :: k in Keys(list, Others(list, addrs)) <==>
                        exists a :: a in addrs && !list.addr.Equals(a) && k == (list.id, a.Spec())
  {
    hide EqualFold, Others;
    OthersAre(list, addrs);
    var others := Others(list, addrs);
    forall a | a in others
      ensures (list.id, a.Spec()) in Keys(list, others)
    {
      var i :| 0 <= i < |others| && others[i] == a;
    }
  }

  /** A list was deleted and its id given to another list: adding the address of the heir with the old handle makes
      the heir its own member. */
  lemma ReusedId(gone: List, heir: List, flags: Flags)
    requires gone.id == heir.id && !gone.addr.Equals(heir.addr) && !IsBounceLocal(heir.addr.local)
    ensures var t := Database(map[heir.id := heir], map[], {});
            Consistent(t) && !Consistent(Effect(t, AddMembers(gone, [heir.addr], flags)))
  {
    hide HasSuffix;
    var t := Database(map[heir.id := heir], map[], {});
    StaleHandle(t, gone, [heir.addr], flags);
    assert heir.addr in [heir.addr];
  }

  /** An operation applies fully or not at all. */
  ghost predicate Step(t: Database, op: Operation, t': Database) {
    t' == t || t' == Effect(t, op)
  }

  ghost predicate Run(states: seq<Database>, ops: seq<Operation>) {
    && |states| == |ops| + 1
    && forall i | 0 <= i < |ops| :: Step(states[i], ops[i], states[i + 1]) && OnExistingList(states[i], ops[i])
  }

  /** Main result on the tables: over every run on existing lists, whatever fails, no list is its own member or
      known sender, no member or known row outlives its list, and no two lists share an address. */
  lemma {:induction false} RunsAreConsistent(states: seq<Database>, ops: seq<Operation>, i: nat)
    requires Run(states, ops) && Consistent(states[0]) && i < |states|
    ensures Consistent(states[i])
  {
    if i > 0 {
      hide Consistent, Effect;
      RunsAreConsistent(states, ops, i - 1);
      assert Step(states[i - 1], ops[i - 1], states[i - 1 + 1]);
      EffectIsConsistent(states[i - 1], ops[i - 1]);
    }
  }

  /** No two lists collide: neither their posting nor their bounce addresses, nor one with the other. */
  lemma AddressesAreApart(t: Database, i: int, j: int)
    requires Consistent(t) && i in t.lists && j in t.lists
    ensures t.lists[i].addr.Spec() != BounceOf(t.lists[j].addr.Spec())
    ensures BounceOf(t.lists[i].addr.Spec()) == BounceOf(t.lists[j].addr.Spec()) ==> i == j
    ensures t.lists[i].addr.Spec() == t.lists[j].addr.Spec() ==> i == j
  {
    hide HasSuffix, SameMailbox, TrimSuffix;
    BounceLeadsBack(t.lists[j].addr.Spec());
    BounceLeadsBack(t.lists[i].addr.Spec());
  }
}
