/** The list database: repo/sqlite/list.go. Any statement, and any commit, may fail. */
module ListDBs {
  import opened Addresses
  import opened Sorting
  import opened Tables

  datatype DbError = BadAddress | BounceSuffixRefused | NoRandomness | StatementFailed

  datatype Result<+T> = Ok(value: T) | Err(error: DbError)

  /** Whether something outside the program fails. */
  method Fails() returns (fails: bool) {
    fails := *;
  }

  /** A given name takes the place of the parsed display name. */
  function Named(address: Addr, name: string): Addr {
    if name != "" then address.(display := name) else address
  }

  class ListDB {
    var lists: map<int, List>
    var members: map<RowKey, Flags>
    var knowns: set<RowKey>

    ghost function State(): Database
      reads this
    {
      Database(lists, members, knowns)
    }

    constructor ()
      ensures State() == Database(map[], map[], {}) && Consistent(State())
    {
      lists, members, knowns := map[], map[], {};
    }

    /** Creates a list with default settings. `address` is the parsed address (or None), `hmacKey` a random string (or
        None). */
    method Create(address: Option<Addr>, name: string, hmacKey: Option<string>) returns (r: Result<Option<List>>)
      requires UniqueAddresses(State())
      modifies this
      ensures r.Ok? ==>
                && address.Some? && hmacKey.Some? && r.value.Some?
                && var addr, id := Named(address.value, name), r.value.value.id;
                   && MayCreate(old(State()), id, addr)
                   && r.value.value == NewList(id, addr, hmacKey.value)
                   && State() == Effect(old(State()), Operation.Create(id, addr, hmacKey.value))
                   && lists == old(lists)[id := r.value.value] && members == old(members) && knowns == old(knowns)
      ensures r.Ok? ==>
                && var list := r.value.value;
                && list.id !in old(lists) && list.addr.Spec() == address.value.Spec() && list.hmacKey == hmacKey.value
                && list.addr.display == (if name != "" then name else address.value.display)
                && list.actionUnknown == Mod
                   && list.actionKnown == list.actionMember == list.actionMod == Pass
                && !list.publicSignup && !list.hideFrom
      ensures r.Err? && (r.error != StatementFailed) ==> State() == old(State())
      ensures r.Err? ==>
                || State() == old(State())
                || (address.Some? && hmacKey.Some?
                    && exists id ::
                         && MayCreate(old(State()), id, Named(address.value, name))
                         && var op := Operation.Create(id, Named(address.value, name), hmacKey.value);
                            State() == Effect(old(State()), op))
      ensures address.Some? && IsBounceLocal(address.value.local) ==> r == Err(BounceSuffixRefused)
      ensures UniqueAddresses(State())
    {
      if address.None? {
        return Err(BadAddress);
      }
      var addr := address.value;
      if IsBounceLocal(addr.local) {
        return Err(BounceSuffixRefused);
      }
      if name != "" {
        addr := addr.(display := name);
      }
      if hmacKey.None? {
        return Err(NoRandomness);
      }
      var id: int := *;
      var fails := Fails();
      if fails || id in lists || exists j | j in lists :: lists[j].addr.Spec() == addr.Spec() {
        return Err(StatementFailed);
      }
      assert addr == Named(address.value, name) && MayCreate(State(), id, addr);
      lists := lists[id := NewList(id, addr, hmacKey.value)];
      assert State() == Effect(old(State()), Operation.Create(id, addr, hmacKey.value));
      ListAtIs(State(), id);
      r := GetList(addr.Spec());
    }

    /** The list with that posting address. */
    method GetList(address: AddrSpec) returns (r: Result<Option<List>>)
      requires UniqueAddresses(State())
      ensures r.Ok? ==> r.value == ListAt(State(), address)
      ensures r.Err? ==> r.error == StatementFailed
    {
      var fails := Fails();
      if fails {
        return Err(StatementFailed);
      }
      if id :| id in lists && lists[id].addr.Spec() == address {
        r := Ok(Some(lists[id]));
      } else {
        r := Ok(None);
      }
    }

    method IsList(address: AddrSpec) returns (r: Result<bool>)
      ensures r.Ok? ==> r.value == ListAt(State(), address).Some?
    {
      var fails := Fails();
      if fails {
        return Err(StatementFailed);
      }
      r := Ok(exists id | id in lists :: lists[id].addr.Spec() == address);
    }

    /** The flags of a member, or None. */
    method GetMembership(list: List, addr: AddrSpec) returns (r: Result<Option<Flags>>)
      ensures r.Ok? ==> r.value == if (list.id, addr) in members then Some(members[(list.id, addr)]) else None
    {
      var fails := Fails();
      if fails {
        return Err(StatementFailed);
      }
      r := Ok(if (list.id, addr) in members then Some(members[(list.id, addr)]) else None);
    }

    method IsKnown(list: List, addr: AddrSpec) returns (r: Result<bool>)
      ensures r.Ok? ==> r.value == ((list.id, addr) in knowns)
    {
      var fails := Fails();
      if fails {
        return Err(StatementFailed);
      }
      r := Ok((list.id, addr) in knowns);
    }

    /** The addresses of the members with a flag, each once. */
    method MembersWhere(list: List, flag: Flags -> bool) returns (r: Result<seq<AddrSpec>>)
      ensures r.Ok? ==> multiset(r.value) == multiset(MembersWith(State(), list, flag))
      ensures r.Ok? ==> forall a :: a in r.value <==> (list.id, a) in members && flag(members[(list.id, a)])
      ensures r.Ok? ==> forall i, j | 0 <= i < j < |r.value| :: r.value[i] != r.value[j]
    {
      var fails := Fails();
      if fails {
        return Err(StatementFailed);
      }
      var left := set k | k in members && k.0 == list.id && flag(members[k]) :: k.1;
      assert left == MembersWith(State(), list, flag);
      var found: seq<AddrSpec> := [];
      while left != {}
        invariant multiset(found) + multiset(left) == multiset(MembersWith(State(), list, flag))
        decreases |left|
      {
        var a :| a in left;
        assert left == {a} + (left - {a});
        left := left - {a};
        found := found + [a];
      }
      EachOnce(found, MembersWith(State(), list, flag));
      r := Ok(found);
    }

    /** Adds members and returns those who were added; all or nothing. */
    method AddMembers(list: List, addrs: seq<Addr>, flags: Flags) returns (r: Result<seq<Addr>>)
      modifies this`members
      ensures r.Ok? ==>
              r.value == Others(list, addrs)
                  && State() == Effect(old(State()), Operation.AddMembers(list, addrs, flags))
      ensures r.Ok? ==>
                && (forall a :: a in r.value <==> a in addrs && a.Spec() != list.addr.Spec())
                && (forall k :: k in members <==> k in old(members) || IsOtherRowOf(list, addrs, k))
                && forall k | k in members ::
                     members[k] == if IsOtherRowOf(list, addrs, k) then flags else old(members)[k]
      ensures r.Err? ==> State() == old(State())
    {
      hide EqualFold, Others, Keys, IsOtherRowOf;
      NothingYet(list);
      var fails := Fails();
      if fails {
        return Err(StatementFailed);
      }
      var saved := members;
      var added: seq<Addr> := [];
      assert addrs[..0] == [];
      for i := 0 to |addrs|
        invariant added == Others(list, addrs[..i])
        invariant members == saved + map k | k in Keys(list, added) :: flags
      {
        var addr := addrs[i];
        OthersLast(list, addrs, i);
        if list.addr.Equals(addr) {
          continue;
        }
        fails := Fails();
        if fails {
          members := saved;
          return Err(StatementFailed);
        }
        members := members[(list.id, addr.Spec()) := flags];
        KeysLast(list, added, addr);
        added := added + [addr];
      }
      assert addrs[..|addrs|] == addrs;
      fails := Fails();
      if fails {
        members := saved;
        return Err(StatementFailed);
      }
      AddedRows(old(State()), list, addrs, flags);
      OthersAreOthers(list, addrs);
      r := Ok(added);
    }

    method UpdateMember(list: List, address: Option<Addr>, flags: Flags) returns (r: Result<()>)
      modifies this`members
      ensures r.Ok? ==>
              address.Some? && State() == Effect(old(State()), Operation.UpdateMember(list, address.value, flags))
      ensures r.Ok? ==>
                && members.Keys == old(members.Keys)
                && forall k | k in members ::
                     members[k] == if k == (list.id, address.value.Spec()) then flags else old(members)[k]
      ensures r.Err? ==> State() == old(State())
    {
      if address.None? {
        return Err(BadAddress);
      }
      var fails := Fails();
      if fails {
        return Err(StatementFailed);
      }
      if (list.id, address.value.Spec()) in members {
        members := members[(list.id, address.value.Spec()) := flags];
      }
      r := Ok(());
    }

    /** Removes members; all or nothing. Addresses that were no members are returned as well. */
    method RemoveMembers(list: List, addrs: seq<Addr>) returns (r: Result<seq<Addr>>)
      modifies this`members
      ensures r.Ok? ==> r.value == addrs && State() == Effect(old(State()), Operation.RemoveMembers(list, addrs))
      ensures r.Ok? ==>
                && (forall a <- addrs :: (list.id, a.Spec()) !in members)
                && forall k | k in old(members) && !IsRowOf(list, addrs, k) :: k in members
      ensures r.Ok? ==> forall k | k in members :: k in old(members) && members[k] == old(members)[k]
      ensures r.Err? ==> State() == old(State())
    {
      hide EqualFold, Others, Keys;
      NothingYet(list);
      var fails := Fails();
      if fails {
        return Err(StatementFailed);
      }
      var saved := members;
      var removed: seq<Addr> := [];
      for i := 0 to |addrs|
        invariant removed == addrs[..i]
        invariant members == saved - Keys(list, removed)
      {
        var addr := addrs[i];
        fails := Fails();
        if fails {
          members := saved;
          return Err(StatementFailed);
        }
        members := members - {(list.id, addr.Spec())};
        KeysLast(list, removed, addr);
        removed := removed + [addr];
      }
      fails := Fails();
      if fails {
        members := saved;
        return Err(StatementFailed);
      }
      RemovedRows(old(State()), list, addrs);
      r := Ok(removed);
    }

    /** Adds known senders and returns those who were added; all or nothing. */
    method AddKnowns(list: List, addrs: seq<Addr>) returns (r: Result<seq<Addr>>)
      modifies this`knowns
      ensures r.Ok? ==>
              r.value == Others(list, addrs) && State() == Effect(old(State()), Operation.AddKnowns(list, addrs))
      ensures r.Ok? ==>
                && (forall a :: a in r.value <==> a in addrs && a.Spec() != list.addr.Spec())
                && forall k :: k in knowns <==> k in old(knowns) || IsOtherRowOf(list, addrs, k)
      ensures r.Err? ==> State() == old(State())
    {
      hide EqualFold, Others, Keys, IsOtherRowOf;
      NothingYet(list);
      var fails := Fails();
      if fails {
        return Err(StatementFailed);
      }
      var saved := knowns;
      var added: seq<Addr> := [];
      assert addrs[..0] == [];
      for i := 0 to |addrs|
        invariant added == Others(list, addrs[..i])
        invariant knowns == saved + Keys(list, added)
      {
        var addr := addrs[i];
        OthersLast(list, addrs, i);
        if list.addr.Equals(addr) {
          continue;
        }
        fails := Fails();
        if fails {
          knowns := saved;
          return Err(StatementFailed);
        }
        knowns := knowns + {(list.id, addr.Spec())};
        KeysLast(list, added, addr);
        added := added + [addr];
      }
      assert addrs[..|addrs|] == addrs;
      fails := Fails();
      if fails {
        knowns := saved;
        return Err(StatementFailed);
      }
      AddedRows(old(State()), list, addrs, Flags(false, false, false, false, false));
      OthersAreOthers(list, addrs);
      r := Ok(added);
    }

    /** Removes known senders; all or nothing. */
    method RemoveKnowns(list: List, addrs: seq<Addr>) returns (r: Result<seq<Addr>>)
      modifies this`knowns
      ensures r.Ok? ==> r.value == addrs && State() == Effect(old(State()), Operation.RemoveKnowns(list, addrs))
      ensures r.Ok? ==> forall k :: k in knowns <==> k in old(knowns) && !IsRowOf(list, addrs, k)
      ensures r.Err? ==> State() == old(State())
    {
      hide EqualFold, Others, Keys, IsRowOf;
      NothingYet(list);
      var fails := Fails();
      if fails {
        return Err(StatementFailed);
      }
      var saved := knowns;
      var removed: seq<Addr> := [];
      for i := 0 to |addrs|
        invariant removed == addrs[..i]
        invariant knowns == saved - Keys(list, removed)
      {
        var addr := addrs[i];
        fails := Fails();
        if fails {
          knowns := saved;
          return Err(StatementFailed);
        }
        knowns := knowns - {(list.id, addr.Spec())};
        KeysLast(list, removed, addr);
        removed := removed + [addr];
      }
      fails := Fails();
      if fails {
        knowns := saved;
        return Err(StatementFailed);
      }
      RemovedRows(old(State()), list, addrs);
      r := Ok(removed);
    }

    /** Changes the settings of a list and returns the changed list. */
    method Update(list: List, settings: List) returns (r: Result<List>)
      modifies this`lists
      ensures r.Ok? ==>
              r.value == WithSettings(list, settings)
                  && State() == Effect(old(State()), Operation.Update(list, settings))
      ensures r.Ok? ==> HasSettings(r.value, settings) && SameIdentity(r.value, list)
      ensures r.Ok? ==>
                && lists.Keys == old(lists.Keys)
                && (forall id | id in lists && id != list.id :: lists[id] == old(lists)[id])
                && (list.id in lists ==>
                      HasSettings(lists[list.id], settings) && SameIdentity(lists[list.id], old(lists)[list.id]))
      ensures r.Err? ==> State() == old(State())
    {
      var fails := Fails();
      if fails {
        return Err(StatementFailed);
      }
      if list.id in lists {
        lists := lists[list.id := WithSettings(lists[list.id], settings)];
      }
      r := Ok(WithSettings(list, settings));
    }

    /** Deletes a list with its members and known senders; all or nothing. */
    method Delete(list: List) returns (r: Result<()>)
      modifies this
      ensures r.Ok? ==> State() == Effect(old(State()), Operation.Delete(list))
      ensures r.Ok? ==>
                && (forall id :: id in lists <==> id in old(lists) && id != list.id)
                && (forall id | id in lists :: lists[id] == old(lists)[id])
                && (forall k :: k in members <==> k in old(members) && k.0 != list.id)
                && (forall k | k in members :: members[k] == old(members)[k])
                && (forall k :: k in knowns <==> k in old(knowns) && k.0 != list.id)
      ensures r.Err? ==> State() == old(State())
    {
      var fails := Fails();
      if fails {
        return Err(StatementFailed);
      }
      var savedLists, savedMembers, savedKnowns := lists, members, knowns;
      fails := Fails();
      if fails {
        return Err(StatementFailed);
      }
      lists := lists - {list.id};
      fails := Fails();
      if fails {
        lists := savedLists;
        return Err(StatementFailed);
      }
      knowns := set k | k in knowns && k.0 != list.id;
      fails := Fails();
      if fails {
        lists, knowns := savedLists, savedKnowns;
        return Err(StatementFailed);
      }
      members := map k | k in members && k.0 != list.id :: members[k];
      fails := Fails();
      if fails {
        lists, members, knowns := savedLists, savedMembers, savedKnowns;
        return Err(StatementFailed);
      }
      r := Ok(());
    }
  }

  ghost function MembersWith(t: Database, list: List, flag: Flags -> bool): set<AddrSpec> {
    set k | k in t.members && k.0 == list.id && flag(t.members[k]) :: k.1
  }

  /** The list has these settings. */
  predicate HasSettings(list: List, s: List) {
    && list.addr.display == s.addr.display && list.publicSignup == s.publicSignup && list.hideFrom == s.hideFrom
    && list.actionMod == s.actionMod && list.actionMember == s.actionMember
    && list.actionKnown == s.actionKnown && list.actionUnknown == s.actionUnknown
  }

  /** What an update leaves alone. */
  predicate SameIdentity(a: List, b: List) {
    a.id == b.id && a.addr.Spec() == b.addr.Spec() && a.hmacKey == b.hmacKey
  }

  lemma OthersAreOthers(list: List, addrs: seq<Addr>)
    ensures forall a :: a in Others(list, addrs) <==> a in addrs && a.Spec() != list.addr.Spec()
  {
    hide EqualFold, Others;
    OthersAre(list, addrs);
    forall a: Addr
      ensures list.addr.Equals(a) <==> a.Spec() == list.addr.Spec()
    {
      EqualsIffSame(list.addr, a);
    }
  }

  lemma NothingYet(list: List)
    ensures Others(list, []) == [] && Keys(list, []) == {}
  {
  }

  lemma OthersLast(list: List, addrs: seq<Addr>, i: nat)
    requires i < |addrs|
    ensures Others(list, addrs[..i + 1]) ==
            Others(list, addrs[..i]) + if list.addr.Equals(addrs[i]) then [] else [addrs[i]]
  {
    hide EqualFold;
    assert addrs[..i + 1] == addrs[..i] + [addrs[i]];
    OthersConcat(list, addrs[..i], [addrs[i]]);
  }

  lemma {:induction false} OthersConcat(list: List, a: seq<Addr>, b: seq<Addr>)
    ensures Others(list, a + b) == Others(list, a) + Others(list, b)
  {
    hide EqualFold;
    if a == [] {
      assert a + b == b;
    } else {
      assert (a + b)[1..] == a[1..] + b;
      OthersConcat(list, a[1..], b);
    }
  }

  lemma KeysLast(list: List, addrs: seq<Addr>, addr: Addr)
    ensures Keys(list, addrs + [addr]) == Keys(list, addrs) + {(list.id, addr.Spec())}
  {
    var all := addrs + [addr];
    forall i | 0 <= i < |all|
      ensures (list.id, all[i].Spec()) in Keys(list, addrs) + {(list.id, addr.Spec())}
    {
      if i < |addrs| {
        assert all[i] == addrs[i];
      }
    }
    forall i | 0 <= i < |addrs|
      ensures (list.id, addrs[i].Spec()) in Keys(list, all)
    {
      assert all[i] == addrs[i];
    }
    assert all[|addrs|] == addr;
  }
}
