/** Which mail reaches the list server, and which comes back to it: the socketmap service of sockmap/srv.go, and
    loops. */
module Routing {
  import opened Addresses
  import opened Headers
  import opened Lmtp
  import opened Messages
  import Decimal
  import opened Netstring
  import opened Reader
  import opened Resaving
  import opened Tables
  import opened Text
  import opened Ulists

  /** Main result on routing: the socketmap service and RCPT TO agree. An address is routed to the list server
      exactly if there is an envelope sender with which it is accepted. */
  lemma RoutingAgreement(t: Database, to: Addr)
    ensures Routed(t, to.Spec()) <==> exists sender: string :: Accepts(t, IsBlank(sender), to)
  {
    hide HasSuffix, TrimSuffix, ListAt;
    var sender := if IsBounceLocal(to.local) then "" else "x";
    TrimTrimmed(sender);
    if Routed(t, to.Spec()) {
      assert Accepts(t, IsBlank(sender), to);
    }
  }

  /** The bounce address of a list leads back to this list, for bounce notifications only. */
  lemma BounceAddressLeadsBack(t: Database, id: int, to: Addr)
    requires Consistent(t) && id in t.lists && to.Spec() == BounceOf(t.lists[id].addr.Spec())
    ensures Accepts(t, true, to) && !Accepts(t, false, to)
    ensures ListAt(t, to.Spec().(local := WithoutBounce(to.local))) == Some(t.lists[id])
  {
    hide HasSuffix, TrimSuffix, GoodRow;
    var a := t.lists[id].addr.Spec();
    BounceLeadsBack(a);
    assert to.Spec().(local := WithoutBounce(to.local)) == a;
    ListAtIs(t, id);
  }

  /** The posting address of a list leads to this list, for everything but bounce notifications. */
  lemma PostingAddressLeads(t: Database, id: int, to: Addr)
    requires Consistent(t) && id in t.lists && to.Spec() == t.lists[id].addr.Spec()
    ensures Accepts(t, false, to) && !Accepts(t, true, to)
    ensures ListAt(t, to.Spec()) == Some(t.lists[id])
  {
    hide HasSuffix, GoodRow;
    ListAtIs(t, id);
    assert to.Spec().(local := to.local) == to.Spec();
  }

  /** The answer to the bytes of one request. `found` tells whether the address is served, if the database works. */
  function Answer(lib: Library, input: string, socket: string, found: AddrSpec -> Option<bool>): string {
    match Decode(input)
    case Err(_) => Encode("PERM error decoding netstring")
    case Ok(data) =>
      if IndexOf(data, ' ') == |data| then Encode("PERM malformed request")
      else
        var key := data[IndexOf(data, ' ') + 1..];
        if key == "*" then Encode("NOTFOUND ")
        else
          match lib.parseAddress(key)
          case None => Encode("NOTFOUND ")
          case Some(addr) =>
            match found(addr.Spec())
            case None => Encode("TEMP database error")
            case Some(yes) => if yes then Encode("OK lmtp:unix:" + socket) else Encode("NOTFOUND ")
  }

  /** The socketmap service: one request is answered from the database, unless that fails. */
  method ServeLookup(u: Ulist, input: string, socket: string) returns (answer: string)
    ensures var t := u.db.State();
            || answer == Answer(u.lib, input, socket, a => Some(Routed(t, a)))
            || answer == Answer(u.lib, input, socket, a => None)
  {
    hide Decode, Encode, Routed;
    var decoded := Decode(input);
    if decoded.Err? {
      return Encode("PERM error decoding netstring");
    }
    var data := decoded.value;
    var i := IndexOf(data, ' ');
    if i == |data| {
      return Encode("PERM malformed request");
    }
    var key := data[i + 1..];
    if key == "*" {
      return Encode("NOTFOUND ");
    }
    var listAddr := u.lib.parseAddress(key);
    if listAddr.None? {
      return Encode("NOTFOUND ");
    }
    var found := u.IsListOrBounce(listAddr.value.Spec());
    if found.Err? {
      return Encode("TEMP database error");
    }
    answer := if found.value then Encode("OK lmtp:unix:" + socket) else Encode("NOTFOUND ");
  }

  /** A well-formed request for an address is answered OK exactly if some envelope sender makes RCPT TO accept it. */
  lemma AnswerAgrees(lib: Library, t: Database, name: string, key: string, socket: string,
          found: AddrSpec -> Option<bool>)
    requires ' ' !in name && key != "*" && |name| + 1 + |key| <= Decimal.MAX_INT && |socket| + 20 <= Decimal.MAX_INT
    requires lib.parseAddress(key).Some?
             && found(lib.parseAddress(key).value.Spec()) == Some(Routed(t, lib.parseAddress(key).value.Spec()))
    ensures Answer(lib, Encode(name + " " + key), socket, found) == Encode("OK lmtp:unix:" + socket) <==>
            exists sender: string :: Accepts(t, IsBlank(sender), lib.parseAddress(key).value)
  {
    hide Decode, Encode, Routed, Accepts;
    var addr := lib.parseAddress(key).value;
    RoutingAgreement(t, addr);
    RoundTrip(name + " " + key);
    IndexBehind(name, ' ', key);
    assert (name + " " + key)[|name| + 1..] == key;
    assert "NOTFOUND "[0] == 'N' && ("OK lmtp:unix:" + socket)[0] == 'O';
    if Encode("NOTFOUND ") == Encode("OK lmtp:unix:" + socket) {
      EncodeIsInjective("NOTFOUND ", "OK lmtp:unix:" + socket);
    }
  }

  /** The answers to all requests: a netstring with a space in it asks for what stands behind the first space; whoever
      asks for an address that is not served is told so, and a failure of the database is told as temporary. */
  lemma AnswerTells(lib: Library, name: string, key: string, socket: string, found: AddrSpec -> Option<bool>)
    requires ' ' !in name && |name| + 1 + |key| <= Decimal.MAX_INT
    ensures var answer, addr := Answer(lib, Encode(name + " " + key), socket, found), lib.parseAddress(key);
            && (key == "*" || addr.None? ==> answer == Encode("NOTFOUND "))
            && (key != "*" && addr.Some? ==>
                  && (found(addr.value.Spec()) == None ==> answer == Encode("TEMP database error"))
                  && (found(addr.value.Spec()) == Some(false) ==> answer == Encode("NOTFOUND "))
                  && (found(addr.value.Spec()) == Some(true) ==> answer == Encode("OK lmtp:unix:" + socket)))
  {
    hide Decode, Encode;
    RoundTrip(name + " " + key);
    IndexBehind(name, ' ', key);
    assert (name + " " + key)[|name| + 1..] == key;
  }

  /** Requests that are malformed are refused for good. */
  lemma MalformedIsRefused(lib: Library, input: string, socket: string, found: AddrSpec -> Option<bool>)
    ensures Decode(input).Err? ==> Answer(lib, input, socket, found) == Encode("PERM error decoding netstring")
    ensures Decode(input).Ok? && ' ' !in Decode(input).value ==>
            Answer(lib, input, socket, found) == Encode("PERM malformed request")
  {
    hide Decode, Encode;
    if Decode(input).Ok? {
      var data := Decode(input).value;
      assert IndexOf(data, ' ') < |data| ==> ' ' in data;
    }
  }

  /** The List-Id of a forwarded message reads back. */
  lemma ListIdReadsBack(lib: Library, list: List, h: HeaderMap, sent: HeaderMap)
    requires IsForwardHeader(lib, list, h, sent) && CanonicalKeys(sent) && Printable(ListIdField(lib, list))
    ensures var read := Grouped(RereadAll(PrintedFields(sent)));
            "List-Id" in read && read["List-Id"] == [lib.nameAddr(list.addr)]
  {
    var key := "List-Id";
    ListIdSent(lib, list, h, sent);
    hide ForwardHeader, IsForwardHeader, FieldsOf, Grouped, CanonicalKeys, FieldsOfKeys, KeyOrder, Printable;
    OneField(ListIdField(lib, list));
    PrintableRereads(ListIdField(lib, list));
    assert FieldsOfKey(sent, key) == [ListIdField(lib, list)];
    ReadBackKey(sent, f => Reread(f), key);
    EachReread(PrintedFields(sent));
  }

  function ListIdField(lib: Library, list: List): Field {
    Field("List-Id", lib.nameAddr(list.addr))
  }

  lemma ListIdSet(lib: Library, list: List, h: HeaderMap, messageId: string)
    ensures var m := ListFields(lib, list, h, messageId);
            "List-Id" in m && m["List-Id"] == [lib.nameAddr(list.addr)]
  {
    var key := "List-Id";
    assert key[0] == 'L' && key[5] == 'I' && "Subject"[0] == 'S' && "Message-Id"[0] == 'M'
           && "Dkim-Signature"[0] == 'D';
    assert "List-Post"[5] == 'P' && "List-Unsubscribe"[5] == 'U';
  }

  lemma ListIdNotSetLater(lib: Library, list: List, froms: seq<Addr>)
    ensures "List-Id" !in FromFields(lib, list, froms) && "List-Id" != "Sender" && "List-Id" !in CONTENT_KEYS
  {
    hide MungedFroms, NameAddrs;
    assert "List-Id"[0] == 'L' && "From"[0] == 'F' && "Reply-To"[0] == 'R' && "Sender"[0] == 'S';
    assert "Content-Type"[0] == "Content-Disposition"[0] == "Content-Transfer-Encoding"[0] == 'C';
  }

  lemma ListIdSent(lib: Library, list: List, h: HeaderMap, sent: HeaderMap)
    requires IsForwardHeader(lib, list, h, sent)
    ensures "List-Id" in sent && sent["List-Id"] == [lib.nameAddr(list.addr)]
  {
    hide WithoutSpam, ListFields, FromFields, AddressesOf;
    var key := "List-Id";
    var froms, id :| (list.hideFrom || AddressesOf(lib, h, "From") == Some(froms))
        && SameButContent(sent, ForwardHeader(lib, list, h, froms, id));
    var f := ForwardHeader(lib, list, h, froms, id);
    ListIdSet(lib, list, h, id);
    ListIdNotSetLater(lib, list, froms);
    assert key in f && f[key] == [lib.nameAddr(list.addr)];
    assert key in f - CONTENT_KEYS && (f - CONTENT_KEYS)[key] == f[key];
    assert key in sent - CONTENT_KEYS;
  }

  lemma OneField(f: Field)
    requires f.name == "List-Id"
    ensures FieldsOf(f.name, JoinedValues(f.name, [f.value])) == [f]
  {
    var key, value := f.name, f.value;
    assert key[0] == 'L' && "Received"[0] == 'R' && "User-Agent"[0] == 'U' && "X-Originating-IP"[0] == 'X'
           && "Mime-Version"[0] == 'M';
    assert !Withheld(key, value);
    assert JoinedValues(key, [value]) == [value];
    TrimTrimmed(key);
    assert FieldsOf(key, [value]) == [Field(Trim(PrintedName(key)), value)] + FieldsOf(key, []);
  }

  /** Main result on loops: a message that was forwarded over a list, printed, read again and delivered to this
      list, alone or among others, does not pass the checks. */
  lemma ForwardedMailIsRefused(lib: Library, list: List, h: HeaderMap, sent: HeaderMap, body: string, isBounce: bool,
          lists: seq<List>)
    requires Faithful(lib) && IsForwardHeader(lib, list, h, sent)
    requires AllLegible(PrintedFields(sent)) && CanonicalKeys(sent) && Printable(ListIdField(lib, list))
    requires exists l <- lists :: l.addr.Spec() == list.addr.Spec()
    ensures var text := SavedText(sent, body);
            Messages.ReadMessage(text).Success? && !ChecksPass(lib, isBounce, lists, Messages.ReadMessage(text).value.0)
  {
    hide IsForwardHeader, AllLegible, CanonicalKeys, PrintedFields, Grouped, SavedText, ReadMessage, Addressed,
         RereadAll, Printable;
    SavedReadsAs(sent, body);
    ListIdReadsBack(lib, list, h, sent);
    var read := Grouped(RereadAll(PrintedFields(sent)));
    var id := lib.parseAddress(lib.nameAddr(list.addr));
    assert read["List-Id"][0] == lib.nameAddr(list.addr);
    var l :| l in lists && l.addr.Spec() == list.addr.Spec();
    assert l.addr.Equals(id.value);
  }
}
