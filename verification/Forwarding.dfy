/** What the receivers of a forwarded message get: the header that `Forward` of ulist.go makes, field by field. */
module Forwarding {
  import opened Addresses
  import opened Headers
  import opened ListDBs
  import opened Messages
  import opened Printed
  import opened Reader
  import opened Resaving
  import opened Sorting
  import opened Tables
  import opened Text
  import opened Ulists

  predicate MarksSpam(key: string) {
    Canonical(key) == "X-Spam" || Canonical(key) == "X-Spam-Flag" || Canonical(key) == "X-Spam-Status"
  }

  /** Fields that the list sets or clears itself, and fields that the footer may change. */
  predicate IsSetByList(key: string) {
    || key == "List-Id" || key == "List-Post" || key == "List-Unsubscribe"
    || key == "Message-Id" || key == "Subject" || key == "From" || key == "Reply-To"
    || key == "Sender" || key == "Dkim-Signature"
    || key == "Content-Type" || key == "Content-Disposition" || key == "Content-Transfer-Encoding"
  }

  /** The field has these values. */
  predicate Has(h: HeaderMap, key: string, values: seq<string>) {
    key in h && h[key] == values
  }

  /** Everything about the sender is hidden behind the address of the list. */
  ghost predicate HidesSender(lib: Library, list: List, sent: HeaderMap) {
    Has(sent, "From", [lib.nameAddr(list.addr)]) && Has(sent, "Reply-To", [])
  }

  /** `name` is the visible name of the sender with the one of the list behind it, at the address of the list. */
  predicate IsVia(from: Addr, list: List, name: Addr) {
    && name.local == list.addr.local && name.domain == list.addr.domain
    && exists i, j ::
      && 0 <= i <= |ShownName(from)| && '@' !in ShownName(from)[..i]
      && (i < |ShownName(from)| ==> ShownName(from)[i] == '@')
      && 0 <= j <= |ShownName(list.addr)| && '@' !in ShownName(list.addr)[..j]
      && (j < |ShownName(list.addr)| ==> ShownName(list.addr)[j] == '@')
      && name.display == ShownName(from)[..i] + " via " + ShownName(list.addr)[..j]
  }

  /** What mail programs show of an address. */
  function ShownName(a: Addr): string {
    if a.display != "" then a.display else a.local
  }

  function AsText(lib: Library, addrs: seq<Addr>): seq<string> {
    seq(|addrs|, i requires 0 <= i < |addrs| => lib.nameAddr(addrs[i]))
  }

  /** The message comes from the list, once for each sender, and answers go to the senders. */
  ghost predicate ShowsSenders(lib: Library, list: List, froms: seq<Addr>, sent: HeaderMap) {
    && (exists names: seq<Addr> ::
      && |names| == |froms| && (forall i | 0 <= i < |froms| :: IsVia(froms[i], list, names[i]))
      && Has(sent, "From", [Join(AsText(lib, names), ",")]))
    && Has(sent, "Reply-To", [Join(AsText(lib, froms), ", ")])
  }

  /** These are the addresses in the field; none if there is no such field. */
  ghost predicate AreIn(lib: Library, h: HeaderMap, field: string, addrs: seq<Addr>) {
    if Get(h, field) == "" then addrs == [] else lib.parseList(Get(h, field)) == Some(addrs)
  }

  /** The sender is hidden, or shown behind the address of the list. */
  ghost predicate IsFromList(lib: Library, list: List, h: HeaderMap, sent: HeaderMap) {
    if list.hideFrom then HidesSender(lib, list, sent)
    else exists froms :: AreIn(lib, h, "From", froms) && ShowsSenders(lib, list, froms, sent)
  }

  ghost predicate HasListFields(lib: Library, list: List, h: HeaderMap, sent: HeaderMap) {
    && Has(sent, "List-Id", [lib.nameAddr(list.addr)])
    && Has(sent, "List-Post", [lib.mailto(list.addr.Spec(), "")])
    && Has(sent, "List-Unsubscribe", [lib.mailto(list.addr.Spec(), "subject=leave")])
    && Has(sent, "Subject", [lib.prefixSubject(list.addr, Get(h, "Subject"))])
    && Has(sent, "Dkim-Signature", []) && exists id :: Has(sent, "Message-Id", [id])
  }

  /** All other fields of the message go with it, but no spam marks, and no others. */
  predicate KeepsField(h: HeaderMap, sent: HeaderMap, key: string) {
    if key in h && !MarksSpam(key) then Has(sent, key, h[key]) else key !in sent
  }

  /** `sent` is what the receivers get of a message with the header `h`. */
  ghost predicate IsSentAs(lib: Library, list: List, h: HeaderMap, sent: HeaderMap) {
    && IsFromList(lib, list, h, sent) && HasListFields(lib, list, h, sent) && Has(sent, "Sender", [])
    && forall key | !IsSetByList(key) :: KeepsField(h, sent, key)
  }

  /** The field names differ. */
  lemma NamesDiffer()
    ensures var names := ["List-Id", "List-Post", "List-Unsubscribe", "Message-Id", "Subject", "Dkim-Signature", "From",
                          "Reply-To", "Sender"];
            forall i, j | 0 <= i < j < 9 :: names[i] != names[j]
  {
    assert "List-Id"[0] == "List-Post"[0] == "List-Unsubscribe"[0] == 'L';
    assert "List-Id"[5] == 'I' && "List-Post"[5] == 'P' && "List-Unsubscribe"[5] == 'U';
    assert "Message-Id"[0] == 'M' && "Dkim-Signature"[0] == 'D' && "From"[0] == 'F' && "Reply-To"[0] == 'R';
    assert "Subject"[0] == "Sender"[0] == 'S' && "Subject"[1] == 'u' && "Sender"[1] == 'e';
  }

  lemma ListFieldsAre(lib: Library, list: List, h: HeaderMap, id: string)
    ensures var m := ListFields(lib, list, h, id);
            && Has(m, "List-Id", [lib.nameAddr(list.addr)])
            && Has(m, "List-Post", [lib.mailto(list.addr.Spec(), "")])
            && Has(m, "List-Unsubscribe", [lib.mailto(list.addr.Spec(), "subject=leave")])
            && Has(m, "Message-Id", [id])
            && Has(m, "Subject", [lib.prefixSubject(list.addr, Get(h, "Subject"))])
            && Has(m, "Dkim-Signature", [])
            && "From" !in m && "Reply-To" !in m && "Sender" !in m && forall key <- m :: IsSetByList(key)
  {
    hide Get;
    NamesDiffer();
    var names := ["List-Id", "List-Post", "List-Unsubscribe", "Message-Id", "Subject", "Dkim-Signature", "From",
                  "Reply-To", "Sender"];
    assert names[0] != names[1] && names[0] != names[2] && names[1] != names[2];
  }

  lemma {:induction false} BeforeAtIs(s: string) returns (i: nat)
    ensures i <= |s| && BeforeAt(s) == s[..i] && '@' !in s[..i] && (i < |s| ==> s[i] == '@')
  {
    if s == "" || s[0] == '@' {
      i := 0;
    } else {
      i := BeforeAtIs(s[1..]);
      i := i + 1;
      assert s[..i] == [s[0]] + s[1..][..i - 1];
    }
  }

  lemma MungedIsVia(from: Addr, list: List)
    ensures IsVia(from, list, Munged(from, list))
  {
    hide BeforeAt;
    var i := BeforeAtIs(ShownName(from));
    var j := BeforeAtIs(ShownName(list.addr));
    assert Munged(from, list).display == ShownName(from)[..i] + " via " + ShownName(list.addr)[..j];
  }

  lemma FromFieldsAre(lib: Library, list: List, froms: seq<Addr>)
    ensures var m := FromFields(lib, list, froms);
            && (if list.hideFrom then HidesSender(lib, list, m) else ShowsSenders(lib, list, froms, m))
            && m.Keys == {"From", "Reply-To"}
  {
    hide Join, Munged, IsVia;
    NamesDiffer();
    assert "From"[0] == 'F' && "Reply-To"[0] == 'R';
    if !list.hideFrom {
      var names := seq(|froms|, i requires 0 <= i < |froms| => Munged(froms[i], list));
      forall i | 0 <= i < |froms|
        ensures IsVia(froms[i], list, names[i])
      {
        MungedIsVia(froms[i], list);
      }
      assert AsText(lib, names) == MungedFroms(lib, list, froms);
      assert AsText(lib, froms) == NameAddrs(lib, froms);
      assert Has(FromFields(lib, list, froms), "From", [Join(AsText(lib, names), ",")]);
    }
  }

  lemma SpamKeysAre(key: string)
    ensures IsSpamKey(key) <==> MarksSpam(key)
  {
    hide Canonical;
    var keys := Decides.SPAM_KEYS;
    assert keys[0] == "X-Spam" && keys[1] == "X-Spam-Flag" && keys[2] == "X-Spam-Status" && |keys| == 3;
    var c := Canonical(key);
    assert c == keys[0] || c == keys[1] || c == keys[2] <==> c in keys;
  }

  lemma ForwardHeaderIs(lib: Library, list: List, h: HeaderMap, froms: seq<Addr>, id: string)
    requires list.hideFrom || AreIn(lib, h, "From", froms)
    ensures IsSentAs(lib, list, h, ForwardHeader(lib, list, h, froms, id))
  {
    hide Get, MarksSpam, ListFields, FromFields, HidesSender, ShowsSenders, AreIn, WithoutSpam, HasListFields,
         IsSetByList, KeepsField;
    var f := ForwardHeader(lib, list, h, froms, id);
    AfterFrom(lib, list, froms, WithoutSpam(h) + ListFields(lib, list, h, id));
    ListFieldsStay(lib, list, h, froms, id);
    forall key | !IsSetByList(key)
      ensures KeepsField(h, f, key)
    {
      OtherFieldsStay(lib, list, h, froms, id, key);
    }
  }

  lemma ListFieldsStay(lib: Library, list: List, h: HeaderMap, froms: seq<Addr>, id: string)
    ensures HasListFields(lib, list, h, ForwardHeader(lib, list, h, froms, id))
  {
    hide Get, ListFields, FromFields, HidesSender, ShowsSenders, WithoutSpam, IsSetByList;
    ListFieldsAre(lib, list, h, id);
    FromFieldsAre(lib, list, froms);
    var m, f := ListFields(lib, list, h, id), ForwardHeader(lib, list, h, froms, id);
    forall key | key in m
      ensures Has(f, key, m[key])
    {
    }
    assert Has(f, "Message-Id", [id]);
  }

  lemma OtherFieldsStay(lib: Library, list: List, h: HeaderMap, froms: seq<Addr>, id: string, key: string)
    requires !IsSetByList(key)
    ensures KeepsField(h, ForwardHeader(lib, list, h, froms, id), key)
  {
    hide Get, ListFields, FromFields, HidesSender, ShowsSenders, IsSpamKey, MarksSpam;
    ListFieldsAre(lib, list, h, id);
    FromFieldsAre(lib, list, froms);
    SpamKeysAre(key);
  }

  /** Sender is cleared behind From and Reply-To. */
  lemma AfterFrom(lib: Library, list: List, froms: seq<Addr>, m: HeaderMap)
    ensures var f := m + FromFields(lib, list, froms) + map["Sender" := []];
            if list.hideFrom then HidesSender(lib, list, f) else ShowsSenders(lib, list, froms, f)
  {
    hide FromFields, Join, IsVia;
    FromFieldsAre(lib, list, froms);
    assert "From"[0] == 'F' && "Reply-To"[0] == 'R' && "Sender"[0] == 'S';
    var from, f := FromFields(lib, list, froms), m + FromFields(lib, list, froms) + map["Sender" := []];
    assert f["From"] == from["From"] && f["Reply-To"] == from["Reply-To"];
    if !list.hideFrom {
      var names: seq<Addr> :| |names| == |froms| && (forall i | 0 <= i < |froms| :: IsVia(froms[i], list, names[i]))
        && Has(from, "From", [Join(AsText(lib, names), ",")]);
      assert Has(f, "From", [Join(AsText(lib, names), ",")]);
    }
  }

  /** What the footer may change is not among these fields. */
  lemma FooterKeeps(lib: Library, list: List, h: HeaderMap, f: HeaderMap, sent: HeaderMap)
    requires IsSentAs(lib, list, h, f) && SameButContent(sent, f)
    ensures IsSentAs(lib, list, h, sent)
  {
    hide IsSetByList, KeepsField, IsFromList, HasListFields, SameButContent;
    FooterKeepsFrom(lib, list, h, f, sent);
    FooterKeepsList(lib, list, h, f, sent);
    NotContent();
    SameField(f, sent, "Sender");
    forall key | !IsSetByList(key)
      ensures KeepsField(h, sent, key)
    {
      SameField(f, sent, key);
      assert KeepsField(h, f, key);
      SameFieldKept(h, f, sent, key);
    }
  }

  lemma SameFieldKept(h: HeaderMap, f: HeaderMap, sent: HeaderMap, key: string)
    requires KeepsField(h, f, key) && (key in sent <==> key in f) && (key in f ==> sent[key] == f[key])
    ensures KeepsField(h, sent, key)
  {
  }

  lemma FooterKeepsFrom(lib: Library, list: List, h: HeaderMap, f: HeaderMap, sent: HeaderMap)
    requires IsFromList(lib, list, h, f) && SameButContent(sent, f)
    ensures IsFromList(lib, list, h, sent)
  {
    hide AreIn, ShowsSenders, SameButContent, IsSetByList;
    NotContent();
    SameField(f, sent, "From");
    SameField(f, sent, "Reply-To");
    if !list.hideFrom {
      var froms :| AreIn(lib, h, "From", froms) && ShowsSenders(lib, list, froms, f);
      StillShows(lib, list, froms, f, sent);
    }
  }

  lemma StillShows(lib: Library, list: List, froms: seq<Addr>, f: HeaderMap, sent: HeaderMap)
    requires ShowsSenders(lib, list, froms, f)
    requires "From" in f ==> "From" in sent && sent["From"] == f["From"]
    requires "Reply-To" in f ==> "Reply-To" in sent && sent["Reply-To"] == f["Reply-To"]
    ensures ShowsSenders(lib, list, froms, sent)
  {
    hide IsVia, Join, AsText;
    var names: seq<Addr> :| |names| == |froms| && (forall i | 0 <= i < |froms| :: IsVia(froms[i], list, names[i]))
      && Has(f, "From", [Join(AsText(lib, names), ",")]);
    assert Has(sent, "From", [Join(AsText(lib, names), ",")]);
  }

  lemma FooterKeepsList(lib: Library, list: List, h: HeaderMap, f: HeaderMap, sent: HeaderMap)
    requires HasListFields(lib, list, h, f) && SameButContent(sent, f)
    ensures HasListFields(lib, list, h, sent)
  {
    hide Get, SameButContent, IsSetByList;
    NotContent();
    SameField(f, sent, "List-Id");
    SameField(f, sent, "List-Post");
    SameField(f, sent, "List-Unsubscribe");
    SameField(f, sent, "Subject");
    SameField(f, sent, "Dkim-Signature");
    SameField(f, sent, "Message-Id");
    var id :| Has(f, "Message-Id", [id]);
    assert Has(sent, "Message-Id", [id]);
  }

  lemma SameField(f: HeaderMap, sent: HeaderMap, key: string)
    requires SameButContent(sent, f) && key !in CONTENT_KEYS
    ensures key in sent <==> key in f
    ensures key in f ==> sent[key] == f[key]
  {
    assert key in f <==> key in f - CONTENT_KEYS;
    assert key in sent <==> key in sent - CONTENT_KEYS;
    assert key in f ==> (f - CONTENT_KEYS)[key] == f[key];
    assert key in sent ==> (sent - CONTENT_KEYS)[key] == sent[key];
  }

  lemma NotContent()
    ensures "From" !in CONTENT_KEYS && "Reply-To" !in CONTENT_KEYS && "Sender" !in CONTENT_KEYS
    ensures "List-Id" !in CONTENT_KEYS && "List-Post" !in CONTENT_KEYS && "List-Unsubscribe" !in CONTENT_KEYS
    ensures "Subject" !in CONTENT_KEYS && "Dkim-Signature" !in CONTENT_KEYS && "Message-Id" !in CONTENT_KEYS
    ensures forall key | !IsSetByList(key) :: key !in CONTENT_KEYS
  {
    assert "Content-Type"[0] == "Content-Disposition"[0] == "Content-Transfer-Encoding"[0] == 'C';
    assert "List-Id"[0] == "List-Post"[0] == "List-Unsubscribe"[0] == 'L' && "Subject"[0] == "Sender"[0] == 'S';
    assert "Message-Id"[0] == 'M' && "Dkim-Signature"[0] == 'D' && "From"[0] == 'F' && "Reply-To"[0] == 'R';
  }

  /** Main result on forwarding: whoever receives mail of the list, and nobody else, gets the message, once, with the
      fields of the list and of the message, and with nothing of the sender but what the list shows. */
  lemma ForwardedAs(lib: Library, t: Database, web: bool, list: List, h: HeaderMap, body: string, e: Event)
    requires IsForward(lib, t, web, list, h, body, e)
    ensures e.Sent? && e.from == Some(BounceOf(list.addr.Spec())) && (!web ==> e.body == body)
    ensures forall a :: a in e.to <==> (list.id, a) in t.members && t.members[(list.id, a)].receive
    ensures forall i, j | 0 <= i < j < |e.to| :: e.to[i] != e.to[j]
    ensures IsSentAs(lib, list, h, e.header)
  {
    hide ForwardHeader, IsSentAs, BounceOf, SameButContent;
    EachOnce(e.to, MembersWith(t, list, (f: Flags) => f.receive));
    var froms, id :| (list.hideFrom || AddressesOf(lib, h, "From") == Some(froms))
        && SameButContent(e.header, ForwardHeader(lib, list, h, froms, id));
    ForwardHeaderIs(lib, list, h, froms, id);
    FooterKeeps(lib, list, h, ForwardHeader(lib, list, h, froms, id), e.header);
  }

  /** In print: no Sender, no Dkim-Signature and no spam mark; From and Reply-To are those of the list, and without
      Reply-To if senders are hidden. */
  lemma ForwardedInPrint(lib: Library, list: List, h: HeaderMap, sent: HeaderMap, f: Field)
    requires IsSentAs(lib, list, h, sent) && CanonicalKeys(sent) && f in PrintedFields(sent)
    ensures f.name != "Sender" && f.name != "Dkim-Signature" && !MarksSpam(f.name)
    ensures f.name == "From" ==> sent["From"] == [f.value]
    ensures f.name == "From" && list.hideFrom ==> f.value == lib.nameAddr(list.addr)
    ensures f.name == "Reply-To" ==> !list.hideFrom && sent["Reply-To"] == [f.value]
  {
    hide PrintedFields, CanonicalKeys, Canonical, HasListFields, IsVia, Join, AsText, AreIn, IsPublic;
    var o := OriginOf(sent, f);
    if o.key == "Mime-Version" {
      MimeVersion();
      assert "MIME-Version"[0] == 'M' && "Sender"[0] == 'S' && "From"[0] == 'F' && "Dkim-Signature"[0] == 'D'
             && "Reply-To"[0] == 'R';
    } else {
      assert f.name == o.key;
      KeyInPrint(lib, list, h, sent, o.key);
    }
  }

  lemma KeyInPrint(lib: Library, list: List, h: HeaderMap, sent: HeaderMap, key: string)
    requires IsSentAs(lib, list, h, sent) && IsCanonical(key) && key in sent && sent[key] != []
    ensures key != "Sender" && key != "Dkim-Signature" && !MarksSpam(key)
    ensures key == "From" || key == "Reply-To" ==>
            |sent[key]| == 1 && (list.hideFrom ==> key == "From" && sent[key] == [lib.nameAddr(list.addr)])
  {
    hide IsCanonical, Canonical, ShowsSenders, AreIn, IsSetByList, MarksSpam;
    if IsSetByList(key) {
      NoSpamKey(key);
    } else {
      assert KeepsField(h, sent, key);
    }
    assert "From"[0] == 'F' && "Reply-To"[0] == 'R';
    if !list.hideFrom {
      OneFieldEach(lib, list, h, sent);
    }
  }

  lemma OneFieldEach(lib: Library, list: List, h: HeaderMap, sent: HeaderMap)
    requires IsFromList(lib, list, h, sent) && !list.hideFrom
    ensures "From" in sent && |sent["From"]| == 1 && "Reply-To" in sent && |sent["Reply-To"]| == 1
  {
    hide AreIn, IsVia, Join, AsText;
  }

  /** The fields that the list sets are no spam marks. */
  lemma NoSpamKey(key: string)
    requires IsCanonical(key) && IsSetByList(key)
    ensures !MarksSpam(key)
  {
    hide Canonical;
    assert key[0] != 'X';
    assert "X-Spam"[0] == "X-Spam-Flag"[0] == "X-Spam-Status"[0] == 'X';
  }
}
