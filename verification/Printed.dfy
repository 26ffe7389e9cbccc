/** What is printed of a header, and what is not: the fields of `WriteHeader` one by one. */
module Printed {
  import opened Headers
  import opened Messages
  import opened Reader
  import opened Resaving
  import opened Sorting
  import opened Text

  /** Which value of which key a printed field is. */
  datatype Origin = Origin(key: string, index: nat)

  /** The values of a field that may occur only once are joined to a list of addresses. */
  function OneOrMore(key: string, values: seq<string>): seq<string> {
    if (key == "Reply-To" || key == "To" || key == "Cc" || key == "Bcc") && |values| > 1 then [Join(values, ", ")]
    else values
  }

  /** Fields that tell about the computer of the sender: its mail program, its address, and the field that its mail
      server added when it took the message from an authenticated user. */
  predicate IsPrivate(key: string, value: string) {
    || key == "User-Agent"
    || key == "X-Originating-IP"
    || (key == "Received" && exists protocol <- ["ESMTPA", "ESMTPSA", "LMTPA", "LMTPSA"] ::
          Contains(value, "with " + protocol))
  }

  /** Received fields come first, the other keys follow in the order of their bytes, and the values of a key in their
      own order. */
  predicate ComesBefore(a: Origin, b: Origin) {
    if a.key == b.key then a.index < b.index
    else a.key == "Received" || (b.key != "Received" && LexLeq(a.key, b.key))
  }

  /** The field is the printed form of that value. */
  ghost predicate IsFrom(h: HeaderMap, f: Field, o: Origin) {
    && o.key in h && o.index < |OneOrMore(o.key, h[o.key])|
    && f.value == OneOrMore(o.key, h[o.key])[o.index]
    && f.name == Trim(if o.key == "Mime-Version" then "MIME-Version" else o.key)
  }

  lemma WithheldIsPrivate(key: string, value: string)
    ensures Withheld(key, value) <==> IsPrivate(key, value)
  {
    hide Contains;
    var protocols := ["ESMTPA", "ESMTPSA", "LMTPA", "LMTPSA"];
    assert "with " + protocols[0] == "with ESMTPA" && "with " + protocols[1] == "with ESMTPSA";
    assert "with " + protocols[2] == "with LMTPA" && "with " + protocols[3] == "with LMTPSA";
    if Contains(value, "with ESMTPA") {
      assert protocols[0] in protocols;
    } else if Contains(value, "with ESMTPSA") {
      assert protocols[1] in protocols;
    } else if Contains(value, "with LMTPA") {
      assert protocols[2] in protocols;
    } else if Contains(value, "with LMTPSA") {
      assert protocols[3] in protocols;
    }
  }

  /** The values that are printed of one key, from the value `j` on. */
  ghost function OriginsOf(key: string, values: seq<string>, j: nat): seq<Origin>
    requires j <= |values|
    decreases |values| - j
  {
    if j == |values| then []
    else (if IsPrivate(key, values[j]) then [] else [Origin(key, j)]) + OriginsOf(key, values, j + 1)
  }

  ghost function OriginsOfKey(h: HeaderMap, key: string): seq<Origin> {
    if key in h then OriginsOf(key, OneOrMore(key, h[key]), 0) else []
  }

  ghost function OriginsOfKeys(h: HeaderMap, keys: seq<string>): seq<Origin> {
    if keys == [] then [] else OriginsOfKey(h, keys[0]) + OriginsOfKeys(h, keys[1..])
  }

  ghost predicate AreFrom(h: HeaderMap, fs: seq<Field>, os: seq<Origin>) {
    |fs| == |os| && forall i | 0 <= i < |fs| :: IsFrom(h, fs[i], os[i])
  }

  predicate InOrder(os: seq<Origin>) {
    forall i, j | 0 <= i < j < |os| :: os[i] != os[j] && ComesBefore(os[i], os[j])
  }

  lemma AreFromConcat(h: HeaderMap, fs: seq<Field>, os: seq<Origin>, fs': seq<Field>, os': seq<Origin>)
    requires AreFrom(h, fs, os) && AreFrom(h, fs', os')
    ensures AreFrom(h, fs + fs', os + os')
  {
    hide IsFrom;
  }

  lemma InOrderConcat(os: seq<Origin>, os': seq<Origin>)
    requires InOrder(os) && InOrder(os')
    requires forall a <- os, b <- os' :: a != b && ComesBefore(a, b)
    ensures InOrder(os + os')
  {
    hide ComesBefore;
    var all := os + os';
    forall i, j | 0 <= i < j < |all|
      ensures all[i] != all[j] && ComesBefore(all[i], all[j])
    {
      if j < |os| {
        assert all[i] == os[i] && all[j] == os[j];
      } else if i < |os| {
        assert all[i] == os[i] && all[j] == os'[j - |os|];
        assert os[i] in os && os'[j - |os|] in os';
      } else {
        assert all[i] == os'[i - |os|] && all[j] == os'[j - |os|];
      }
    }
  }

  lemma FieldsOfNext(key: string, values: seq<string>, j: nat)
    requires j < |values|
    ensures FieldsOf(key, values[j..]) ==
            (if IsPrivate(key, values[j]) then [] else [Field(Trim(PrintedName(key)), values[j])])
            + FieldsOf(key, values[j + 1..])
  {
    hide IsPrivate, Withheld, Trim;
    WithheldIsPrivate(key, values[j]);
    assert values[j..][1..] == values[j + 1..];
  }

  lemma OneFrom(h: HeaderMap, key: string, j: nat)
    requires key in h && j < |OneOrMore(key, h[key])|
    ensures AreFrom(h, [Field(Trim(PrintedName(key)), OneOrMore(key, h[key])[j])], [Origin(key, j)])
    ensures InOrder([Origin(key, j)])
  {
    hide OneOrMore, Trim;
  }

  lemma {:induction false} OriginsHold(key: string, values: seq<string>, j: nat)
    requires j <= |values|
    ensures forall o :: o in OriginsOf(key, values, j) <==>
                        o.key == key && j <= o.index < |values| && !IsPrivate(key, values[o.index])
    decreases |values| - j
  {
    hide IsPrivate;
    if j < |values| {
      OriginsHold(key, values, j + 1);
    }
  }

  lemma {:induction false} OriginsAre(h: HeaderMap, key: string, j: nat)
    requires key in h && j <= |OneOrMore(key, h[key])|
    ensures var values := OneOrMore(key, h[key]);
            AreFrom(h, FieldsOf(key, values[j..]), OriginsOf(key, values, j)) && InOrder(OriginsOf(key, values, j))
    decreases |OneOrMore(key, h[key])| - j
  {
    hide OneOrMore, IsPrivate, Trim, Withheld, FieldsOf, AreFrom, InOrder;
    var values := OneOrMore(key, h[key]);
    if j == |values| {
      Nothing(h);
      NoFields(key);
      assert values[j..] == [];
    } else {
      OriginsAre(h, key, j + 1);
      FieldsOfNext(key, values, j);
      var fs, os := FieldsOf(key, values[j + 1..]), OriginsOf(key, values, j + 1);
      if IsPrivate(key, values[j]) {
        assert OriginsOf(key, values, j) == os && FieldsOf(key, values[j..]) == fs;
      } else {
        OneFrom(h, key, j);
        OriginsHold(key, values, j + 1);
        AreFromConcat(h, [Field(Trim(PrintedName(key)), values[j])], [Origin(key, j)], fs, os);
        InOrderConcat([Origin(key, j)], os);
      }
    }
  }

  lemma OriginsOfKeyAre(h: HeaderMap, key: string)
    ensures var os := OriginsOfKey(h, key);
            && AreFrom(h, FieldsOfKey(h, key), os) && InOrder(os)
            && forall o :: o in os <==> o.key == key && IsPublic(h, o)
  {
    hide IsPrivate, FieldsOf, AreFrom, InOrder;
    if key in h {
      var values := OneOrMore(key, h[key]);
      assert JoinedValues(key, h[key]) == values;
      assert values[0..] == values;
      OriginsAre(h, key, 0);
      OriginsHold(key, values, 0);
    } else {
      NoFields(key);
      Nothing(h);
    }
  }

  lemma Nothing(h: HeaderMap)
    ensures AreFrom(h, [], []) && InOrder([])
  {
  }

  /** There is such a value, and it is not private. */
  ghost predicate IsPublic(h: HeaderMap, o: Origin) {
    && o.key in h && o.index < |OneOrMore(o.key, h[o.key])|
    && !IsPrivate(o.key, OneOrMore(o.key, h[o.key])[o.index])
  }

  predicate KeysInOrder(keys: seq<string>) {
    forall i, j | 0 <= i < j < |keys| ::
      keys[i] != keys[j] && (keys[i] == "Received" || (keys[j] != "Received" && LexLeq(keys[i], keys[j])))
  }

  lemma {:induction false} OriginsOfKeysAre(h: HeaderMap, keys: seq<string>)
    requires KeysInOrder(keys)
    ensures var os := OriginsOfKeys(h, keys);
            && AreFrom(h, FieldsOfKeys(h, keys), os) && InOrder(os)
            && forall o :: o in os <==> o.key in keys && IsPublic(h, o)
  {
    hide IsPublic, FieldsOfKey, OriginsOfKey, AreFrom, InOrder, LexLeq;
    if keys == [] {
      Nothing(h);
    } else {
      assert forall i | 0 <= i < |keys| - 1 :: keys[1..][i] == keys[i + 1];
      OriginsOfKeyAre(h, keys[0]);
      OriginsOfKeysAre(h, keys[1..]);
      var os, os' := OriginsOfKey(h, keys[0]), OriginsOfKeys(h, keys[1..]);
      AreFromConcat(h, FieldsOfKey(h, keys[0]), os, FieldsOfKeys(h, keys[1..]), os');
      forall a, b | a in os && b in os'
        ensures a != b && ComesBefore(a, b)
      {
        var i :| 0 <= i < |keys| - 1 && keys[1..][i] == b.key;
        assert keys[i + 1] == b.key && a.key == keys[0];
      }
      InOrderConcat(os, os');
    }
  }

  lemma KeyOrderIsInOrder(h: HeaderMap)
    ensures KeysInOrder(KeyOrder(h)) && forall key :: key in KeyOrder(h) <==> key == "Received" || key in h
  {
    hide Sort, Listing, LexLeq, TotalOrder;
    KeyOrderDistinct(h);
    LexOrder();
    var listed := Listing(h.Keys - {"Received"});
    SortIsSorted(LexLeq, listed);
    var keys := KeyOrder(h);
    forall i, j | 0 <= i < j < |keys|
      ensures keys[i] != keys[j] && (keys[i] == "Received" || (keys[j] != "Received" && LexLeq(keys[i], keys[j])))
    {
      assert keys[0] == "Received" && keys[0] != keys[j];
      if i > 0 {
        assert keys[i] == Sort(LexLeq, listed)[i - 1] && keys[j] == Sort(LexLeq, listed)[j - 1];
      }
    }
  }

  /** Main result on what is printed: exactly the values that are not private, after addresses have been joined, each
      once and in order, under their own keys but for MIME-Version. */
  lemma ExactlyPublicValuesArePrinted(h: HeaderMap) returns (origins: seq<Origin>)
    ensures |origins| == |PrintedFields(h)|
    ensures forall i | 0 <= i < |origins| :: IsFrom(h, PrintedFields(h)[i], origins[i])
    ensures forall i, j | 0 <= i < j < |origins| :: origins[i] != origins[j] && ComesBefore(origins[i], origins[j])
    ensures forall o :: o in origins <==> IsPublic(h, o)
  {
    hide IsFrom, IsPublic, ComesBefore, FieldsOfKeys, KeyOrder;
    KeyOrderIsInOrder(h);
    OriginsOfKeysAre(h, KeyOrder(h));
    origins := OriginsOfKeys(h, KeyOrder(h));
    forall o
      ensures o in origins <==> IsPublic(h, o)
    {
      assert IsPublic(h, o) ==> o.key in h by {
        PublicKey(h, o);
      }
    }
  }

  lemma PublicKey(h: HeaderMap, o: Origin)
    ensures IsPublic(h, o) ==> o.key in h
  {
  }

  /** Of a header as it was read: no User-Agent is printed, and no Received field that names one of the protocols for
      authenticated users. */
  lemma NothingPrivateIsPrinted(h: HeaderMap, f: Field)
    requires CanonicalKeys(h) && f in PrintedFields(h)
    ensures f.name != "User-Agent" && f.name != "X-Originating-IP"
    ensures f.name == "Received" ==>
            && !Contains(f.value, "with ESMTPA") && !Contains(f.value, "with ESMTPSA")
            && !Contains(f.value, "with LMTPA") && !Contains(f.value, "with LMTPSA")
  {
    hide Contains, Trim, Canonical, IsCanonical, PrintedFields, CanonicalKeys, OneOrMore, IsPublic;
    var o := OriginOf(h, f);
    assert "MIME-Version"[0] == 'M' && "User-Agent"[0] == 'U' && "Received"[0] == 'R' && "X-Originating-IP"[0] == 'X';
    NotPrivate(h, o);
  }

  /** Where a field of a header in canonical notation comes from. */
  lemma OriginOf(h: HeaderMap, f: Field) returns (o: Origin)
    requires CanonicalKeys(h) && f in PrintedFields(h)
    ensures IsPublic(h, o) && IsCanonical(o.key) && o.key in h && o.index < |OneOrMore(o.key, h[o.key])|
    ensures f.value == OneOrMore(o.key, h[o.key])[o.index]
    ensures f.name == if o.key == "Mime-Version" then "MIME-Version" else o.key
  {
    hide Trim, Canonical, IsCanonical, PrintedFields, CanonicalKeys, OneOrMore, IsPublic;
    var origins := ExactlyPublicValuesArePrinted(h);
    var i :| 0 <= i < |origins| && PrintedFields(h)[i] == f;
    o := origins[i];
    assert o in origins;
    KeysStayAsTheyAre(h, o);
  }

  lemma NotPrivate(h: HeaderMap, o: Origin)
    requires IsPublic(h, o)
    ensures o.key != "User-Agent" && o.key != "X-Originating-IP"
    ensures o.key == "Received" ==>
            var value := OneOrMore(o.key, h[o.key])[o.index];
            && !Contains(value, "with ESMTPA") && !Contains(value, "with ESMTPSA")
            && !Contains(value, "with LMTPA") && !Contains(value, "with LMTPSA")
  {
    hide Contains;
    WithheldIsPrivate(o.key, OneOrMore(o.key, h[o.key])[o.index]);
  }

  lemma KeysStayAsTheyAre(h: HeaderMap, o: Origin)
    requires CanonicalKeys(h) && IsPublic(h, o)
    ensures IsCanonical(o.key) && Trim(o.key) == o.key && Trim("MIME-Version") == "MIME-Version"
  {
    hide IsPublic, Trim, Canonical, FieldsOfKey, OriginsOfKey, IsFrom, InOrder, ComesBefore, IsToken;
    OriginsOfKeyAre(h, o.key);
    assert o in OriginsOfKey(h, o.key);
    PublicKey(h, o);
    assert IsCanonical(o.key);
    CanonicalIsTrimmed(o.key);
    TrimTrimmed("MIME-Version");
  }

  lemma CanonicalIsTrimmed(key: string)
    requires IsCanonical(key)
    ensures Trim(key) == key
  {
    hide Trim, Canonical;
    assert IsTokenChar(key[0]) && IsTokenChar(key[|key| - 1]);
    TrimTrimmed(key);
  }

  /** Withholding X-Originating-IP has no effect on messages that were read: reading spells the key X-Originating-Ip,
      under which the field is printed. */
  lemma OriginatingAddressIsPrinted(fields: seq<Field>, i: nat)
    requires i < |fields| && fields[i].name == "X-Originating-IP"
    ensures Field("X-Originating-Ip", fields[i].value) in PrintedFields(Grouped(fields))
  {
    hide Canonical, ValuesOf, Trim, IsFrom, IsPublic, PrintedFields;
    var key, h := "X-Originating-Ip", Grouped(fields);
    SpelledInReading();
    var n := ValueAmong(fields, i, key);
    GroupedIs(fields, key);
    var o := Origin(key, n);
    PublicAddress(h, o);
    var origins := ExactlyPublicValuesArePrinted(h);
    assert o in origins;
    var j :| 0 <= j < |origins| && origins[j] == o;
    FieldOfAddress(h, PrintedFields(h)[j], o);
  }

  lemma PublicAddress(h: HeaderMap, o: Origin)
    requires o.key == "X-Originating-Ip" && o.key in h && o.index < |h[o.key]|
    ensures IsPublic(h, o)
  {
    assert o.key[15] == 'p' && "X-Originating-IP"[15] == 'P' && "User-Agent"[0] == 'U' && "Received"[0] == 'R';
    assert "To"[0] == 'T' && "Cc"[0] == 'C' && "Bcc"[0] == 'B' && "Reply-To"[0] == 'R';
  }

  lemma FieldOfAddress(h: HeaderMap, f: Field, o: Origin)
    requires IsFrom(h, f, o) && o.key == "X-Originating-Ip"
    ensures f == Field("X-Originating-Ip", h[o.key][o.index])
  {
    assert "Mime-Version"[0] == 'M' && "To"[0] == 'T' && "Cc"[0] == 'C' && "Bcc"[0] == 'B' && "Reply-To"[0] == 'R';
    TrimTrimmed("X-Originating-Ip");
  }

  lemma IsTokenIP()
    ensures IsToken("X-Originating-IP")
  {
    var s := "X-Originating-IP";
    assert s[0] == 'X' && s[1] == '-' && s[2] == 'O' && s[3] == 'r' && s[4] == 'i' && s[5] == 'g';
    assert s[6] == 'i' && s[7] == 'n' && s[8] == 'a' && s[9] == 't' && s[10] == 'i' && s[11] == 'n';
    assert s[12] == 'g' && s[13] == '-' && s[14] == 'I' && s[15] == 'P';
  }

  lemma SpelledInReading()
    ensures Canonical("X-Originating-IP") == "X-Originating-Ip"
  {
    IsTokenIP();
    hide IsToken;
    var s, t := "X-Originating-IP", "X-Originating-Ip";
    assert s[0] == 'X' && s[1] == '-' && s[2] == 'O' && s[3] == 'r' && s[4] == 'i' && s[5] == 'g';
    assert s[6] == 'i' && s[7] == 'n' && s[8] == 'a' && s[9] == 't' && s[10] == 'i' && s[11] == 'n';
    assert s[12] == 'g' && s[13] == '-' && s[14] == 'I' && s[15] == 'P';
    assert t[0] == 'X' && t[1] == '-' && t[2] == 'O' && t[3] == 'r' && t[4] == 'i' && t[5] == 'g';
    assert t[6] == 'i' && t[7] == 'n' && t[8] == 'a' && t[9] == 't' && t[10] == 'i' && t[11] == 'n';
    assert t[12] == 'g' && t[13] == '-' && t[14] == 'I' && t[15] == 'p';
    assert forall i | 0 <= i < 16 :: Canonical(s)[i] == t[i];
  }

  lemma {:induction false} ValueAmong(fields: seq<Field>, i: nat, key: string) returns (n: nat)
    requires i < |fields| && Canonical(fields[i].name) == key
    ensures n < |ValuesOf(fields, key)| && ValuesOf(fields, key)[n] == fields[i].value
  {
    hide Canonical;
    if i == 0 {
      n := 0;
    } else {
      n := ValueAmong(fields[1..], i - 1, key);
      n := n + if Canonical(fields[0].name) == key then 1 else 0;
    }
  }
}
