/** Message headers and how they are printed: mailutil/header.go. */
module Headers {
  import opened Fold
  import opened Output
  import opened Reader
  import opened Sorting
  import opened Text

  /** Go's `mail.Header`: field names in canonical notation, each with its values in order. */
  type HeaderMap = map<string, seq<string>>

  /** A header as the program passes it around: by reference. */
  class Header {
    var fields: HeaderMap

    constructor (fields: HeaderMap)
      ensures this.fields == fields
    {
      this.fields := fields;
    }
  }

  /** The first value of a field, or the empty string. */
  function Get(h: HeaderMap, key: string): string {
    if key in h && h[key] != [] then h[key][0] else ""
  }

  /** RFC 5322, section 3.6.3: addresses in one field are separated by commas. */
  function AddressList(addrs: seq<string>): string {
    Join(addrs, ", ")
  }

  /** Fields that may occur only once, so that several values are joined (RFC 5322, section 3.6). */
  const ONCE_ONLY := ["Reply-To", "To", "Cc", "Bcc"]

  function JoinedValues(key: string, values: seq<string>): seq<string> {
    if key in ONCE_ONLY && |values| > 1 then [AddressList(values)] else values
  }

  /** The header after `WriteHeader` has joined address lists in it. */
  function Joined(h: HeaderMap): HeaderMap {
    map key | key in h :: JoinedValues(key, h[key])
  }

  /** Values that are not printed, to protect the privacy of the sender. */
  predicate Withheld(key: string, value: string) {
    || key == "User-Agent" || key == "X-Originating-IP"
    || (key == "Received" && (Contains(value, "with ESMTPA") || Contains(value, "with ESMTPSA")
                              || Contains(value, "with LMTPA") || Contains(value, "with LMTPSA")))
  }

  function PrintedName(key: string): string {
    if key == "Mime-Version" then "MIME-Version" else key
  }

  /** The printed fields of one key. */
  function FieldsOf(key: string, values: seq<string>): seq<Field> {
    if values == [] then []
    else
      (if Withheld(key, values[0]) then [] else [Field(Trim(PrintedName(key)), values[0])])
      + FieldsOf(key, values[1..])
  }

  function FieldsOfKey(h: HeaderMap, key: string): seq<Field> {
    FieldsOf(key, if key in h then JoinedValues(key, h[key]) else [])
  }

  function FieldsOfKeys(h: HeaderMap, keys: seq<string>): seq<Field> {
    if keys == [] then [] else FieldsOfKey(h, keys[0]) + FieldsOfKeys(h, keys[1..])
  }

  /** Received fields first, then the others by name. */
  ghost function KeyOrder(h: HeaderMap): seq<string> {
    ["Received"] + Sort(LexLeq, Listing(h.Keys - {"Received"}))
  }

  /** What is printed of a header, in order. */
  ghost function PrintedFields(h: HeaderMap): seq<Field> {
    FieldsOfKeys(h, KeyOrder(h))
  }

  /** `h` may be on the way from `h0` to `Joined(h0)`. */
  ghost predicate PartlyJoined(h0: HeaderMap, h: HeaderMap) {
    h.Keys == h0.Keys && forall key | key in h :: h[key] == h0[key] || h[key] == JoinedValues(key, h0[key])
  }

  lemma TextStep(out: string, text: string, rest: string, goal: string, now: string)
    requires out + (text + rest) == goal && now <= out + text
    ensures now <= goal
    ensures now == out + text ==> now + rest == goal
  {
    assert out + text + rest == goal;
  }

  /** `HeaderWritelnFold` as a step towards a goal: it prints the first of the fields that are left. */
  method WriteField(w: Writer, name: string, value: string, ghost left: seq<Field>, ghost goal: string)
    returns (err: FoldError)
    requires left != [] && left[0] == Field(Trim(name), value)
    requires w.Towards(HeaderText(left), goal)
    modifies w
    ensures err == NoError ==> |Trim(name)| <= NAME_LIMIT && w.Towards(HeaderText(left[1..]), goal)
    ensures err == NameTooLong ==> |Trim(name)| > NAME_LIMIT && w.Towards("", goal)
    ensures err == WriteFailed ==> w.failed && w.out <= goal
    ensures err != CouldNotCrop && (old(w.failed) ==> w.failed && w.out == old(w.out))
  {
    hide FieldText, Trim;
    ghost var out, fine := w.out, !w.failed;
    err := HeaderWritelnFold(w, name, value);
    if fine && err != NameTooLong {
      TextStep(out, FieldText(Trim(name), value), HeaderText(left[1..]), goal, w.out);
    }
  }

  lemma FieldsOfStep(key: string, values: seq<string>, j: nat, later: seq<Field>)
    requires j < |values|
    ensures var fs, rest := FieldsOf(key, values[j..]) + later, FieldsOf(key, values[j + 1..]) + later;
            if Withheld(key, values[j]) then fs == rest
            else fs != [] && fs[0] == Field(Trim(PrintedName(key)), values[j]) && fs[1..] == rest
  {
    hide Withheld, Trim;
    assert values[j..][1..] == values[j + 1..];
  }

  lemma NoMoreFields(key: string, values: seq<string>, later: seq<Field>)
    ensures FieldsOf(key, values[|values|..]) + later == later
  {
  }

  /** Prints the values of one key; the fields `later` follow. */
  method WriteValues(w: Writer, key: string, values: seq<string>, ghost later: seq<Field>, ghost goal: string)
    returns (err: FoldError)
    requires w.Towards(HeaderText(FieldsOf(key, values) + later), goal)
    modifies w
    ensures err == NoError ==> w.Towards(HeaderText(later), goal)
    ensures err == NoError ==> |Trim(PrintedName(key))| <= NAME_LIMIT || FieldsOf(key, values) == []
    ensures err == NameTooLong ==>
            |Trim(PrintedName(key))| > NAME_LIMIT && FieldsOf(key, values) != [] && w.Towards("", goal)
    ensures err == WriteFailed ==> w.failed && w.out <= goal
    ensures err != CouldNotCrop && (old(w.failed) ==> w.failed && w.out == old(w.out))
  {
    hide HeaderText, Contains, Trim, FieldsOf;
    var k := key;
    assert values[0..] == values;
    for j := 0 to |values|
      invariant k == key || k == PrintedName(key)
      invariant w.Towards(HeaderText(FieldsOf(key, values[j..]) + later), goal)
      invariant FieldsOf(key, values[j..]) == FieldsOf(key, values) || |Trim(PrintedName(key))| <= NAME_LIMIT
      invariant old(w.failed) ==> w.failed && w.out == old(w.out)
    {
      var v := values[j];
      ghost var left := FieldsOf(key, values[j..]) + later;
      FieldsOfStep(key, values, j, later);
      FieldsOfStep(key, values, j, []);
      if k == "User-Agent" || k == "X-Originating-IP" {
        continue;
      }
      if k == "Received" {
        if Contains(v, "with ESMTPA") || Contains(v, "with ESMTPSA") || Contains(v, "with LMTPA")
            || Contains(v, "with LMTPSA") {
          continue;
        }
      } else if k == "Mime-Version" {
        k := "MIME-Version";
      }
      err := WriteField(w, k, v, left, goal);
      if err != NoError {
        return;
      }
    }
    NoMoreFields(key, values, later);
    NoMoreFields(key, values, []);
    err := NoError;
  }

  predicate NamesFit(fields: seq<Field>) {
    forall i | 0 <= i < |fields| :: |fields[i].name| <= NAME_LIMIT
  }

  lemma SameName(key: string, values: seq<string>)
    ensures forall f <- FieldsOf(key, values) :: f.name == Trim(PrintedName(key))
  {
  }

  lemma NamesOf(key: string, values: seq<string>)
    requires |Trim(PrintedName(key))| <= NAME_LIMIT || FieldsOf(key, values) == []
    ensures NamesFit(FieldsOf(key, values))
  {
    hide Trim, Withheld, PrintedName, FieldsOf;
    SameName(key, values);
  }

  lemma JoinOnce(key: string, values: seq<string>)
    ensures JoinedValues(key, JoinedValues(key, values)) == JoinedValues(key, values)
  {
  }

  lemma FieldsOfKeysStep(h: HeaderMap, keys: seq<string>, i: nat)
    requires i < |keys|
    ensures FieldsOfKeys(h, keys[i..]) == FieldsOfKey(h, keys[i]) + FieldsOfKeys(h, keys[i + 1..])
  {
    assert keys[i..][1..] == keys[i + 1..];
  }

  lemma NamesFitConcat(a: seq<Field>, b: seq<Field>)
    ensures NamesFit(a + b) <==> NamesFit(a) && NamesFit(b)
  {
    if NamesFit(a + b) {
      forall i | 0 <= i < |a|
        ensures |a[i].name| <= NAME_LIMIT
      {
        assert (a + b)[i] == a[i];
      }
      forall i | 0 <= i < |b|
        ensures |b[i].name| <= NAME_LIMIT
      {
        assert (a + b)[|a| + i] == b[i];
      }
    }
  }

  /** The keys of a header without Received, in the order that Go happens to iterate over the map. */
  method Keys(h: HeaderMap) returns (keys: seq<string>)
    ensures multiset(keys) == multiset(h.Keys - {"Received"})
  {
    keys := [];
    var left := h.Keys;
    while left != {}
      invariant multiset(keys) + multiset(left - {"Received"}) == multiset(h.Keys - {"Received"})
      decreases |left|
    {
      var k :| k in left;
      ghost var before := left - {"Received"};
      left := left - {k};
      if k == "Received" {
        assert left - {"Received"} == before;
        continue;
      }
      assert before == {k} + (left - {"Received"});
      keys := keys + [k];
    }
  }

  /** `h` has the joined values of the keys in `done`. */
  ghost predicate JoinedOn(h0: HeaderMap, h: HeaderMap, done: set<string>) {
    PartlyJoined(h0, h) && forall key | key in done && key in h :: h[key] == JoinedValues(key, h0[key])
  }

  /** One iteration of `WriteHeader`: joins the values of one key if need be, and prints them. */
  method WriteKey(w: Writer, header: Header, k: string, ghost h0: HeaderMap, ghost done: set<string>,
                  ghost later: seq<Field>, ghost goal: string)
    returns (err: FoldError)
    requires JoinedOn(h0, header.fields, done)
    requires w.Towards(HeaderText(FieldsOfKey(h0, k) + later), goal)
    modifies w, header
    ensures JoinedOn(h0, header.fields, done + {k})
    ensures err == NoError ==> w.Towards(HeaderText(later), goal)
    ensures err == NoError ==> NamesFit(FieldsOfKey(h0, k))
    ensures err == NameTooLong ==> !NamesFit(FieldsOfKey(h0, k)) && w.Towards("", goal)
    ensures err == WriteFailed ==> w.failed && w.out <= goal
    ensures err != CouldNotCrop && (old(w.failed) ==> w.failed && w.out == old(w.out))
  {
    hide HeaderText, FieldsOf, FieldsOfKey, JoinedValues, Trim, PrintedName, NamesFit, AddressList;
    JoinKey(h0, header.fields, k);
    if k == "Reply-To" || k == "To" || k == "Cc" || k == "Bcc" {
      if k in header.fields && |header.fields[k]| > 1 {
        header.fields := header.fields[k := [AddressList(header.fields[k])]];
      }
    }
    var values := if k in header.fields then header.fields[k] else [];
    assert values == if k in h0 then JoinedValues(k, h0[k]) else [];
    err := WriteValues(w, k, values, later, goal);
    if err == NoError {
      NamesOf(k, values);
    } else if err == NameTooLong {
      TooLongName(k, values);
    }
  }

  method WriteHeader(w: Writer, header: Header) returns (err: FoldError)
    modifies w, header
    ensures var fs := PrintedFields(old(header.fields));
            && w.out <= old(w.out) + HeaderText(fs)
            && (!w.failed ==>
               w.out == old(w.out) + HeaderText(fs) && err == if NamesFit(fs) then NoError else NameTooLong)
    ensures w.failed ==> err != NoError
    ensures err != CouldNotCrop && (old(w.failed) ==> w.failed && w.out == old(w.out))
    ensures PartlyJoined(old(header.fields), header.fields)
    ensures err == NoError ==> header.fields == Joined(old(header.fields))
  {
    hide HeaderText, FieldsOf, FieldsOfKey, FieldsOfKeys, JoinedValues, Trim, PrintedName, NamesFit, TotalOrder, Sort,
         LexLeq, Joined, PartlyJoined;
    ghost var h0 := header.fields;
    ghost var goal := w.out + HeaderText(PrintedFields(h0));
    var keys := Keys(header.fields);
    LexOrder();
    SortPermutation(LexLeq, keys, Listing(h0.Keys - {"Received"}));
    keys := ["Received"] + Sort(LexLeq, keys);
    assert KeyOrder(h0) == keys;
    err := WriteKeys(w, header, keys, h0, goal);
    if err != NoError {
      return;
    }
    AllJoined(h0, header.fields);
    var _, ok := w.Put(CRLF, "", goal);
    err := if ok then NoError else WriteFailed;
  }

  /** The loop of `WriteHeader` over the keys. */
  method WriteKeys(w: Writer, header: Header, keys: seq<string>, ghost h0: HeaderMap, ghost goal: string)
    returns (err: FoldError)
    requires header.fields == h0 && w.Towards(HeaderText(FieldsOfKeys(h0, keys)), goal)
    modifies w, header
    ensures PartlyJoined(h0, header.fields)
    ensures err == NoError ==>
            JoinedOn(h0, header.fields, set k <- keys) && NamesFit(FieldsOfKeys(h0, keys)) && w.Towards(CRLF + "", goal)
    ensures err == NameTooLong ==> !NamesFit(FieldsOfKeys(h0, keys)) && w.Towards("", goal)
    ensures err == WriteFailed ==> w.failed && w.out <= goal
    ensures err != CouldNotCrop && (old(w.failed) ==> w.failed && w.out == old(w.out))
  {
    hide HeaderText, FieldsOfKey, FieldsOfKeys, JoinedValues, NamesFit;
    assert keys[0..] == keys;
    ghost var done := {};
    for i := 0 to |keys|
      invariant JoinedOn(h0, header.fields, done) && forall key <- keys :: key in done || key in keys[i..]
      invariant w.Towards(HeaderText(FieldsOfKeys(h0, keys[i..])), goal)
      invariant NamesFit(FieldsOfKeys(h0, keys)) <==> NamesFit(FieldsOfKeys(h0, keys[i..]))
      invariant old(w.failed) ==> w.failed && w.out == old(w.out)
    {
      FieldsOfKeysStep(h0, keys, i);
      ghost var later := FieldsOfKeys(h0, keys[i + 1..]);
      NamesFitConcat(FieldsOfKey(h0, keys[i]), later);
      err := WriteKey(w, header, keys[i], h0, done, later, goal);
      if err != NoError {
        return;
      }
      done := done + {keys[i]};
      assert keys[i..] == [keys[i]] + keys[i + 1..];
    }
    NothingToPrint(h0, keys);
    err := NoError;
  }

  lemma TooLongName(key: string, values: seq<string>)
    requires |Trim(PrintedName(key))| > NAME_LIMIT && FieldsOf(key, values) != []
    ensures !NamesFit(FieldsOf(key, values))
  {
    hide Trim, Withheld, PrintedName, FieldsOf;
    SameName(key, values);
    assert FieldsOf(key, values)[0] in FieldsOf(key, values);
  }

  lemma NothingToPrint(h: HeaderMap, keys: seq<string>)
    ensures HeaderText(FieldsOfKeys(h, keys[|keys|..])) == CRLF + "" && NamesFit(FieldsOfKeys(h, keys[|keys|..]))
  {
  }

  lemma JoinKey(h0: HeaderMap, h: HeaderMap, k: string)
    requires PartlyJoined(h0, h)
    ensures k in h ==> JoinedValues(k, h[k]) == JoinedValues(k, h0[k])
    ensures FieldsOfKey(h0, k) == FieldsOf(k, if k in h then JoinedValues(k, h[k]) else [])
    ensures k in h && !(k in ONCE_ONLY && |h[k]| > 1) ==> JoinedValues(k, h[k]) == h[k]
    ensures k in h && k in ONCE_ONLY && |h[k]| > 1 ==> JoinedValues(k, h[k]) == [AddressList(h[k])]
  {
    if k in h {
      JoinOnce(k, h0[k]);
    }
  }

  lemma AllJoined(h0: HeaderMap, h: HeaderMap)
    requires JoinedOn(h0, h, set k <- KeyOrder(h0))
    ensures h == Joined(h0)
  {
    hide KeyOrder, JoinedValues;
    AllKeys(h0);
  }

  lemma AllKeys(h: HeaderMap)
    ensures forall k | k in h :: k in KeyOrder(h)
  {
    var listed := Listing(h.Keys - {"Received"});
    SortSame(LexLeq, listed);
    forall k | k in h && k != "Received"
      ensures k in Sort(LexLeq, listed)
    {
      assert k in multiset(listed);
    }
  }
}
