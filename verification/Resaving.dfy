/** Saving a message, reading it back and saving it again changes nothing. */
module Resaving {
  import opened Fold
  import opened FoldExact
  import opened FoldLossless
  import opened FoldOptimal
  import opened Headers
  import opened Messages
  import opened Reader
  import opened Refolding
  import opened Sorting
  import opened Splitting
  import opened Text

  /** Keys of printed fields are in canonical notation, as the reader of messages makes them. */
  ghost predicate CanonicalKeys(h: HeaderMap) {
    forall key | key in h && FieldsOfKey(h, key) != [] :: IsCanonical(key)
  }

  lemma {:induction false} ValuesOfConcat(a: seq<Field>, b: seq<Field>, key: string)
    ensures ValuesOf(a + b, key) == ValuesOf(a, key) + ValuesOf(b, key)
  {
    hide Canonical;
    if a == [] {
      assert a + b == b;
    } else {
      assert (a + b)[1..] == a[1..] + b;
      ValuesOfConcat(a[1..], b, key);
    }
  }

  function Vals(fields: seq<Field>): seq<string> {
    if fields == [] then [] else [fields[0].value] + Vals(fields[1..])
  }

  /** Every field changed by `g`. */
  function Each(g: Field -> Field, fields: seq<Field>): (r: seq<Field>)
    ensures |r| == |fields|
  {
    if fields == [] then [] else [g(fields[0])] + Each(g, fields[1..])
  }

  /** Reading changes values, but not names. */
  ghost predicate KeepsNames(g: Field -> Field) {
    forall f :: g(f).name == f.name
  }

  lemma {:induction false} EachConcat(g: Field -> Field, a: seq<Field>, b: seq<Field>)
    ensures Each(g, a + b) == Each(g, a) + Each(g, b)
  {
    if a == [] {
      assert a + b == b;
    } else {
      assert (a + b)[1..] == a[1..] + b;
      EachConcat(g, a[1..], b);
    }
  }

  lemma {:induction false} EachSameName(g: Field -> Field, fields: seq<Field>, name: string)
    requires KeepsNames(g) && forall f <- fields :: f.name == name
    ensures forall f <- Each(g, fields) :: f.name == name
  {
    if fields != [] {
      assert fields[0] in fields && forall f <- fields[1..] :: f in fields;
      EachSameName(g, fields[1..], name);
    }
  }

  /** What is printed of fields that were read, if their values are not withheld now. */
  function Kept(fields: seq<Field>): (r: seq<Field>)
    ensures |r| <= |fields|
  {
    if fields == [] then []
    else (if Withheld(Canonical(fields[0].name), fields[0].value) then [] else [fields[0]]) + Kept(fields[1..])
  }

  lemma {:induction false} KeptConcat(a: seq<Field>, b: seq<Field>)
    ensures Kept(a + b) == Kept(a) + Kept(b)
  {
    hide Canonical, Withheld;
    if a == [] {
      assert a + b == b;
    } else {
      assert (a + b)[1..] == a[1..] + b;
      KeptConcat(a[1..], b);
    }
  }

  lemma {:induction false} KeptAll(fields: seq<Field>)
    ensures Kept(fields) == fields <==> forall f <- fields :: !Withheld(Canonical(f.name), f.value)
  {
    hide Canonical, Withheld;
    if fields != [] {
      KeptAll(fields[1..]);
      assert fields == [fields[0]] + fields[1..];
    }
  }

  /** Fields that all read back as `own`. */
  lemma {:induction false} ValuesOfOwn(fields: seq<Field>, own: string, key: string)
    requires forall f <- fields :: Canonical(f.name) == own
    ensures ValuesOf(fields, key) == if key == own then Vals(fields) else []
  {
    hide Canonical;
    if fields != [] {
      assert fields[0] in fields && forall f <- fields[1..] :: f in fields;
      ValuesOfOwn(fields[1..], own, key);
    }
  }

  /** The name under which a key is printed reads back as the key. */
  lemma PrintedNameReadsBack(key: string)
    requires IsCanonical(key)
    ensures Canonical(Trim(PrintedName(key))) == key
  {
    hide Canonical;
    if key == "Mime-Version" {
      TrimTrimmed("MIME-Version");
      MimeVersion();
    } else {
      assert IsTokenChar(key[0]) && IsTokenChar(key[|key| - 1]);
      TrimTrimmed(key);
    }
  }

  lemma MimeVersion()
    ensures Canonical("MIME-Version") == "Mime-Version"
  {
    var s := "MIME-Version";
    assert s[0] == 'M' && s[1] == 'I' && s[2] == 'M' && s[3] == 'E' && s[4] == '-' && s[5] == 'V';
    assert s[6] == 'e' && s[7] == 'r' && s[8] == 's' && s[9] == 'i' && s[10] == 'o' && s[11] == 'n';
    assert IsToken(s);
    assert Lower('I') == 'i' && Lower('M') == 'm' && Lower('E') == 'e';
    assert forall i | 0 <= i < 12 :: Canonical(s)[i] == "Mime-Version"[i];
  }

  /** The fields of a key all have its name, and reading them gives the key back. */
  lemma NamesOfKey(h: HeaderMap, own: string, g: Field -> Field)
    requires CanonicalKeys(h) && KeepsNames(g)
    ensures var fs := Each(g, FieldsOfKey(h, own));
            forall f <- fs :: f.name == Trim(PrintedName(own)) && Canonical(f.name) == own
  {
    hide Canonical, IsCanonical, Trim, PrintedName, FieldsOf, JoinedValues;
    if FieldsOfKey(h, own) != [] {
      NoFields(own);
      SameName(own, JoinedValues(own, h[own]));
      EachSameName(g, FieldsOfKey(h, own), Trim(PrintedName(own)));
      PrintedNameReadsBack(own);
    }
  }

  lemma ValuesOfKey(h: HeaderMap, own: string, g: Field -> Field, key: string)
    requires CanonicalKeys(h) && KeepsNames(g)
    ensures var fs := Each(g, FieldsOfKey(h, own));
            ValuesOf(fs, key) == if key == own then Vals(fs) else []
  {
    hide Canonical, Trim, PrintedName, FieldsOf, JoinedValues, ValuesOf, Vals, Each, CanonicalKeys;
    NamesOfKey(h, own, g);
    ValuesOfOwn(Each(g, FieldsOfKey(h, own)), own, key);
  }

  lemma NoValues(key: string)
    ensures ValuesOf([], key) == [] && Vals([]) == []
  {
  }

  lemma NoFields(key: string)
    ensures FieldsOf(key, []) == []
  {
  }

  /** Reading the printed fields gives each key its own values. */
  lemma {:induction false} ValuesOfKeys(h: HeaderMap, keys: seq<string>, g: Field -> Field, key: string)
    requires CanonicalKeys(h) && Distinct(keys) && KeepsNames(g)
    ensures ValuesOf(Each(g, FieldsOfKeys(h, keys)), key) ==
            if key in keys then Vals(Each(g, FieldsOfKey(h, key))) else []
  {
    hide ValuesOf, Vals, FieldsOfKey, CanonicalKeys, KeepsNames, Each, Distinct;
    if keys == [] {
      NoValues(key);
      EachNothing(g);
    } else {
      DistinctTail(keys);
      ValuesOfKeys(h, keys[1..], g, key);
      ValuesOfKey(h, keys[0], g, key);
      EachConcat(g, FieldsOfKey(h, keys[0]), FieldsOfKeys(h, keys[1..]));
      ValuesOfConcat(Each(g, FieldsOfKey(h, keys[0])), Each(g, FieldsOfKeys(h, keys[1..])), key);
      assert keys == [keys[0]] + keys[1..];
    }
  }

  lemma EachNothing(g: Field -> Field)
    ensures Each(g, []) == []
  {
  }

  lemma DistinctTail(keys: seq<string>)
    requires keys != [] && Distinct(keys)
    ensures keys[0] !in keys[1..] && Distinct(keys[1..])
  {
    assert forall j | 0 <= j < |keys| - 1 :: keys[1..][j] == keys[j + 1] != keys[0];
  }

  /** Printing the values of fields that all belong to one key prints those that are not withheld. */
  lemma {:induction false} FieldsAgain(key: string, fields: seq<Field>)
    requires forall f <- fields :: f.name == Trim(PrintedName(key)) && Canonical(f.name) == key
    ensures FieldsOf(key, Vals(fields)) == Kept(fields)
  {
    hide Withheld, PrintedName, Trim, Canonical;
    if fields != [] {
      assert fields[0] in fields && forall f <- fields[1..] :: f in fields;
      FieldsAgain(key, fields[1..]);
      assert Vals(fields)[1..] == Vals(fields[1..]);
    }
  }

  lemma {:induction false} ValsLength(fields: seq<Field>)
    ensures |Vals(fields)| == |fields|
  {
    if fields != [] {
      ValsLength(fields[1..]);
    }
  }

  lemma {:induction false} FieldsLength(key: string, values: seq<string>)
    ensures |FieldsOf(key, values)| <= |values|
  {
    hide Withheld, PrintedName, Trim;
    if values != [] {
      FieldsLength(key, values[1..]);
    }
  }

  /** Printing the values that were read back prints the same fields, unless they are withheld now. */
  lemma FieldsOfReadBack(h: HeaderMap, g: Field -> Field, key: string)
    requires CanonicalKeys(h) && KeepsNames(g)
    ensures var fs := Each(g, FieldsOfKey(h, key));
            FieldsOf(key, JoinedValues(key, Vals(fs))) == Kept(fs)
  {
    hide FieldsOf, AddressList, Vals, Each, Kept, CanonicalKeys, KeepsNames, Canonical, Trim, PrintedName;
    var fs := Each(g, FieldsOfKey(h, key));
    NamesOfKey(h, key, g);
    FieldsAgain(key, fs);
    ValsLength(fs);
    FieldsLength(key, if key in h then JoinedValues(key, h[key]) else []);
  }

  lemma {:induction false} ValuesOfNames(fields: seq<Field>, key: string)
    ensures ValuesOf(fields, key) != [] <==> exists i | 0 <= i < |fields| :: Canonical(fields[i].name) == key
  {
    hide Canonical;
    if fields != [] {
      ValuesOfNames(fields[1..], key);
      if i :| 0 <= i < |fields| && Canonical(fields[i].name) == key {
        if i > 0 {
          assert fields[1..][i - 1] == fields[i];
        }
      }
      if j :| 0 <= j < |fields| - 1 && Canonical(fields[1..][j].name) == key {
        assert fields[j + 1] == fields[1..][j];
      }
    }
  }

  lemma GroupedIs(fields: seq<Field>, key: string)
    ensures key in Grouped(fields) <==> ValuesOf(fields, key) != []
    ensures key in Grouped(fields) ==> Grouped(fields)[key] == ValuesOf(fields, key)
  {
    hide Canonical, ValuesOf;
    ValuesOfNames(fields, key);
  }

  lemma KeyOrderDistinct(h: HeaderMap)
    ensures Distinct(KeyOrder(h)) && forall key :: key in KeyOrder(h) <==> key == "Received" || key in h
  {
    hide Sort, Listing, LexLeq;
    var listed := Listing(h.Keys - {"Received"});
    var ks := Sort(LexLeq, listed);
    SortSame(LexLeq, listed);
    EachOnce(ks, h.Keys - {"Received"});
  }

  /** Reading back and printing again gives every key the same fields, unless they are withheld now. */
  lemma ReadBackKey(h: HeaderMap, g: Field -> Field, key: string)
    requires CanonicalKeys(h) && KeepsNames(g)
    ensures var h1 := Grouped(Each(g, PrintedFields(h)));
            && FieldsOfKey(h1, key) == Kept(Each(g, FieldsOfKey(h, key)))
            && (key in h1 <==> FieldsOfKey(h, key) != [])
            && (key in h1 ==> h1[key] == Vals(Each(g, FieldsOfKey(h, key))))
  {
    hide ValuesOf, Vals, FieldsOf, JoinedValues, Grouped, CanonicalKeys, KeyOrder, FieldsOfKeys, Distinct, KeepsNames,
         Each, Kept;
    var fs, own := Each(g, PrintedFields(h)), Each(g, FieldsOfKey(h, key));
    KeyOrderDistinct(h);
    ValuesOfKeys(h, KeyOrder(h), g, key);
    GroupedIs(fs, key);
    NoFields(key);
    ValsLength(own);
    FieldsOfReadBack(h, g, key);
    if own == [] {
      NothingKept();
    }
  }

  lemma NothingKept()
    ensures Kept([]) == []
  {
  }

  /** The keys that print something. */
  ghost function Printing(h: HeaderMap, keys: seq<string>): seq<string> {
    if keys == [] then [] else (if FieldsOfKey(h, keys[0]) == [] then [] else [keys[0]]) + Printing(h, keys[1..])
  }

  lemma {:induction false} PrintingSame(h: HeaderMap, keys: seq<string>)
    ensures FieldsOfKeys(h, Printing(h, keys)) == FieldsOfKeys(h, keys)
    ensures forall key ::
            multiset(Printing(h, keys))[key] == if FieldsOfKey(h, key) == [] then 0 else multiset(keys)[key]
  {
    hide FieldsOfKey;
    if keys != [] {
      PrintingSame(h, keys[1..]);
      assert keys == [keys[0]] + keys[1..];
      var p := Printing(h, keys[1..]);
      if FieldsOfKey(h, keys[0]) == [] {
        assert Printing(h, keys) == [] + p == p;
        assert FieldsOfKeys(h, keys) == [] + FieldsOfKeys(h, keys[1..]) == FieldsOfKeys(h, keys[1..]);
      } else {
        assert ([keys[0]] + p)[1..] == p;
      }
    }
  }

  lemma {:induction false} PrintingSorted(h: HeaderMap, keys: seq<string>)
    requires Sorted(LexLeq, keys)
    ensures Sorted(LexLeq, Printing(h, keys)) && forall key <- Printing(h, keys) :: key in keys
  {
    hide FieldsOfKey, LexLeq;
    if keys != [] {
      PrintingSorted(h, keys[1..]);
      forall key | key in Printing(h, keys[1..])
        ensures LexLeq(keys[0], key) && key in keys
      {
        var i :| 0 <= i < |keys| - 1 && keys[1..][i] == key;
        assert keys[i + 1] == key;
      }
      SortedCons(LexLeq, keys[0], Printing(h, keys[1..]));
    }
  }

  lemma {:induction false} SameFieldsOfKeys(h: HeaderMap, h1: HeaderMap, keys: seq<string>)
    requires forall key <- keys :: FieldsOfKey(h1, key) == FieldsOfKey(h, key)
    ensures FieldsOfKeys(h1, keys) == FieldsOfKeys(h, keys)
  {
    hide FieldsOfKey;
    if keys != [] {
      SameFieldsOfKeys(h, h1, keys[1..]);
    }
  }

  /** Without the silent keys the order stays the same. */
  lemma KeyOrderReadBack(h: HeaderMap, h1: HeaderMap)
    requires forall key :: key in h1 <==> FieldsOfKey(h, key) != []
    ensures Sort(LexLeq, Listing(h1.Keys - {"Received"})) == Printing(h, Sort(LexLeq, Listing(h.Keys - {"Received"})))
  {
    hide FieldsOf, JoinedValues, Sort, LexLeq, TotalOrder, Sorted;
    var l, l1 := Listing(h.Keys - {"Received"}), Listing(h1.Keys - {"Received"});
    var ks, ks1 := Sort(LexLeq, l), Sort(LexLeq, l1);
    LexOrder();
    SortIsSorted(LexLeq, l);
    SortIsSorted(LexLeq, l1);
    SortSame(LexLeq, l);
    SortSame(LexLeq, l1);
    PrintingSorted(h, ks);
    PrintingSame(h, ks);
    forall key
      ensures multiset(ks1)[key] == multiset(Printing(h, ks))[key]
    {
      NoFields(key);
    }
    SortedUnique(LexLeq, ks1, Printing(h, ks));
  }

  /** Printing what was read back prints the same fields in the same order, without those that are withheld now. */
  lemma PrintedFieldsAgain(h: HeaderMap, g: Field -> Field)
    requires CanonicalKeys(h) && KeepsNames(g)
    ensures PrintedFields(Grouped(Each(g, PrintedFields(h)))) == Kept(Each(g, PrintedFields(h)))
  {
    hide FieldsOfKey, Grouped, CanonicalKeys, Sort, Listing, KeepsNames, Each, Kept;
    var h1 := Grouped(Each(g, PrintedFields(h)));
    forall key
      ensures FieldsOfKey(h1, key) == Kept(Each(g, FieldsOfKey(h, key))) && (key in h1 <==> FieldsOfKey(h, key) != [])
    {
      ReadBackKey(h, g, key);
    }
    KeyOrderReadBack(h, h1);
    var ks := Sort(LexLeq, Listing(h.Keys - {"Received"}));
    FieldsOfKeysAgain(h, h1, g, KeyOrder(h1));
    PrintingSame(h, ks);
    FieldsOfReceivedFirst(h, ks);
    FieldsOfReceivedFirst(h, Printing(h, ks));
  }

  lemma {:induction false} FieldsOfKeysAgain(h: HeaderMap, h1: HeaderMap, g: Field -> Field, keys: seq<string>)
    requires forall key <- keys :: FieldsOfKey(h1, key) == Kept(Each(g, FieldsOfKey(h, key)))
    ensures FieldsOfKeys(h1, keys) == Kept(Each(g, FieldsOfKeys(h, keys)))
  {
    hide FieldsOfKey, Withheld, Canonical;
    if keys != [] {
      FieldsOfKeysAgain(h, h1, g, keys[1..]);
      EachConcat(g, FieldsOfKey(h, keys[0]), FieldsOfKeys(h, keys[1..]));
      KeptConcat(Each(g, FieldsOfKey(h, keys[0])), Each(g, FieldsOfKeys(h, keys[1..])));
    }
  }

  lemma {:induction false} EachItself(fields: seq<Field>)
    ensures Each(f => f, fields) == fields
  {
    if fields != [] {
      EachItself(fields[1..]);
    }
  }

  lemma {:induction false} EachReread(fields: seq<Field>)
    ensures Each(f => Reread(f), fields) == RereadAll(fields)
  {
    hide Reread;
    if fields != [] {
      EachReread(fields[1..]);
    }
  }

  /** Nothing that is printed is withheld. */
  lemma {:induction false} PrintedAreKept(h: HeaderMap, keys: seq<string>)
    requires CanonicalKeys(h)
    ensures forall f <- FieldsOfKeys(h, keys) :: !Withheld(Canonical(f.name), f.value)
  {
    hide FieldsOfKey, CanonicalKeys, Withheld, Canonical;
    if keys != [] {
      PrintedAreKept(h, keys[1..]);
      KeyIsKept(h, keys[0]);
    }
  }

  lemma KeyIsKept(h: HeaderMap, key: string)
    requires CanonicalKeys(h)
    ensures forall f <- FieldsOfKey(h, key) :: !Withheld(Canonical(f.name), f.value)
  {
    hide CanonicalKeys, Withheld, Canonical, FieldsOf, JoinedValues, Trim, PrintedName;
    NamesOfKey(h, key, f => f);
    EachItself(FieldsOfKey(h, key));
    FieldsAreKept(key, if key in h then JoinedValues(key, h[key]) else []);
  }

  lemma {:induction false} FieldsAreKept(key: string, values: seq<string>)
    ensures forall f <- FieldsOf(key, values) :: !Withheld(key, f.value)
  {
    hide Withheld, Trim;
    if values != [] {
      FieldsAreKept(key, values[1..]);
    }
  }

  /** Printing the printed fields again, grouped by key, gives the same fields in the same order. */
  lemma PrintedFieldsReadBack(h: HeaderMap)
    requires CanonicalKeys(h)
    ensures PrintedFields(Grouped(PrintedFields(h))) == PrintedFields(h)
  {
    hide CanonicalKeys, Grouped, Each, Kept, Withheld, Canonical, FieldsOfKeys, KeyOrder;
    PrintedFieldsAgain(h, f => f);
    EachItself(PrintedFields(h));
    PrintedAreKept(h, KeyOrder(h));
    KeptAll(PrintedFields(h));
  }

  lemma FieldsOfReceivedFirst(h: HeaderMap, ks: seq<string>)
    ensures FieldsOfKeys(h, ["Received"] + ks) == FieldsOfKey(h, "Received") + FieldsOfKeys(h, ks)
  {
    hide FieldsOfKey;
    assert (["Received"] + ks)[1..] == ks;
  }

  lemma LegibleNamesFit(fields: seq<Field>)
    requires AllLegible(fields)
    ensures NamesFit(fields)
  {
    hide Trim, OneLine;
  }

  /** A saved message reads back as the kept fields, each with its value as folded and unfolded, and the body. */
  lemma SavedReadsAs(h: HeaderMap, body: string)
    requires AllLegible(PrintedFields(h))
    ensures SavedText(h, body) == HeaderText(PrintedFields(h)) + body
    ensures ParseHeader(SavedText(h, body)) == Success((RereadAll(PrintedFields(h)), body))
    ensures ReadMessage(SavedText(h, body)) == Success((Grouped(RereadAll(PrintedFields(h))), body))
  {
    hide PrintedFields, ParseHeader, HeaderText, Grouped, AllLegible, RereadAll;
    LegibleNamesFit(PrintedFields(h));
    HeaderReadsAs(PrintedFields(h), body);
  }

  /** Main result: a saved message reads back as the kept fields and the body. */
  lemma SavedReadsBack(h: HeaderMap, body: string)
    requires AllPrintable(PrintedFields(h))
    ensures ParseHeader(SavedText(h, body)) == Success((PrintedFields(h), body))
    ensures ReadMessage(SavedText(h, body)) == Success((Grouped(PrintedFields(h)), body))
  {
    hide PrintedFields, ParseHeader, HeaderText, Grouped, AllPrintable, AllLegible, RereadAll, SavedText, ReadMessage;
    AllPrintableReread(PrintedFields(h));
    SavedReadsAs(h, body);
  }

  /** No printed value turns into one that is withheld when it is read back. */
  ghost predicate StaysKept(h: HeaderMap) {
    forall f <- RereadAll(PrintedFields(h)) :: !Withheld(Canonical(f.name), f.value)
  }

  /** Main result: saving, reading and saving again gives the same bytes exactly if no printed value is read back as one
      that is withheld, and no printed line has room for the first word of the next line. */
  lemma SavingIsFixed(h: HeaderMap, body: string)
    requires AllLegible(PrintedFields(h)) && CanonicalKeys(h)
    ensures var text := SavedText(h, body);
            && ReadMessage(text).Success? && ReadMessage(text).value.1 == body
            && PrintedFields(ReadMessage(text).value.0) == Kept(RereadAll(PrintedFields(h)))
            && (SavedText(ReadMessage(text).value.0, body) == text <==> StaysKept(h) && AllSettled(PrintedFields(h)))
  {
    hide PrintedFields, AllLegible, AllSettled, CanonicalKeys, Grouped, HeaderText, RereadAll, Each, Kept, Withheld,
         Canonical, Fragments, ParseHeader;
    var fs := PrintedFields(h);
    var read := RereadAll(fs);
    SavedReadsAs(h, body);
    EachReread(fs);
    PrintedFieldsAgain(h, f => Reread(f));
    KeptAll(read);
    AllPrintSameAgain(fs);
    KeptLegible(read);
    LegibleNamesFit(Kept(read));
    HeaderReadsAs(Kept(read), body);
    if HeaderText(Kept(read)) + body == HeaderText(fs) + body {
      assert |Kept(read)| == |RereadAll(fs)|;
      SameTexts(HeaderText(read), HeaderText(fs), body);
    }
  }

  lemma SameTexts(a: string, b: string, body: string)
    ensures a + body == b + body ==> a == b
  {
    if a + body == b + body {
      assert |a| == |b|;
      assert a == (a + body)[..|a|] && b == (b + body)[..|b|];
    }
  }

  lemma {:induction false} KeptLegible(fields: seq<Field>)
    requires AllLegible(fields)
    ensures AllLegible(Kept(fields)) && (|Kept(fields)| == |fields| ==> Kept(fields) == fields)
  {
    hide Withheld, Canonical, Legible;
    if fields != [] {
      KeptLegible(fields[1..]);
      assert fields == [fields[0]] + fields[1..];
    }
  }

  /** Although saving joins addresses in the header, a second save prints the same. */
  lemma JoiningIsInvisible(h: HeaderMap)
    ensures Joined(Joined(h)) == Joined(h)
    ensures PrintedFields(Joined(h)) == PrintedFields(h)
  {
    hide FieldsOf, Sort, Listing, AddressList;
    forall key | key in h
      ensures JoinedValues(key, JoinedValues(key, h[key])) == JoinedValues(key, h[key])
    {
      JoinOnce(key, h[key]);
    }
    assert Joined(h).Keys == h.Keys;
    SameFieldsOfKeys(h, Joined(h), KeyOrder(h));
  }

  lemma PartlyJoinedTwice(a: HeaderMap, b: HeaderMap, c: HeaderMap)
    requires PartlyJoined(a, b) && PartlyJoined(b, c)
    ensures PartlyJoined(a, c)
  {
    hide AddressList;
    forall key | key in a
      ensures JoinedValues(key, JoinedValues(key, a[key])) == JoinedValues(key, a[key])
    {
      JoinOnce(key, a[key]);
    }
  }

  /** A header that was joined in part prints the same. */
  lemma SavedTextAfterJoining(h: HeaderMap, h': HeaderMap, body: string)
    requires PartlyJoined(h, h')
    ensures SavedText(h', body) == SavedText(h, body)
  {
    hide FieldsOf, Sort, Listing, AddressList, HeaderText, JoinedValues;
    forall key | key in h
      ensures JoinedValues(key, h'[key]) == JoinedValues(key, h[key])
    {
      JoinOnce(key, h[key]);
    }
    SameFieldsOfKeys(h, h', KeyOrder(h));
  }

  lemma PrintableAreSettled(h: HeaderMap)
    requires AllPrintable(PrintedFields(h)) && CanonicalKeys(h)
    ensures AllLegible(PrintedFields(h)) && AllSettled(PrintedFields(h)) && StaysKept(h)
  {
    hide PrintedFields, CanonicalKeys, Withheld, Canonical, Clean, Reread, Settled;
    AllPrintableReread(PrintedFields(h));
    PrintedAreKept(h, KeyOrder(h));
    PrintedAre(h);
    forall f | f in PrintedFields(h)
      ensures Settled(f)
    {
      assert Printable(f);
      SettledFields(f);
    }
  }

  lemma PrintedAre(h: HeaderMap)
    ensures PrintedFields(h) == FieldsOfKeys(h, KeyOrder(h))
  {
  }

  /** A Received value with one long word that holds "withESMTPA" is printed, and is read back with a space in it: then
      it is withheld, because "with ESMTPA" tells of an authenticated sender. The second save differs. */
  lemma WithheldLater()
    ensures var h: HeaderMap := map["Received" := [LongReceived()]];
            AllLegible(PrintedFields(h)) && AllSettled(PrintedFields(h)) && CanonicalKeys(h) && !StaysKept(h)
  {
    hide Canonical, Withheld, PrintedFields, CanonicalKeys, Settled, Legible, Reread, LongReceived;
    var f := Field("Received", LongReceived());
    ReceivedIsCanonical();
    LongReceivedIsKept();
    LongReceivedReads();
    OnlyReceived(f.value);
    assert RereadAll([f]) == [Reread(f)] + RereadAll([]);
    assert Reread(f) in RereadAll([f]) && Reread(f).name == f.name by { RereadName(f); }
  }

  lemma RereadName(f: Field)
    ensures Reread(f).name == f.name
  {
  }

  lemma OnlyReceived(value: string)
    requires !Withheld("Received", value)
    ensures var h: HeaderMap := map["Received" := [value]];
            PrintedFields(h) == [Field("Received", value)] && CanonicalKeys(h)
  {
    hide Canonical, Withheld, Trim, Contains;
    var h: HeaderMap := map["Received" := [value]];
    ReceivedIsCanonical();
    TrimTrimmed("Received");
    assert h.Keys - {"Received"} == {};
    assert Listing(h.Keys - {"Received"}) == [];
    assert KeyOrder(h) == ["Received"] && "Received"[0] == 'R' && "Mime-Version"[0] == 'M';
    assert FieldsOf("Received", [value]) == [Field("Received", value)] + FieldsOf("Received", []);
    assert FieldsOfKeys(h, ["Received"]) == FieldsOfKey(h, "Received") + FieldsOfKeys(h, []);
  }

  function LongReceived(): string {
    seq(984, _ => 'a') + "withESMTPA"
  }

  lemma ReceivedIsCanonical()
    ensures IsCanonical("Received")
  {
    var s := "Received";
    assert s[0] == 'R' && s[1] == 'e' && s[2] == 'c' && s[3] == 'e' && s[4] == 'i' && s[5] == 'v' && s[6] == 'e'
           && s[7] == 'd';
    assert forall i | 0 <= i < 8 :: Canonical(s)[i] == s[i];
  }

  lemma LongReceivedIsKept()
    ensures !Withheld("Received", LongReceived())
    ensures Legible(Field("Received", LongReceived())) && Settled(Field("Received", LongReceived()))
  {
    hide Trim, Fragments;
    var v := LongReceived();
    VisibleOnly();
    NotContained(v, "with ESMTPA", 4);
    NotContained(v, "with ESMTPSA", 4);
    NotContained(v, "with LMTPA", 4);
    NotContained(v, "with LMTPSA", 4);
    var s := "Received";
    assert s[0] == 'R' && s[1] == 'e' && s[2] == 'c' && s[3] == 'e' && s[4] == 'i' && s[5] == 'v' && s[6] == 'e'
           && s[7] == 'd';
    TrimTrimmed(v);
    SettledFields(Field("Received", v));
  }

  lemma VisibleOnly()
    ensures |LongReceived()| == 994 && forall i | 0 <= i < 994 :: !IsSpace(LongReceived()[i])
  {
    var t := "withESMTPA";
    assert t[0] == 'w' && t[1] == 'i' && t[2] == 't' && t[3] == 'h' && t[4] == 'E' && t[5] == 'S' && t[6] == 'M'
           && t[7] == 'T' && t[8] == 'P'
           && t[9] == 'A';
    assert forall i | 984 <= i < 994 :: LongReceived()[i] == t[i - 984];
  }

  lemma NotContained(s: string, p: string, k: nat)
    requires k < |p| && IsSpace(p[k]) && forall i | 0 <= i < |s| :: !IsSpace(s[i])
    ensures !Contains(s, p)
  {
    forall i | 0 <= i <= |s|
      ensures !(p <= s[i..])
    {
      if |p| <= |s| - i {
        assert s[i..][k] == s[i + k];
      }
    }
  }

  lemma LongReceivedReads()
    ensures Withheld("Received", Reread(Field("Received", LongReceived())).value)
  {
    hide Trim, Fragments;
    var v := LongReceived();
    VisibleOnly();
    NextLine(v, 10);
    assert Crop(v, 10) == 988;
    var fs := Fragments(v, 10);
    TrimTrimmed(v[..988]);
    NextLine(v[988..], 0);
    assert Crop(v[988..], 1) == 6;
    assert v[..988] == seq(984, _ => 'a') + "with" && v[988..] == "ESMTPA";
    var u := Unfolded(fs);
    assert fs == [v[..988], v[988..]];
    assert fs[1..] == [v[988..]] && Join(fs[1..], " ") == v[988..];
    assert u == v[..988] + " " + v[988..];
    assert u[984..] == "with ESMTPA";
    assert Contains(u, "with ESMTPA");
  }

  /** A Subject with three spaces where a line ends: when it is read back, two of the spaces are gone, and the word
      behind them fits on the line before. The second save differs. */
  lemma SpacesMoveWords()
    ensures var h: HeaderMap := map["Subject" := [SpacedSubject()]];
            AllLegible(PrintedFields(h)) && CanonicalKeys(h) && StaysKept(h) && !AllSettled(PrintedFields(h))
  {
    hide Canonical, Withheld, PrintedFields, CanonicalKeys, Settled, Legible, Reread, SpacedSubject;
    var f := Field("Subject", SpacedSubject());
    SubjectIsCanonical();
    SpacedSubjectIsNotSettled();
    OnlySubject(f.value);
    assert RereadAll([f]) == [Reread(f)] + RereadAll([]);
    RereadName(f);
    SubjectIsKept(Reread(f).value);
  }

  function SpacedSubject(): string {
    seq(67, _ => 'a') + "   x " + seq(60, _ => 'b')
  }

  lemma SubjectIsCanonical()
    ensures IsCanonical("Subject")
  {
    var s := "Subject";
    assert s[0] == 'S' && s[1] == 'u' && s[2] == 'b' && s[3] == 'j' && s[4] == 'e' && s[5] == 'c' && s[6] == 't';
    assert forall i | 0 <= i < 7 :: Canonical(s)[i] == s[i];
  }

  lemma SubjectIsKept(value: string)
    ensures !Withheld("Subject", value)
  {
    assert "Subject"[0] == 'S' && "User-Agent"[0] == 'U' && "X-Originating-IP"[0] == 'X' && "Received"[0] == 'R';
  }

  lemma SubjectOrder(h: HeaderMap)
    requires h.Keys == {"Subject"}
    ensures KeyOrder(h) == ["Received", "Subject"]
  {
    assert "Subject"[0] == 'S' && "Received"[0] == 'R';
    assert h.Keys - {"Received"} == {"Subject"};
    var listed := Listing(h.Keys - {"Received"});
    assert |multiset(listed)| == 1 && listed[0] in multiset(listed);
    assert listed == ["Subject"];
    assert Sort(LexLeq, listed) == ["Subject"];
  }

  lemma OnlySubject(value: string)
    ensures var h: HeaderMap := map["Subject" := [value]];
            PrintedFields(h) == [Field("Subject", value)] && CanonicalKeys(h)
  {
    hide Canonical, Withheld, Trim, KeyOrder, IsCanonical;
    var h: HeaderMap := map["Subject" := [value]];
    SubjectIsCanonical();
    SubjectIsKept(value);
    TrimTrimmed("Subject");
    SubjectOrder(h);
    assert "Subject"[0] == 'S' && "Received"[0] == 'R' && "Mime-Version"[0] == 'M';
    assert FieldsOf("Subject", [value]) == [Field("Subject", value)] + FieldsOf("Subject", []);
    NoFields("Received");
    assert FieldsOfKeys(h, ["Subject"]) == FieldsOfKey(h, "Subject") + FieldsOfKeys(h, []);
    FieldsOfReceivedFirst(h, ["Subject"]);
  }

  lemma SpacedSubjectIsNotSettled()
    ensures Legible(Field("Subject", SpacedSubject())) && !Settled(Field("Subject", SpacedSubject()))
  {
    hide Trim, Fragments;
    var v := SpacedSubject();
    var head, tail := seq(67, _ => 'a'), "x " + seq(60, _ => 'b');
    assert v[0] == 'a' && v[131] == 'b' && v[67] == v[68] == v[69] == ' ' && v[70] == 'x' && v[71] == ' ';
    TrimTrimmed(v);
    NextLine(v, 9);
    assert Crop(v, 9) == 69;
    assert v[..69][0..67] == head;
    TrimIs(v[..69], 0, 67);
    assert v[69..][1..] == tail && |v[69..]| == 63;
    assert v[69..][1..63] == tail;
    TrimIs(v[69..], 1, 63);
    TrimTrimmed(tail);
    SameFragments(v[69..], tail, 0);
    NextLine(tail, 0);
    assert Crop(tail, 1) == |tail|;
    assert Fragments(v, 9) == [head, tail];
    assert SkipWord(tail, 1) == 1 && SkipWord(tail, 0) == 1;
  }
}
