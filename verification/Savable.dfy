/** Which headers can be saved and read back, in terms of the values in them. */
module Savable {
  import opened Fold
  import opened FoldExact
  import opened FoldLossless
  import opened Headers
  import opened Messages
  import opened Reader
  import opened Resaving
  import opened Splitting
  import opened Text

  /** The words with a comma behind the last one. */
  function WithComma(words: seq<string>): seq<string> {
    if words == [] then [","] else words[..|words| - 1] + [words[|words| - 1] + ","]
  }

  /** The words of an address list: the last word of every value but the last gets a comma. */
  function ListWords(values: seq<string>): seq<string> {
    if values == [] then []
    else if |values| == 1 then Words(values[0])
    else WithComma(Words(values[0])) + ListWords(values[1..])
  }

  /** The words of the values of a key, joined if need be, keep within the hard limit. */
  predicate ValuesFit(key: string, values: seq<string>) {
    var first, later := LINE_LIMIT - 2 - |PrintedName(key)|, LINE_LIMIT - 1;
    if key in ONCE_ONLY && |values| > 1 then WordsFit(ListWords(values), first, later)
    else forall v <- values | !Withheld(key, v) :: WordsFit(Words(v), first, later)
  }

  predicate CleanValues(key: string, values: seq<string>) {
    forall v <- values | !Withheld(key, v) :: Clean(Field(PrintedName(key), v))
  }

  predicate CleanHeader(h: HeaderMap) {
    forall key | key in h :: CleanValues(key, h[key])
  }

  predicate HeaderFits(h: HeaderMap) {
    forall key | key in h :: ValuesFit(key, h[key])
  }

  /** A comma behind a text goes to its last word. */
  lemma {:induction false} CommaWords(v: string, p: nat)
    requires p <= |v| && v != "" && !IsWsp(v[|v| - 1])
    ensures WordsFrom(v + ",", p) == WithComma(WordsFrom(v, p))
    decreases |v| - p
  {
    hide WordsFrom, IsWsp;
    var t := v + ",";
    SkipComma(v, p);
    WordsStep(v, p);
    WordsStep(t, p);
    WordsStep(t, |t|);
    assert SkipWsp(t, |t|) == |t|;
    var i := SkipWsp(v, p);
    if i < |v| {
      var j := SkipWord(v, i);
      SkipComma(v, i);
      if j < |v| {
        LastWord(v, j);
        CommaWords(v, j);
        assert t[i..j] == v[i..j];
        CommaBehind(v[i..j], WordsFrom(v, j));
      } else {
        WordsStep(v, |v|);
        assert SkipWsp(v, |v|) == |v|;
        assert t[i..|t|] == v[i..j] + ",";
      }
    } else {
      SkippedWsp(v, p);
      assert t[|v|..|t|] == ",";
    }
  }

  lemma CommaBehind(word: string, words: seq<string>)
    requires words != []
    ensures WithComma([word] + words) == [word] + WithComma(words)
  {
  }

  lemma LastWord(v: string, p: nat)
    requires p < |v| && !IsWsp(v[|v| - 1])
    ensures WordsFrom(v, p) != []
  {
    SkippedWsp(v, p);
  }

  lemma {:induction false} SkipComma(v: string, p: nat)
    requires p <= |v|
    ensures SkipWsp(v + ",", p) == SkipWsp(v, p)
    ensures SkipWord(v + ",", p) == if SkipWord(v, p) < |v| then SkipWord(v, p) else |v| + 1
    decreases |v| - p
  {
    if p < |v| {
      SkipComma(v, p + 1);
    } else {
      assert (v + ",")[p] == ',';
    }
  }

  lemma JoinTwo(v: string, r: string)
    requires v != "" && r != "" && SingleSpaced(v) && SingleSpaced(r) && OneLine(v) && OneLine(r)
    ensures SingleSpaced(v + ", " + r) && OneLine(v + ", " + r)
  {
    var t := v + ", " + r;
    assert t[0] == v[0] && t[|t| - 1] == r[|r| - 1] && t[|v|] == ',' && t[|v| + 1] == ' ';
    forall i | 0 <= i < |t| && IsWsp(t[i])
      ensures t[i] == ' ' && 0 < i < |t| - 1 && !IsSpace(t[i - 1]) && !IsSpace(t[i + 1])
    {
      if i < |v| {
        assert t[i] == v[i] && t[i - 1] == v[i - 1] && t[i + 1] == v[i + 1];
      } else if i > |v| + 1 {
        var k := i - |v| - 2;
        assert t[i] == r[k] && t[i - 1] == r[k - 1] && t[i + 1] == r[k + 1];
      } else {
        assert t[|v| + 2] == r[0];
      }
    }
  }

  lemma JoinTwoWords(v: string, r: string)
    requires v != "" && Trimmed(v)
    ensures Words(v + ", " + r) == WithComma(Words(v)) + Words(r)
  {
    hide WordsFrom;
    CommaWords(v, 0);
    assert v + ", " + r == (v + ",") + (" " + r);
    WordsConcat(v + ",", " " + r);
    LeadingSpace(r);
  }

  /** Joined addresses are one clean value, and its words are those of the addresses with the commas. */
  lemma {:induction false} JoinedIsClean(key: string, values: seq<string>)
    requires values != [] && forall v <- values :: Clean(Field(PrintedName(key), v))
    ensures Clean(Field(PrintedName(key), AddressList(values)))
    ensures Words(AddressList(values)) == ListWords(values)
  {
    hide Words, SingleSpaced, PrintedName, GoodName, OneLine;
    var v := values[0];
    assert v in values;
    if |values| > 1 {
      assert forall w <- values[1..] :: w in values;
      JoinedIsClean(key, values[1..]);
      var r := AddressList(values[1..]);
      JoinTwo(v, r);
      SingleSpacedEnds(v);
      JoinTwoWords(v, r);
    }
  }

  /** Joined addresses can be printed and read back exactly if their words with the commas keep within the hard
      limit. */
  lemma JoinedIsPrintable(key: string, values: seq<string>)
    requires values != [] && forall v <- values :: Clean(Field(PrintedName(key), v))
    ensures Printable(Field(PrintedName(key), AddressList(values))) <==>
            WordsFit(ListWords(values), LINE_LIMIT - 2 - |PrintedName(key)|, LINE_LIMIT - 1)
  {
    hide Words, Clean, WordsFit, PrintedName, AddressList;
    JoinedIsClean(key, values);
  }

  lemma CleanName(key: string, value: string)
    requires Clean(Field(PrintedName(key), value))
    ensures Trim(PrintedName(key)) == PrintedName(key)
  {
    hide SingleSpaced, PrintedName, OneLine;
    TrimTrimmed(PrintedName(key));
  }

  lemma {:induction false} FieldsFit(key: string, values: seq<string>)
    requires CleanValues(key, values)
    ensures AllClean(FieldsOf(key, values))
    ensures AllPrintable(FieldsOf(key, values)) <==>
            forall v <- values | !Withheld(key, v) ::
                WordsFit(Words(v), LINE_LIMIT - 2 - |PrintedName(key)|, LINE_LIMIT - 1)
  {
    hide Withheld, PrintedName, Clean, WordsFit, Words, Trim;
    if values != [] {
      var v := values[0];
      assert v in values && forall w <- values[1..] :: w in values;
      FieldsFit(key, values[1..]);
      assert values == [v] + values[1..];
      if Withheld(key, v) {
        assert FieldsOf(key, values) == [] + FieldsOf(key, values[1..]) == FieldsOf(key, values[1..]);
      } else {
        CleanName(key, v);
        var f := Field(PrintedName(key), v);
        BothFit([f], FieldsOf(key, values[1..]));
        assert [f][0] == f && FieldsOf(key, values) == [f] + FieldsOf(key, values[1..]);
      }
    }
  }

  lemma BothFit(a: seq<Field>, b: seq<Field>)
    ensures AllPrintable(a + b) <==> AllPrintable(a) && AllPrintable(b)
    ensures AllClean(a + b) <==> AllClean(a) && AllClean(b)
  {
    hide Printable, Clean;
    assert forall i | 0 <= i < |a| :: (a + b)[i] == a[i];
    assert forall i | 0 <= i < |b| :: (a + b)[|a| + i] == b[i];
  }

  /** The fields of a key can be printed and read back exactly if its values fit. */
  lemma KeyFits(h: HeaderMap, key: string)
    requires CleanHeader(h)
    ensures AllClean(FieldsOfKey(h, key))
    ensures AllPrintable(FieldsOfKey(h, key)) <==> (key in h ==> ValuesFit(key, h[key]))
  {
    hide PrintedName, FieldsOf, Clean, WordsFit, Words, AddressList, Withheld, ListWords;
    if key !in h {
      NoFields(key);
    } else if key in ONCE_ONLY && |h[key]| > 1 {
      NotWithheld(key);
      forall v | v in h[key]
        ensures Clean(Field(PrintedName(key), v))
      {
        assert CleanValues(key, h[key]);
      }
      JoinedIsClean(key, h[key]);
      FieldsFit(key, [AddressList(h[key])]);
    } else {
      FieldsFit(key, h[key]);
    }
  }

  lemma NotWithheld(key: string)
    requires key in ONCE_ONLY
    ensures forall v :: !Withheld(key, v)
  {
    assert |"Reply-To"| == 8 && |"To"| == 2 && |"Cc"| == 2 && |"Bcc"| == 3;
    assert |"Received"| == 8 && "Received"[2] == 'c' && "Reply-To"[2] == 'p' && |"User-Agent"| == 10
           && |"X-Originating-IP"| == 16;
  }

  lemma {:induction false} KeysFit(h: HeaderMap, keys: seq<string>)
    requires CleanHeader(h)
    ensures AllClean(FieldsOfKeys(h, keys))
    ensures AllPrintable(FieldsOfKeys(h, keys)) <==> forall key <- keys | key in h :: ValuesFit(key, h[key])
  {
    hide FieldsOfKey, CleanHeader, Printable, Clean, ValuesFit;
    if keys != [] {
      KeyFits(h, keys[0]);
      KeysFit(h, keys[1..]);
      BothFit(FieldsOfKey(h, keys[0]), FieldsOfKeys(h, keys[1..]));
      assert keys == [keys[0]] + keys[1..];
    }
  }

  /** Main result, in terms of the values in the header: a message reads back as exactly the kept fields, in order, and
      its body, if and only if the words of the values, with the commas of joined addresses, keep within the hard limit.
      Then, if the keys are in canonical notation, saving what was read gives the same bytes. */
  lemma SavableMessageReadsBack(h: HeaderMap, body: string)
    requires CleanHeader(h)
    ensures ParseHeader(SavedText(h, body)) == Success((PrintedFields(h), body)) <==> HeaderFits(h)
    ensures CanonicalKeys(h) && HeaderFits(h) ==>
              && ReadMessage(SavedText(h, body)).Success?
              && SavedText(ReadMessage(SavedText(h, body)).value.0, body) == SavedText(h, body)
  {
    hide FieldsOfKeys, ParseHeader, CanonicalKeys, SavedText, ReadMessage, AllClean, AllPrintable, AllLegible, KeyOrder,
         RereadAll, HeaderText, StaysKept, ValuesFit, CleanHeader;
    KeysFit(h, KeyOrder(h));
    AllKeys(h);
    RereadAllExactly(PrintedFields(h));
    SavedReadsAs(h, body);
    if CanonicalKeys(h) && HeaderFits(h) {
      PrintableAreSettled(h);
      SavingIsFixed(h, body);
    }
  }
}
