/** A reader of message headers after RFC 5322, sections 2.2 and 2.2.3. */
module Reader {
  import opened Fold
  import opened FoldLossless
  import opened FoldShape
  import opened Splitting
  import opened Text

  datatype Field = Field(name: string, value: string)

  datatype ReadError = Truncated | Malformed

  datatype ReadResult<T> = Success(value: T) | Failure(error: ReadError)

  /** CRLF followed by SP or TAB continues a field. */
  predicate Continues(s: string) {
    |s| > 2 && CRLF <= s && IsWsp(s[2])
  }

  /** The length of the first field, folded as it is, without the CRLF that ends it. */
  function FieldLength(s: string): (r: int)
    ensures -1 <= r <= |s| - 2 || r == -1
  {
    if |s| < 2 then -1
    else if CRLF <= s && !Continues(s) then 0
    else
      var n := FieldLength(s[1..]);
      if n == -1 then -1 else n + 1
  }

  /** Section 2.2.3: unfolding removes any CRLF that SP or TAB follows. */
  function Unfold(s: string): string
    decreases |s|
  {
    if s == "" then "" else if Continues(s) then Unfold(s[2..]) else [s[0]] + Unfold(s[1..])
  }

  /** Section 2.2: a name of visible bytes, a colon, and the body, here without the white space around it. */
  function ParseField(line: string): ReadResult<Field> {
    var n := IndexOf(line, ':');
    if n == |line| || n == 0 || exists i | 0 <= i < n :: IsSpace(line[i]) then Failure(Malformed)
    else Success(Field(line[..n], Trim(line[n + 1..])))
  }

  /** The fields up to the first blank line, and what follows it. */
  function ParseHeader(s: string): ReadResult<(seq<Field>, string)>
    decreases |s|
  {
    if CRLF <= s then Success(([], s[2..]))
    else
      var n := FieldLength(s);
      if n == -1 then Failure(Truncated)
      else
        match ParseField(Unfold(s[..n]))
        case Failure(e) => Failure(e)
        case Success(field) =>
          match ParseHeader(s[n + 2..])
          case Failure(e) => Failure(e)
          case Success((fields, body)) => Success(([field] + fields, body))
  }

  /** A name of 1 to 995 bytes without white space and colon. */
  predicate GoodName(name: string) {
    1 <= |name| <= NAME_LIMIT && forall i | 0 <= i < |name| :: !IsSpace(name[i]) && name[i] != ':'
  }

  /** A good name, and a non-blank value without CR and LF. */
  predicate Legible(f: Field) {
    GoodName(f.name) && OneLine(f.value) && Trim(f.value) != ""
  }

  /** A good name, and a non-blank, single-spaced value without CR and LF. */
  predicate Clean(f: Field) {
    GoodName(f.name) && f.value != "" && SingleSpaced(f.value) && OneLine(f.value)
  }

  lemma CleanIsLegible(f: Field)
    requires Clean(f)
    ensures Legible(f) && Trim(f.value) == f.value
  {
    hide SingleSpaced, OneLine, GoodName, Trim;
    SingleSpacedApart(f.value);
  }

  /** What is read of a printed field: its value is folded and unfolded. */
  function Reread(f: Field): Field {
    if |f.name| <= NAME_LIMIT then Field(f.name, Unfolded(Fragments(f.value, |f.name| + 2))) else f
  }

  function RereadAll(fields: seq<Field>): (r: seq<Field>)
    ensures |r| == |fields|
  {
    if fields == [] then [] else [Reread(fields[0])] + RereadAll(fields[1..])
  }

  /** What can be printed and read back: the words also keep within the hard limit. */
  predicate Printable(f: Field) {
    Clean(f) && WordsFit(Words(f.value), 996 - |f.name|, 997)
  }

  /** No CR and no LF. */
  predicate OneLine(s: string) {
    forall i | 0 <= i < |s| :: s[i] != '\r' && s[i] != '\n'
  }

  lemma {:induction false} LengthThrough(a: string, s: string)
    requires OneLine(a) && FieldLength(s) != -1
    ensures FieldLength(a + s) == |a| + FieldLength(s)
  {
    if a == "" {
      assert a + s == s;
    } else {
      assert (a + s)[1..] == a[1..] + s;
      LengthThrough(a[1..], s);
    }
  }

  lemma {:induction false} UnfoldThrough(a: string, s: string)
    requires OneLine(a)
    ensures Unfold(a + s) == a + Unfold(s)
  {
    if a == "" {
      assert a + s == s;
    } else {
      assert (a + s)[1..] == a[1..] + s;
      UnfoldThrough(a[1..], s);
    }
  }

  /** The lines after the first, each led by the CRLF that ends the line before. */
  function Led(fs: seq<string>): string {
    if fs == [] then "" else CRLF + " " + fs[0] + Led(fs[1..])
  }

  lemma {:induction false} LedContinuation(fs: seq<string>)
    ensures CRLF + Continuation(fs) == Led(fs) + CRLF
  {
    if fs != [] {
      LedContinuation(fs[1..]);
      var a, b, c := " " + fs[0], Continuation(fs[1..]), Led(fs[1..]);
      assert CRLF + (a + CRLF + b) == CRLF + a + (CRLF + b);
      assert CRLF + a + (c + CRLF) == CRLF + " " + fs[0] + c + CRLF;
    } else {
      assert CRLF + "" == "" + CRLF;
    }
  }

  predicate AllOneLine(fs: seq<string>) {
    forall f <- fs :: OneLine(f)
  }

  /** Where a printed field ends. */
  lemma {:induction false} LengthOfLed(fs: seq<string>, rest: string)
    requires AllOneLine(fs) && rest != "" && !IsWsp(rest[0])
    ensures FieldLength(Led(fs) + (CRLF + rest)) == |Led(fs)|
  {
    hide FieldLength, OneLine;
    var t := CRLF + rest;
    if fs == [] {
      EndOfField(rest);
      assert "" + t == t;
    } else {
      LengthOfLed(fs[1..], rest);
      var a, u := " " + fs[0], Led(fs[1..]) + t;
      assert fs[0] in fs;
      LedOneLine(fs[0]);
      LengthThrough(a, u);
      assert Led(fs) + t == CRLF + (a + u);
      SkipCrlf(a + u);
    }
  }

  lemma LedOneLine(s: string)
    requires OneLine(s)
    ensures OneLine(" " + s)
  {
  }

  lemma EndOfField(rest: string)
    requires rest != "" && !IsWsp(rest[0])
    ensures FieldLength(CRLF + rest) == 0
  {
    assert (CRLF + rest)[2] == rest[0];
  }

  lemma SkipCrlf(s: string)
    requires s != "" && IsWsp(s[0]) && FieldLength(s) != -1
    ensures FieldLength(CRLF + s) == 2 + FieldLength(s)
  {
    var t := CRLF + s;
    assert t[1..] == "\n" + s && t[1..][1..] == s;
  }

  lemma {:induction false} UnfoldLed(fs: seq<string>)
    requires AllOneLine(fs)
    ensures Unfold(Led(fs)) == if fs == [] then "" else " " + Unfolded(fs)
  {
    if fs != [] {
      hide Unfold, Unfolded, Join, OneLine;
      UnfoldLed(fs[1..]);
      var a, u := " " + fs[0], Led(fs[1..]);
      assert fs[0] in fs;
      LedOneLine(fs[0]);
      UnfoldThrough(a, u);
      assert Led(fs) == CRLF + (a + u);
      UnfoldCrlf(a + u);
      UnfoldedCons(" ", fs);
    }
  }

  lemma UnfoldCrlf(s: string)
    requires s != "" && IsWsp(s[0])
    ensures Unfold(CRLF + s) == Unfold(s)
  {
    assert (CRLF + s)[2..] == s;
  }

  lemma PartOneLine(s: string, i: nat, j: nat)
    requires i <= j <= |s| && OneLine(s)
    ensures OneLine(s[i..j])
  {
  }

  lemma {:induction false} FragmentsOneLine(body: string, written: nat)
    requires written < LINE_LIMIT && OneLine(body)
    ensures AllOneLine(Fragments(body, written))
    decreases |body|
  {
    hide Fragments, Trim, OneLine, Crop;
    FragmentsStep(body, written);
    var i, j := TrimParts(body);
    PartOneLine(body, i, j);
    var b := body[i..j];
    if b != "" {
      var c := Crop(b, Indent(written));
      PartOneLine(b, c, |b|);
      assert b[c..|b|] == After(b, written);
      FragmentsOneLine(After(b, written), 0);
      PartOneLine(b, 0, c);
      var x, y := TrimParts(b[0..c]);
      PartOneLine(b[0..c], x, y);
      assert b[0..c] == b[..c];
      var fs := Fragments(body, written);
      assert fs == [fs[0]] + fs[1..];
    }
  }

  lemma TextOfField(name: string, fs: seq<string>)
    requires fs != []
    ensures name + ": " + ("" + fs[0] + CRLF + Continuation(fs[1..])) == (name + ": " + fs[0]) + (Led(fs[1..]) + CRLF)
  {
    LedContinuation(fs[1..]);
    var rest := Continuation(fs[1..]);
    assert name + ": " + ("" + fs[0] + CRLF + rest) == (name + ": " + fs[0]) + (CRLF + rest);
  }

  /** The printed field without its last CRLF. */
  function Folded(f: Field): string
    requires |f.name| <= NAME_LIMIT
  {
    var fs := Fragments(f.value, |f.name| + 2);
    if fs == [] then f.name + ": " else (f.name + ": " + fs[0]) + Led(fs[1..])
  }

  lemma FoldedIs(f: Field)
    requires |f.name| <= NAME_LIMIT && Trim(f.value) != ""
    ensures FieldText(f.name, f.value) == Folded(f) + CRLF
  {
    hide Fragments, Trim;
    var fs := Fragments(f.value, |f.name| + 2);
    FragmentsStep(f.value, |f.name| + 2);
    TextOfField(f.name, fs);
    assert Folded(f) + CRLF == (f.name + ": " + fs[0]) + (Led(fs[1..]) + CRLF);
  }

  /** Unfolding the printed field gives the name, a colon, a space and the joined pieces. */
  lemma UnfoldField(f: Field)
    requires Legible(f)
    ensures Unfold(Folded(f)) == f.name + ": " + Unfolded(Fragments(f.value, |f.name| + 2))
  {
    hide Fragments, Trim, Unfold, Led, IsSpace;
    var name, value := f.name, f.value;
    FragmentsOneLine(value, |name| + 2);
    FragmentsStep(value, |name| + 2);
    var fs := Fragments(value, |name| + 2);
    HeadOneLine(name, fs);
    var head := name + ": " + fs[0];
    UnfoldThrough(head, Led(fs[1..]));
    UnfoldLed(fs[1..]);
    UnfoldedCons(name + ": ", fs);
  }

  lemma HeadOneLine(name: string, fs: seq<string>)
    requires fs != [] && AllOneLine(fs) && forall i | 0 <= i < |name| :: !IsSpace(name[i])
    ensures OneLine(name + ": " + fs[0]) && AllOneLine(fs[1..])
  {
    assert fs[0] in fs && forall g <- fs[1..] :: g in fs;
  }

  lemma UnfoldedCons(lead: string, fs: seq<string>)
    requires fs != []
    ensures lead + fs[0] + (if |fs| == 1 then "" else " " + Unfolded(fs[1..])) == lead + Unfolded(fs)
  {
    if |fs| > 1 {
      assert lead + fs[0] + (" " + Unfolded(fs[1..])) == lead + (fs[0] + " " + Unfolded(fs[1..]));
    }
  }

  /** The printed field ends where the next field or the blank line begins. */
  lemma LengthOfField(f: Field, rest: string)
    requires Legible(f) && rest != "" && !IsWsp(rest[0])
    ensures FieldLength(Folded(f) + (CRLF + rest)) == |Folded(f)|
  {
    hide Fragments, Trim, FieldLength;
    var name, value := f.name, f.value;
    FragmentsOneLine(value, |name| + 2);
    var fs := Fragments(value, |name| + 2);
    HeadOneLine(name, fs);
    var head := name + ": " + fs[0];
    LengthOfLed(fs[1..], rest);
    LengthThrough(head, Led(fs[1..]) + (CRLF + rest));
    assert head + (Led(fs[1..]) + (CRLF + rest)) == head + Led(fs[1..]) + (CRLF + rest);
  }

  lemma ParseFieldLine(name: string, value: string)
    requires name != "" && (forall i | 0 <= i < |name| :: !IsSpace(name[i]) && name[i] != ':') && Trimmed(value)
    ensures ParseField(name + ": " + value) == Success(Field(name, value))
  {
    hide Trim, IndexOf;
    var line := name + ": " + value;
    assert line == name + ":" + (" " + value);
    IndexBehind(name, ':', " " + value);
    assert line[|name| + 1..] == " " + value;
    assert (" " + value)[1..|value| + 1] == value;
    TrimIs(" " + value, 1, |value| + 1);
    assert line[..|name|] == name;
  }

  lemma {:induction false} UnfoldedTrimmed(fs: seq<string>)
    requires forall f <- fs :: f != "" && Trimmed(f)
    ensures Trimmed(Unfolded(fs)) && (fs != [] ==> Unfolded(fs) != "")
  {
    hide IsSpace;
    if fs != [] {
      assert fs[0] in fs;
      if |fs| > 1 {
        assert forall f <- fs[1..] :: f in fs;
        UnfoldedTrimmed(fs[1..]);
        var u := Unfolded(fs[1..]);
        assert (fs[0] + " " + u)[|fs[0]| + 1 + |u| - 1] == u[|u| - 1];
      }
    }
  }

  lemma PiecesTrimmed(body: string, written: nat)
    requires written < LINE_LIMIT
    ensures forall f <- Fragments(body, written) :: f != "" && Trimmed(f)
  {
    hide Fragments;
    FragmentsShape(body, written);
  }

  predicate AllPrintable(fields: seq<Field>) {
    forall i | 0 <= i < |fields| :: Printable(fields[i])
  }

  predicate AllLegible(fields: seq<Field>) {
    forall i | 0 <= i < |fields| :: Legible(fields[i])
  }

  /** What `WriteHeader` prints for the fields, with the blank line; it stops at a name that is too long. */
  function HeaderText(fields: seq<Field>): string {
    if fields == [] then CRLF
    else if |fields[0].name| > NAME_LIMIT then ""
    else FieldText(fields[0].name, fields[0].value) + HeaderText(fields[1..])
  }

  lemma FieldStart(f: Field)
    requires Legible(f)
    ensures var s := FieldText(f.name, f.value); |s| > 1 && s[0] == f.name[0]
  {
    hide Rest, Trim;
  }

  lemma HeaderStart(fields: seq<Field>, body: string)
    requires AllLegible(fields)
    ensures var s := HeaderText(fields) + body; s != "" && !IsWsp(s[0]) && (CRLF <= s <==> fields == [])
  {
    if fields != [] {
      var f := fields[0];
      HeaderCons(fields, body);
      FieldStart(f);
    }
  }

  lemma ParseStep(s: string, n: nat, f: Field, fields: seq<Field>, body: string)
    requires !(CRLF <= s) && n + 2 <= |s| && FieldLength(s) == n
    requires ParseField(Unfold(s[..n])) == Success(f) && ParseHeader(s[n + 2..]) == Success((fields, body))
    ensures ParseHeader(s) == Success(([f] + fields, body))
  {
    hide FieldLength, ParseField, Unfold;
  }

  lemma NoFieldsReadBack(body: string)
    ensures ParseHeader(HeaderText([]) + body) == Success(([], body))
  {
    assert (CRLF + body)[2..] == body;
  }

  /** Main result: reading what was printed gives the fields, each with its value as folded and unfolded, and
      behind the first blank line the body. */
  lemma {:induction false} HeaderReadsAs(fields: seq<Field>, body: string)
    requires AllLegible(fields)
    ensures ParseHeader(HeaderText(fields) + body) == Success((RereadAll(fields), body))
  {
    hide *;
    if fields == [] {
      NoFieldsReadBack(body);
    } else {
      TailLegible(fields);
      HeaderReadsAs(fields[1..], body);
      HeaderStart(fields, body);
      HeaderStart(fields[1..], body);
      var f, rest := fields[0], HeaderText(fields[1..]) + body;
      FieldReads(f, rest);
      HeaderCons(fields, body);
      var text := FieldText(f.name, f.value);
      ParseStep(text + rest, |text| - 2, Reread(f), RereadAll(fields[1..]), body);
    }
    RereadStep(fields);
  }

  lemma RereadStep(fields: seq<Field>)
    ensures RereadAll(fields) == if fields == [] then [] else [Reread(fields[0])] + RereadAll(fields[1..])
  {
  }

  lemma TailLegible(fields: seq<Field>)
    requires fields != [] && AllLegible(fields)
    ensures Legible(fields[0]) && AllLegible(fields[1..]) && |fields[0].name| <= NAME_LIMIT
  {
    hide Trim, OneLine;
  }

  lemma HeaderCons(fields: seq<Field>, body: string)
    requires fields != [] && |fields[0].name| <= NAME_LIMIT
    ensures HeaderText(fields) + body == FieldText(fields[0].name, fields[0].value) + (HeaderText(fields[1..]) + body)
  {
  }

  /** Reading a printed field gives its name and the joined pieces of its value. */
  lemma FieldReads(f: Field, rest: string)
    requires Legible(f) && rest != "" && !IsWsp(rest[0])
    ensures var s := FieldText(f.name, f.value) + rest;
            var n := FieldLength(s);
            && 0 <= n <= |s| - 2 && n == |FieldText(f.name, f.value)| - 2 && s[n + 2..] == rest
            && ParseField(Unfold(s[..n])) == Success(Reread(f))
  {
    hide Fragments, FieldText, FieldLength, ParseField, Unfold, Folded, Trim, Unfolded, OneLine;
    FoldedIs(f);
    var s := FieldText(f.name, f.value) + rest;
    assert s == Folded(f) + (CRLF + rest);
    LengthOfField(f, rest);
    assert s[..|Folded(f)|] == Folded(f);
    UnfoldField(f);
    PiecesTrimmed(f.value, |f.name| + 2);
    UnfoldedTrimmed(Fragments(f.value, |f.name| + 2));
    ParseFieldLine(f.name, Unfolded(Fragments(f.value, |f.name| + 2)));
  }

  lemma PrintableRereads(f: Field)
    requires Printable(f)
    ensures Legible(f) && Reread(f) == f
  {
    hide Fragments, WordsFit, Trim, Unfolded, SingleSpaced, OneLine;
    CleanIsLegible(f);
    SingleSpacedApart(f.value);
    UnfoldingRestores(f.name, f.value);
  }

  lemma {:induction false} AllPrintableReread(fields: seq<Field>)
    requires AllPrintable(fields)
    ensures AllLegible(fields) && RereadAll(fields) == fields
  {
    hide Printable, Legible, Reread;
    if fields != [] {
      PrintableRereads(fields[0]);
      AllPrintableReread(fields[1..]);
      assert forall i | 0 < i < |fields| :: fields[i] == fields[1..][i - 1];
    }
  }

  /** Fields that can be printed and read back come back as they are. */
  lemma HeaderReadsBack(fields: seq<Field>, body: string)
    requires AllPrintable(fields)
    ensures ParseHeader(HeaderText(fields) + body) == Success((fields, body))
  {
    hide AllPrintable, AllLegible, RereadAll, HeaderText, ParseHeader;
    AllPrintableReread(fields);
    HeaderReadsAs(fields, body);
  }

  /** A blank value is printed without the end of the line, so that the next field is read as its value: one field is
      lost, and the other one gets its text. */
  lemma BlankTakesNext(name: string, blank: string, next: Field, rest: string)
    requires GoodName(name) && Trim(blank) == "" && Legible(next) && rest != "" && !IsWsp(rest[0])
    ensures var s := FieldText(name, blank) + (FieldText(next.name, next.value) + rest);
            var n := FieldLength(s);
            && 0 <= n <= |s| - 2 && s[n + 2..] == rest
            && ParseField(Unfold(s[..n])) == Success(Field(name, next.name + ": " + Reread(next).value))
  {
    hide *;
    BlankText(name, blank);
    NextIsLegible(next);
    var head, text, s := name + ": ", Folded(next), FieldText(name, blank) + (FieldText(next.name, next.value) + rest);
    FoldedIs(next);
    LengthOfField(next, rest);
    UnfoldField(next);
    assert s == head + (text + (CRLF + rest)) by {
      assert (text + CRLF) + rest == text + (CRLF + rest);
    }
    HeadIsOneLine(name);
    LengthThrough(head, text + (CRLF + rest));
    assert s == (head + text) + CRLF + rest;
    AroundCrlf(head + text, rest);
    UnfoldThrough(head, text);
    TwoNames(name, next);
  }

  lemma AroundCrlf(a: string, b: string)
    ensures var s := a + CRLF + b; s[..|a|] == a && s[|a| + 2..] == b && |a| + 2 <= |s|
  {
  }

  lemma BlankText(name: string, blank: string)
    requires GoodName(name) && Trim(blank) == ""
    ensures |name| <= NAME_LIMIT && FieldText(name, blank) == name + ": "
  {
    FragmentsStep(blank, |name| + 2);
  }

  lemma NextIsLegible(f: Field)
    requires Legible(f)
    ensures |f.name| <= NAME_LIMIT && Trim(f.value) != "" && |f.name| + 2 < LINE_LIMIT
    ensures Reread(f) == Field(f.name, Unfolded(Fragments(f.value, |f.name| + 2)))
  {
    hide Fragments, Trim, Unfolded, OneLine;
  }

  lemma TwoNames(name: string, next: Field)
    requires GoodName(name) && Legible(next)
    ensures ParseField(name + ": " + (next.name + ": " + Reread(next).value))
            == Success(Field(name, next.name + ": " + Reread(next).value))
  {
    hide Fragments, ParseField, Trim, Unfolded, OneLine;
    PiecesTrimmed(next.value, |next.name| + 2);
    UnfoldedTrimmed(Fragments(next.value, |next.name| + 2));
    var u := Reread(next).value;
    var value := next.name + ": " + u;
    assert value[0] == next.name[0] && value[|value| - 1] == u[|u| - 1];
    ParseFieldLine(name, value);
  }

  lemma HeadIsOneLine(name: string)
    requires GoodName(name)
    ensures OneLine(name + ": ")
  {
  }
}
