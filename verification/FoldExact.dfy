/** Exactly when a folded value reads back. */
module FoldExact {
  import opened Fold
  import opened FoldLossless
  import opened FoldOptimal
  import opened FoldShape
  import opened Reader
  import opened Splitting
  import opened Text

  /** The number of SP and TAB. */
  function Gaps(s: string): nat {
    if s == "" then 0 else (if IsWsp(s[0]) then 1 else 0) + Gaps(s[1..])
  }

  lemma {:induction false} GapsConcat(a: string, b: string)
    ensures Gaps(a + b) == Gaps(a) + Gaps(b)
  {
    hide IsWsp;
    if a == "" {
      assert a + b == b;
    } else {
      assert (a + b)[1..] == a[1..] + b;
      GapsConcat(a[1..], b);
    }
  }

  lemma GapsSplit(s: string, i: nat)
    requires i <= |s|
    ensures Gaps(s) == Gaps(s[..i]) + Gaps(s[i..])
  {
    hide Gaps;
    GapsConcat(s[..i], s[i..]);
    assert s[..i] + s[i..] == s;
  }

  lemma {:induction false} NoGaps(s: string)
    requires Unbreakable(s)
    ensures Gaps(s) == 0
  {
    if s != "" {
      NoGaps(s[1..]);
    }
  }

  lemma {:induction false} WordsWithin(s: string, p: nat)
    requires p <= |s|
    ensures forall w <- WordsFrom(s, p) :: |w| <= |s|
    decreases |s| - p
  {
    WordsStep(s, p);
    var i := SkipWsp(s, p);
    if i < |s| {
      WordsWithin(s, SkipWord(s, i));
    }
  }

  lemma ShortWordsFit(s: string, first: int, later: int)
    requires |s| <= first <= later
    ensures WordsFit(Words(s), first, later)
  {
    hide WordsFrom;
    WordsWithin(s, 0);
  }

  lemma WordsFitConcat(a: seq<string>, b: seq<string>, first: int, later: int)
    requires first <= later && (forall w <- a :: |w| <= first) && a != [] && WordsFit(b, later, later)
    ensures WordsFit(a + b, first, later)
  {
  }

  lemma PartSingleSpaced(s: string, i: nat, j: nat)
    requires SingleSpaced(s) && i < j <= |s| && !IsSpace(s[i]) && !IsSpace(s[j - 1])
    ensures SingleSpaced(s[i..j])
  {
    var t := s[i..j];
    assert t[0] == s[i] && t[|t| - 1] == s[j - 1];
    forall k | 0 <= k < |t| && IsWsp(t[k])
      ensures t[k] == ' ' && 0 < k < |t| - 1 && !IsSpace(t[k - 1]) && !IsSpace(t[k + 1])
    {
      assert t[k] == s[i + k] && t[k - 1] == s[i + k - 1] && t[k + 1] == s[i + k + 1];
    }
  }

  /** A crop at no gap breaks a text without gaps. */
  lemma HardCrop(b: string, indent: nat)
    requires b != "" && !IsSpace(b[0]) && 0 < indent < LINE_LIMIT
    requires Crop(b, indent) < |b| && !IsWsp(b[Crop(b, indent)])
    ensures Unbreakable(b[..Crop(b, indent)])
  {
    AfterLastWsp(b, COLUMNS - indent);
    BeforeFirstWsp(b, COLUMNS + 1 - indent, LINE_LIMIT - indent);
  }

  /** The white space before the rest of a broken word has no gap. */
  lemma RestOfWord(b: string, c: nat) returns (i: nat)
    requires SingleSpaced(b) && c < |b| && !IsWsp(b[c])
    ensures c <= i < |b| && !IsSpace(b[i]) && Trim(b[c..]) == b[i..] && Gaps(b[c..]) == Gaps(b[i..])
  {
    hide Trim, Gaps;
    var t := b[c..];
    var x, y := TrimParts(t);
    assert t[|t| - 1] == b[|b| - 1];
    assert y == |t|;
    i := c + x;
    assert t[x..y] == b[i..];
    assert x < |t|;
    assert b[i..][0] == b[i];
    forall k | 0 <= k < x
      ensures !IsWsp(t[k])
    {
      assert t[k] == b[c + k];
      if k > 0 {
        assert t[k - 1] == b[c + k - 1];
      }
    }
    GapsSplit(t, x);
    NoGaps(t[..x]);
    assert t[x..] == b[i..];
  }

  lemma NextLine(b: string, written: nat)
    requires b != "" && Trimmed(b) && written < LINE_LIMIT
    ensures var c, fs := Crop(b, Indent(written)), Fragments(b, written);
            && fs != [] && fs[0] == Trim(b[..c]) && fs[1..] == Fragments(b[c..], 0)
            && (c == |b| ==> fs == [b]) && (c < |b| ==> fs[1..] != [])
  {
    hide Trim, Fragments, Crop;
    TrimTrimmed(b);
    FragmentsStep(b, written);
    var c := Crop(b, Indent(written));
    if c == |b| {
      assert b[..c] == b && b[c..] == "";
      TrimTrimmed("");
      FragmentsStep("", 0);
    } else {
      FragmentsStep(b[c..], 0);
      var i, j := TrimParts(b[c..]);
      assert b[c..][|b| - c - 1] == b[|b| - 1];
    }
  }

  /** Folding never loses a gap, and it adds one wherever it breaks a word. */
  lemma {:induction false} GapsOfFolding(b: string, written: nat)
    requires b != "" && SingleSpaced(b) && written < LINE_LIMIT
    ensures var u := Unfolded(Fragments(b, written));
            && Gaps(u) >= Gaps(b)
            && (Gaps(u) == Gaps(b) ==> WordsFit(Words(b), LINE_LIMIT - Indent(written), LINE_LIMIT - 1))
    decreases |b|
  {
    hide Trim, Fragments, Crop, Gaps, WordsFit, Words, SingleSpaced, Unbreakable;
    SingleSpacedEnds(b);
    NextLine(b, written);
    var c, fs := Crop(b, Indent(written)), Fragments(b, written);
    CropBounds(b, Indent(written));
    if c == |b| {
      ShortWordsFit(b, LINE_LIMIT - Indent(written), LINE_LIMIT - 1);
    } else {
      var u := Unfolded(fs[1..]);
      UnfoldedGaps(fs);
      GapsSplit(b, c);
      if IsWsp(b[c]) {
        SoftBreak(b, c);
        SameFragments(b[c..], b[c + 1..], 0);
        GapsOfFolding(b[c + 1..], 0);
        if Gaps(u) == Gaps(b[c + 1..]) {
          SoftBreakWords(b, c, LINE_LIMIT - Indent(written));
        }
      } else {
        HardCrop(b, Indent(written));
        NoGaps(b[..c]);
        var i := RestOfWord(b, c);
        SingleSpacedEnds(b);
        PartSingleSpaced(b, i, |b|);
        assert b[i..|b|] == b[i..];
        TrimTrimmed(b[i..]) by { SingleSpacedEnds(b[i..]); }
        SameFragments(b[c..], b[i..], 0);
        GapsOfFolding(b[i..], 0);
      }
    }
  }

  lemma CropBounds(b: string, indent: nat)
    requires b != "" && !IsSpace(b[0]) && 0 < indent < LINE_LIMIT
    ensures 1 <= Crop(b, indent) <= |b| && Crop(b, indent) <= LINE_LIMIT - indent
  {
  }

  lemma SingleSpacedEnds(b: string)
    requires SingleSpaced(b)
    ensures Trimmed(b) && Trim(b) == b
  {
    TrimTrimmed(b);
  }

  lemma UnfoldedGaps(fs: seq<string>)
    requires |fs| > 1
    ensures Gaps(Unfolded(fs)) == Gaps(fs[0]) + 1 + Gaps(Unfolded(fs[1..]))
  {
    GapsConcat(fs[0] + " ", Unfolded(fs[1..]));
    GapsConcat(fs[0], " ");
    assert Gaps(" ") == 1;
  }

  /** A crop at a gap takes the gap and nothing else. */
  lemma SoftBreak(b: string, c: nat)
    requires SingleSpaced(b) && 0 < c < |b| && IsWsp(b[c])
    ensures c + 1 < |b| && SingleSpaced(b[c + 1..]) && Trim(b[..c]) == b[..c] && Trim(b[c..]) == Trim(b[c + 1..])
    ensures b[c..] == " " + b[c + 1..] && Gaps(b[c..]) == 1 + Gaps(b[c + 1..])
  {
    hide Trim;
    assert b[..c][0] == b[0] && b[..c][c - 1] == b[c - 1];
    TrimTrimmed(b[..c]);
    PartSingleSpaced(b, c + 1, |b|);
    assert b[c + 1..|b|] == b[c + 1..];
    TrimTrimmed(b[c + 1..]);
    assert b[c..] == " " + b[c + 1..];
    assert b[c..][1..|b| - c] == b[c + 1..];
    TrimIs(b[c..], 1, |b| - c);
    GapsConcat(" ", b[c + 1..]);
    assert Gaps(" ") == 1;
  }

  lemma SoftBreakWords(b: string, c: nat, first: int)
    requires SingleSpaced(b) && 0 < c < |b| && IsWsp(b[c]) && c <= first <= LINE_LIMIT - 1
    requires WordsFit(Words(b[c + 1..]), LINE_LIMIT - 1, LINE_LIMIT - 1)
    ensures WordsFit(Words(b), first, LINE_LIMIT - 1)
  {
    hide WordsFrom, WordsFit, Trim;
    SoftBreak(b, c);
    assert b[..c] + b[c..] == b;
    WordsConcat(b[..c], b[c..]);
    LeadingSpace(b[c + 1..]);
    WordsWithin(b[..c], 0);
    WordsStep(b[..c], 0);
    assert b[..c][0] == b[0];
    assert SkipWsp(b[..c], 0) == 0;
    WordsFitConcat(Words(b[..c]), Words(b[c + 1..]), first, LINE_LIMIT - 1);
  }

  /** Main result: a single-spaced text comes back from folding and unfolding exactly if its first word has
      at most 996 bytes less the length of the name, and all others at most 997 bytes. */
  lemma ReadsBackExactly(name: string, b: string)
    requires |name| <= 995 && b != "" && SingleSpaced(b)
    ensures Unfolded(Fragments(b, |name| + 2)) == b <==> WordsFit(Words(b), 996 - |name|, 997)
  {
    hide Trim, Fragments, WordsFit, WordsFrom, SingleSpaced, Gaps;
    GapsOfFolding(b, |name| + 2);
    SingleSpacedEnds(b);
    SingleSpacedApart(b);
    if WordsFit(Words(b), LINE_LIMIT - 2 - |name|, LINE_LIMIT - 1) {
      UnfoldingRestores(name, b);
    }
  }

  /** Main result: a printed field reads back as it was exactly if its words keep within the hard limit. */
  lemma FieldReadsBackExactly(f: Field, rest: string)
    requires Clean(f) && rest != "" && !IsWsp(rest[0])
    ensures var s := FieldText(f.name, f.value) + rest;
            var n := FieldLength(s);
            && 0 <= n <= |s| && s[n + 2..] == rest
            && (ParseField(Unfold(s[..n])) == Success(f) <==> Printable(f))
  {
    hide Fragments, WordsFit, Words, FieldText, FieldLength, ParseField, Unfold, Unfolded, SingleSpaced, OneLine, Trim;
    CleanIsLegible(f);
    FieldReads(f, rest);
    ReadsBackExactly(f.name, f.value);
  }

  predicate AllClean(fields: seq<Field>) {
    forall i | 0 <= i < |fields| :: Clean(fields[i])
  }

  lemma {:induction false} RereadAllExactly(fields: seq<Field>)
    requires AllClean(fields)
    ensures AllLegible(fields) && (RereadAll(fields) == fields <==> AllPrintable(fields))
  {
    hide Fragments, WordsFit, Words, Unfolded, SingleSpaced, OneLine, Trim;
    if fields != [] {
      var f := fields[0];
      CleanIsLegible(f);
      ReadsBackExactly(f.name, f.value);
      RereadAllExactly(fields[1..]);
      assert forall i | 0 < i < |fields| :: fields[i] == fields[1..][i - 1];
      assert fields == [f] + fields[1..];
    }
  }

  /** Main result: a printed header reads back as it was exactly if the words of all values keep within the hard
      limit. */
  lemma HeaderReadsBackExactly(fields: seq<Field>, body: string)
    requires AllClean(fields)
    ensures ParseHeader(HeaderText(fields) + body) == Success((fields, body)) <==> AllPrintable(fields)
  {
    hide AllClean, AllPrintable, AllLegible, RereadAll, HeaderText, ParseHeader;
    RereadAllExactly(fields);
    HeaderReadsAs(fields, body);
  }

  /** Every line of the text ends where there is one space and no other white space. */
  predicate BreaksAtSpaces(b: string, written: nat)
    requires written < LINE_LIMIT
    decreases |b|
  {
    b != "" && !IsSpace(b[0])
    && var c := Crop(b, Indent(written));
       c < |b| ==>
         && c + 1 < |b| && b[c] == ' ' && !IsSpace(b[c - 1]) && !IsSpace(b[c + 1])
         && BreaksAtSpaces(b[c + 1..], 0)
  }

  /** Whatever the text, it comes back from folding and unfolding exactly if its lines end at single spaces. */
  lemma {:induction false} AnyReadsBackExactly(b: string, written: nat)
    requires b != "" && Trimmed(b) && written < LINE_LIMIT
    ensures Unfolded(Fragments(b, written)) == b <==> BreaksAtSpaces(b, written)
    decreases |b|
  {
    hide Trim, Fragments, Crop;
    NextLine(b, written);
    var c, fs := Crop(b, Indent(written)), Fragments(b, written);
    CropBounds(b, Indent(written));
    if c < |b| {
      var head, u := fs[0], Unfolded(fs[1..]);
      assert Unfolded(fs) == head + " " + u;
      PiecesTrimmed(b, written);
      assert fs[0] in fs && forall f <- fs[1..] :: f in fs;
      UnfoldedTrimmed(fs[1..]);
      HeadLength(b, c, Indent(written));
      if b[c] == ' ' && !IsSpace(b[c - 1]) && c + 1 < |b| && !IsSpace(b[c + 1]) {
        var rest := b[c + 1..];
        assert rest[0] == b[c + 1] && rest[|rest| - 1] == b[|b| - 1];
        assert b[c..][1..|b| - c] == rest;
        TrimIs(b[c..], 1, |b| - c);
        TrimTrimmed(rest);
        SameFragments(b[c..], rest, 0);
        AnyReadsBackExactly(rest, 0);
        assert head == b[..c] && b == head + " " + rest;
        assert Unfolded(fs) == b ==> u == rest by {
          assert (head + " " + u)[c + 1..] == u && b[c + 1..] == rest;
        }
      } else {
        OtherBreak(b, c, head, u);
      }
    }
  }

  /** The first line is the text before the crop without white space at its end. */
  lemma HeadLength(b: string, c: nat, indent: nat)
    requires b != "" && Trimmed(b) && 0 < indent < LINE_LIMIT && c == Crop(b, indent) < |b|
    ensures var n := |Trim(b[..c])|;
            && 1 <= n <= c && Trim(b[..c]) == b[..n] && (n < c <==> IsSpace(b[c - 1]))
            && forall k | n <= k < c :: IsSpace(b[k])
    ensures !IsWsp(b[c]) ==> !IsWsp(b[c - 1])
  {
    CropBounds(b, indent);
    if !IsWsp(b[c]) {
      HardCrop(b, indent);
      assert b[..c][c - 1] == b[c - 1];
    }
    hide Crop;
    var i, j := TrimParts(b[..c]);
    assert b[..c][0] == b[0];
    assert i == 0 && b[..c][0..j] == b[..j];
    assert forall k | j <= k < c :: b[..c][k] == b[k];
    assert j > 0 && Trim(b[..c])[j - 1] == b[j - 1];
  }

  /** A line that ends at any other place leaves its mark. */
  lemma OtherBreak(b: string, c: nat, head: string, u: string)
    requires 0 < c < |b| && 1 <= |head| <= c && head == b[..|head|] && (|head| < c <==> IsSpace(b[c - 1]))
    requires forall k | |head| <= k < c :: IsSpace(b[k])
    requires !IsWsp(b[c]) ==> !IsWsp(b[c - 1])
    requires u != "" && !IsSpace(u[0])
    requires !(b[c] == ' ' && !IsSpace(b[c - 1]) && c + 1 < |b| && !IsSpace(b[c + 1]))
    ensures head + " " + u != b
  {
    var t, n := head + " " + u, |head|;
    if |t| == |b| {
      assert t[n] == ' ' && t[n + 1] == u[0];
      assert n + 1 < |b|;
    }
  }

  /** Exactly when a legible field is read back as it was. */
  lemma LegibleReadsBackExactly(f: Field)
    requires Legible(f)
    ensures Reread(f) == f <==> Trimmed(f.value) && BreaksAtSpaces(f.value, |f.name| + 2)
  {
    hide Trim, Fragments, Unfolded, OneLine, BreaksAtSpaces;
    PiecesTrimmed(f.value, |f.name| + 2);
    UnfoldedTrimmed(Fragments(f.value, |f.name| + 2));
    if Trimmed(f.value) {
      TrimTrimmed(f.value);
      AnyReadsBackExactly(f.value, |f.name| + 2);
    }
  }

  /** Main result: a printed header of non-blank values reads back as it was exactly if every value has no white space
      around it and all its lines end at single spaces. */
  lemma LegibleHeaderReadsBackExactly(fields: seq<Field>, body: string)
    requires AllLegible(fields)
    ensures ParseHeader(HeaderText(fields) + body) == Success((fields, body)) <==>
            forall f <- fields :: Trimmed(f.value) && BreaksAtSpaces(f.value, |f.name| + 2)
  {
    hide HeaderText, ParseHeader, BreaksAtSpaces, Trim, OneLine, Fragments, Unfolded;
    HeaderReadsAs(fields, body);
    RereadIsSame(fields);
    forall f | f in fields
      ensures Reread(f) == f <==> Trimmed(f.value) && BreaksAtSpaces(f.value, |f.name| + 2)
    {
      LegibleReadsBackExactly(f);
    }
  }

  lemma {:induction false} RereadIsSame(fields: seq<Field>)
    ensures RereadAll(fields) == fields <==> forall f <- fields :: Reread(f) == f
  {
    hide Reread;
    if fields != [] {
      RereadIsSame(fields[1..]);
      assert fields == [fields[0]] + fields[1..];
    }
  }
}
