/** The greedy folding of `headerWritelnFold` uses as few lines as any folding allowed by RFC 5322. */
module FoldOptimal {
  import opened Fold
  import opened FoldShape
  import opened Text
  import opened Splitting

  /** `lines` is a way to fold `s[p..]`: every line begins and ends within text, and between two lines
      (and around all of them) there is nothing but SP and TAB, and some of it (RFC 5322, section 2.2.3). */
  ghost predicate IsFoldingFrom(s: string, p: nat, lines: seq<string>)
    requires p <= |s|
    decreases |lines|
  {
    var i := SkipWsp(s, p);
    if lines == [] then i == |s|
    else
      var j := i + |lines[0]|;
      && i < j <= |s| && lines[0] == s[i..j]
      && !IsWsp(s[j - 1]) && (j < |s| ==> IsWsp(s[j]))
      && IsFoldingFrom(s, j, lines[1..])
  }

  ghost predicate IsFolding(s: string, lines: seq<string>) {
    IsFoldingFrom(s, 0, lines)
  }

  /** The lines have at most 78 columns, when the first follows `written` bytes. */
  ghost predicate Fits(lines: seq<string>, written: nat) {
    forall i | 0 <= i < |lines| :: |lines[i]| <= 78 - if i == 0 then Indent(written) else 1
  }

  /** The lines keep within the columns, except for single words, which keep within the hard limit. */
  ghost predicate FitsIfItCan(lines: seq<string>, written: nat) {
    forall i | 0 <= i < |lines| ::
      var indent := if i == 0 then Indent(written) else 1;
      |lines[i]| <= 78 - indent || (Unbreakable(lines[i]) && |lines[i]| <= 998 - indent)
  }

  lemma FitsIfItCanTail(lines: seq<string>, written: nat)
    requires lines != [] && FitsIfItCan(lines, written)
    ensures FitsIfItCan(lines[1..], 0)
  {
    hide Unbreakable;
    forall i | 0 <= i < |lines| - 1
      ensures |lines[1..][i]| <= COLUMNS - 1 || (Unbreakable(lines[1..][i]) && |lines[1..][i]| <= LINE_LIMIT - 1)
    {
      assert lines[1..][i] == lines[i + 1];
    }
  }

  lemma FitsTail(lines: seq<string>, written: nat)
    requires lines != [] && Fits(lines, written)
    ensures Fits(lines[1..], 0)
  {
    forall i | 0 <= i < |lines| - 1
      ensures |lines[1..][i]| <= COLUMNS - 1
    {
      assert lines[1..][i] == lines[i + 1];
    }
  }

  lemma FitsCons(lines: seq<string>, written: nat)
    requires lines != [] && |lines[0]| <= COLUMNS - Indent(written) && Fits(lines[1..], 0)
    ensures Fits(lines, written)
  {
    forall i | 0 < i < |lines|
      ensures |lines[i]| <= COLUMNS - 1
    {
      assert lines[1..][i - 1] == lines[i];
    }
  }

  /** White space after `e` does not matter to what is trimmed. */
  lemma TrimBefore(s: string, b: nat, e: nat)
    requires b <= e <= |s| && forall k | e <= k < |s| :: IsSpace(s[k])
    ensures Trim(s[b..e]) == Trim(s[b..])
  {
    var i, j := TrimParts(s[b..e]);
    assert s[b..e] == s[b..][..e - b];
    assert s[b..][..e - b][i..j] == s[b..][i..j];
    forall k | 0 <= k < i || j <= k < |s[b..]|
      ensures IsSpace(s[b..][k])
    {
      if b + k < e {
        assert s[b..e][k] == s[b + k];
      }
    }
    TrimIs(s[b..], i, j);
  }

  lemma SameFragments(x: string, y: string, written: nat)
    requires Trim(x) == Trim(y) && written < LINE_LIMIT
    ensures Fragments(x, written) == Fragments(y, written)
  {
    FragmentsStep(x, written);
    FragmentsStep(y, written);
  }

  /** Where the text of `s[g..]` lies. */
  lemma TextFrom(s: string, g: nat) returns (b: nat, e: nat)
    requires g <= |s|
    ensures g <= b <= e <= |s| && Trim(s[g..]) == s[b..e] == Trim(s[b..])
    ensures forall k | g <= k < b || e <= k < |s| :: IsSpace(s[k])
  {
    var i, j := TrimParts(s[g..]);
    b, e := g + i, g + j;
    assert s[g..][i..j] == s[b..e];
    forall k | g <= k < b || e <= k < |s|
      ensures IsSpace(s[k])
    {
      assert s[k] == s[g..][k - g];
    }
    assert s[b..][0..e - b] == s[b..e];
    TrimIs(s[b..], 0, e - b);
  }

  lemma NextFragments(s: string, g: nat, b: nat, e: nat, written: nat)
    requires g <= b < e <= |s| && written < LINE_LIMIT
    requires Trim(s[g..]) == s[b..e] && forall k | e <= k < |s| :: IsSpace(s[k])
    ensures s[b..e][0] == s[b] && !IsSpace(s[b])
    ensures var c, fs := Crop(s[b..e], Indent(written)), Fragments(s[g..], written);
            fs != [] && |fs[0]| <= c && fs[1..] == Fragments(s[b + c..], 0)
  {
    hide Fragments, Trim;
    FragmentsStep(s[g..], written);
    var t := s[b..e];
    var c := Crop(t, Indent(written));
    assert After(t, written) == s[b + c..e];
    TrimBefore(s, b + c, e);
    SameFragments(s[b + c..e], s[b + c..], 0);
  }

  /** A SP or TAB within the columns keeps the crop within the columns, and not before that place. */
  lemma CropNotBefore(b: string, indent: nat)
    requires b != "" && !IsSpace(b[0]) && 0 < indent < LINE_LIMIT
    ensures |b| <= COLUMNS - indent ==> Crop(b, indent) == |b|
    ensures forall i | 1 <= i < |b| && i <= COLUMNS - indent && IsWsp(b[i]) :: i <= Crop(b, indent) <= COLUMNS - indent
  {
    AfterLastWsp(b, COLUMNS - indent);
  }

  /** A word that keeps within the hard limit is not broken. */
  lemma CropTakesWord(b: string, indent: nat, i: nat)
    requires b != "" && !IsSpace(b[0]) && 0 < indent < LINE_LIMIT && 1 <= i <= |b| && i <= LINE_LIMIT - indent
    requires (forall k | 0 <= k < i :: !IsWsp(b[k])) && (i < |b| ==> IsWsp(b[i]))
    ensures Crop(b, indent) >= i
  {
    AfterLastWsp(b, COLUMNS - indent);
    BeforeFirstWsp(b, COLUMNS + 1 - indent, LINE_LIMIT - indent);
  }

  /** There is no SP and no TAB in `s[i..j]`. */
  predicate WordFrom(s: string, i: nat, j: nat) {
    forall k | i <= k < j && k < |s| :: !IsWsp(s[k])
  }

  /** Where the next line of the greedy folding of `s[g..]` begins, how much it takes, and what follows. */
  lemma GreedyStep(s: string, g: nat, written: nat) returns (b: nat, e: nat, c: nat)
    requires g <= |s| && written < LINE_LIMIT
    ensures g <= b <= e <= |s|
    ensures forall k | g <= k < b || e <= k < |s| :: IsSpace(s[k])
    ensures Fragments(s[b..], 0) == Fragments(s[g..], 0)
    ensures b == e ==> Fragments(s[g..], written) == []
    ensures b < e ==>
              && !IsSpace(s[b]) && 1 <= c <= e - b
              && var fs := Fragments(s[g..], written);
                 fs != [] && |fs[0]| <= c && fs[1..] == Fragments(s[b + c..], 0)
    ensures b < e && e - b <= COLUMNS - Indent(written) ==> c == e - b
    ensures forall j | b < j < e && j - b <= COLUMNS - Indent(written) && IsWsp(s[j]) ::
            j - b <= c <= COLUMNS - Indent(written)
    ensures forall j | b < j <= e && j - b <= LINE_LIMIT - Indent(written) && WordFrom(s, b, j)
            && (j < e ==> IsWsp(s[j])) ::
            j - b <= c
  {
    hide Fragments, Trim;
    b, e := TextFrom(s, g);
    c := 0;
    SameFragments(s[b..], s[g..], 0);
    if b < e {
      NextFragments(s, g, b, e, written);
      var t := s[b..e];
      c := Crop(t, Indent(written));
      CropNotBefore(t, Indent(written));
      forall j | b < j < e && j - b <= COLUMNS - Indent(written) && IsWsp(s[j])
        ensures j - b <= c <= COLUMNS - Indent(written)
      {
        assert t[j - b] == s[j];
      }
      forall j | b < j <= e && j - b <= LINE_LIMIT - Indent(written) && WordFrom(s, b, j) && (j < e ==> IsWsp(s[j]))
        ensures j - b <= c
      {
        assert forall k | 0 <= k < j - b :: t[k] == s[b + k];
        assert j < e ==> t[j - b] == s[j];
        CropTakesWord(t, Indent(written), j - b);
      }
    }
  }

  /** The greedy folding stays ahead: if it has reached `g`, and another folding that fits where it can has only
      reached `p`, then the greedy one needs no more lines for the rest, and its lines fit if those of the other do. */
  lemma {:induction false} GreedyAhead(s: string, p: nat, g: nat, written: nat, lines: seq<string>)
    requires p <= g <= |s| && written < LINE_LIMIT
    requires written == 0 || g == |s| || (g == p && !IsSpace(s[g]))
    requires IsFoldingFrom(s, p, lines) && FitsIfItCan(lines, written)
    ensures |Fragments(s[g..], written)| <= |lines|
    ensures Fits(lines, written) ==> Fits(Fragments(s[g..], written), written)
    decreases |lines|
  {
    hide Fragments, Trim, Unbreakable, WordFrom;
    var b, e, c := GreedyStep(s, g, written);
    SkippedWsp(s, p);
    if b < e {
      var j := SkipWsp(s, p) + |lines[0]|;
      FitsIfItCanTail(lines, written);
      if Fits(lines, written) {
        FitsTail(lines, written);
      }
      if b >= j {
        GreedyAhead(s, j, b, 0, lines[1..]);
      } else {
        if Unbreakable(lines[0]) {
          LineIsWord(s, SkipWsp(s, p), b, j, e, lines[0]);
        }
        if c == e - b {
          GreedyStepEnd(s, e);
        } else {
          GreedyAhead(s, j, b + c, 0, lines[1..]);
        }
        if Fits(lines, written) {
          FitsCons(Fragments(s[g..], written), written);
        }
      }
    }
  }

  lemma LineIsWord(s: string, i: nat, b: nat, j: nat, e: nat, line: string)
    requires i <= b < j <= |s| && b < e <= |s| && line == s[i..j] && Unbreakable(line)
    ensures WordFrom(s, b, if j < e then j else e)
  {
    assert forall k | i <= k < j :: s[k] == line[k - i];
  }

  lemma GreedyStepEnd(s: string, e: nat)
    requires e <= |s| && forall k | e <= k < |s| :: IsSpace(s[k])
    ensures Fragments(s[e..], 0) == []
  {
    assert s[e..][0..0] == "";
    TrimIs(s[e..], 0, 0);
    FragmentsStep(s[e..], 0);
  }

  /** Main result: among all foldings of the trimmed body at SP and TAB whose lines have at most 78 columns, or are a
      single word within the hard limit, none has fewer lines than the greedy one; and if one of them has no line over
      78 columns, the greedy one has none either. */
  lemma FoldingIsOptimal(name: string, body: string, other: seq<string>)
    requires |name| <= 995
    requires IsFolding(Trim(body), other) && FitsIfItCan(other, |name| + 2)
    ensures |Fragments(body, |name| + 2)| <= |other| && FitsIfItCan(Fragments(body, |name| + 2), |name| + 2)
    ensures Fits(other, |name| + 2) ==> Fits(Fragments(body, |name| + 2), |name| + 2)
  {
    hide Fragments, Trim, IsFoldingFrom, Fits, FitsIfItCan;
    var b := Trim(body);
    TrimTrimmed(b);
    SameFragments(body, b, |name| + 2);
    assert b[0..] == b;
    GreedyAhead(b, 0, 0, |name| + 2, other);
    FragmentsShape(body, |name| + 2);
    GoodLinesFit(Fragments(body, |name| + 2), |name| + 2);
  }

  lemma GoodLinesFit(fs: seq<string>, written: nat)
    requires AllGood(fs, Indent(written))
    ensures FitsIfItCan(fs, written)
  {
  }

  lemma FittingFits(lines: seq<string>, written: nat)
    requires Fits(lines, written)
    ensures FitsIfItCan(lines, written)
  {
    hide Unbreakable;
  }

  /** Bodies whose only white space is SP and TAB. */
  predicate OnlyWsp(s: string) {
    forall i | 0 <= i < |s| && IsSpace(s[i]) :: IsWsp(s[i])
  }

  /** How long the first line of the greedy folding is: it fits if the first word does, and else it holds the first
      word. */
  lemma FirstLine(b: string, written: nat)
    requires b != "" && Trimmed(b) && written < LINE_LIMIT
    ensures var room, word, fs := COLUMNS - Indent(written), Words(b), Fragments(b, written);
            && word != [] && fs != []
            && (|word[0]| <= room ==> |fs[0]| <= room)
            && (OnlyWsp(b) && |word[0]| > room ==> |fs[0]| > room)
  {
    hide Fragments, Trim;
    TrimTrimmed(b);
    FragmentsStep(b, written);
    var indent := Indent(written);
    var j := SkipWord(b, 0);
    SkippedWord(b, 0);
    WordsStep(b, 0);
    assert SkipWsp(b, 0) == 0;
    var c := Crop(b, indent);
    CropNotBefore(b, indent);
    if j > COLUMNS - indent && OnlyWsp(b) {
      AfterLastWsp(b, COLUMNS - indent);
      BeforeFirstWsp(b, COLUMNS + 1 - indent, LINE_LIMIT - indent);
      assert c <= j;
      assert b[..c][0] == b[0] && b[..c][c - 1] == b[c - 1];
      TrimTrimmed(b[..c]);
    }
  }

  /** RFC 5322 also allows to fold at the space behind the colon, which the code never does. Still no folding of this
      kind takes fewer lines (the line of the name is one of them), and if there is one within 78 columns, all lines of
      the greedy folding but the first keep within 78 columns. The first one does if the first word fits beside the
      name, and otherwise, unless there is VT or FF, it is the price for not folding there. */
  lemma FoldingBehindColon(name: string, body: string, other: seq<string>)
    requires |name| <= 995 && Trim(body) != ""
    requires IsFolding(Trim(body), other) && FitsIfItCan(other, 0)
    ensures |Fragments(body, |name| + 2)| <= 1 + |other|
    ensures var fs, words := Fragments(body, |name| + 2), Words(Trim(body));
            Fits(other, 0) ==>
            && fs != [] && words != [] && Fits(fs[1..], 0)
            && (|name| + 2 + |words[0]| <= 78 ==> Fits(fs, |name| + 2))
            && (OnlyWsp(Trim(body)) && Fits(fs, |name| + 2) ==> |name| + 2 + |words[0]| <= 78)
  {
    hide Fragments, Trim, IsFoldingFrom, Words;
    var b, written := Trim(body), |name| + 2;
    TrimTrimmed(b);
    SameFragments(body, b, written);
    assert b[0..] == b;
    FirstLine(b, written);
    var x, y, c := GreedyStep(b, 0, written);
    FragmentsStep(b, written);
    var fs := Fragments(b, written);
    GreedyAhead(b, 0, x + c, 0, other);
    if Fits(other, 0) && |fs[0]| <= COLUMNS - Indent(written) {
      FitsCons(fs, written);
    }
  }

  /** One word a line is a folding. */
  lemma {:induction false} WordPerLine(s: string, p: nat)
    requires p <= |s|
    ensures IsFoldingFrom(s, p, WordsFrom(s, p))
    decreases |s| - p
  {
    var i := SkipWsp(s, p);
    if i < |s| {
      var j := SkipWord(s, i);
      SkippedWord(s, i);
      WordPerLine(s, j);
      assert WordsFrom(s, p)[1..] == WordsFrom(s, j);
    }
  }

  /** If every word fits, then all lines have at most 78 columns. */
  lemma LinesFit(name: string, body: string)
    requires |name| <= 995
    requires WordsFit(Words(Trim(body)), 76 - |name|, 77)
    ensures forall line <- Lines(name, body) :: |line| <= 78 || Trim(body) == ""
  {
    hide Fragments, Trim, IsFoldingFrom;
    WordPerLine(Trim(body), 0);
    var fs := Fragments(body, |name| + 2);
    FittingFits(Words(Trim(body)), |name| + 2);
    FoldingIsOptimal(name, body, Words(Trim(body)));
    forall line | line in Lines(name, body) && fs != []
      ensures |line| <= COLUMNS
    {
      var i :| 0 <= i < |fs| && line == LinesOf(name, fs)[i];
      assert i > 0 ==> fs[1..][i - 1] == fs[i];
    }
  }
}
