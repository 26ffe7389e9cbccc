/** Unfolding gives back what was folded. */
module FoldLossless {
  import opened Fold
  import opened FoldOptimal
  import opened Splitting
  import opened Text

  /** The pieces joined by one space, which is what unfolding makes of the lines. */
  function Unfolded(fs: seq<string>): string {
    Join(fs, " ")
  }

  /** SP and TAB never stand next to CR, LF, VT or FF. This holds in particular where there is none of these. */
  predicate WspApart(s: string) {
    forall i | 0 <= i < |s| - 1 && IsSpace(s[i]) && IsSpace(s[i + 1]) :: IsWsp(s[i]) == IsWsp(s[i + 1])
  }

  /** Within the hard limit there is a place to fold, so that no word is broken. */
  lemma CropAtWsp(b: string, indent: nat, i: nat)
    requires b != "" && !IsSpace(b[0]) && 0 < indent < LINE_LIMIT
    requires 1 <= i <= |b| && i <= LINE_LIMIT - indent && (i < |b| ==> IsWsp(b[i]))
    ensures Crop(b, indent) == |b| || IsWsp(b[Crop(b, indent)])
  {
    AfterLastWsp(b, COLUMNS - indent);
    BeforeFirstWsp(b, COLUMNS + 1 - indent, LINE_LIMIT - indent);
  }

  /** White space of one kind around a text. */
  lemma {:induction false} SameKind(s: string, i: nat, j: nat, up: bool)
    requires i <= j < |s| && WspApart(s) && forall k | i <= k <= j :: IsSpace(s[k])
    requires IsWsp(s[if up then i else j])
    ensures forall k | i <= k <= j :: IsWsp(s[k])
    decreases j - i
  {
    if i < j {
      if up {
        assert IsWsp(s[i + 1]);
        SameKind(s, i + 1, j, up);
      } else {
        assert IsWsp(s[j - 1]);
        SameKind(s, i, j - 1, up);
      }
    }
  }

  /** Text starts behind the SP and TAB at a separator. */
  lemma TextStart(s: string, p: nat, b: nat)
    requires p <= b < |s| && WspApart(s) && !IsSpace(s[b]) && forall k | p <= k < b :: IsSpace(s[k])
    requires p == b || IsWsp(s[p])
    ensures SkipWsp(s, p) == b
  {
    if p < b {
      SameKind(s, p, b - 1, true);
    }
    SkipWspThrough(s, p, b);
  }

  lemma NothingLeft(s: string, p: nat)
    requires p <= |s| && WspApart(s) && forall k | p <= k < |s| :: IsSpace(s[k])
    requires p < |s| ==> IsWsp(s[p])
    ensures SkipWsp(s, p) == |s|
  {
    if p < |s| {
      SameKind(s, p, |s| - 1, true);
    }
    SkipWspThrough(s, p, |s|);
  }

  /** A line ends where the text before the fold ends. */
  lemma PieceEnd(s: string, b: nat, c: nat) returns (j: nat)
    requires b < c <= |s| && WspApart(s) && !IsSpace(s[b]) && (c < |s| ==> IsWsp(s[c]))
    requires c == |s| ==> !IsSpace(s[|s| - 1])
    ensures b < j <= c && Trim(s[b..c]) == s[b..j] && !IsSpace(s[j - 1])
    ensures forall k | j <= k < c :: IsWsp(s[k])
  {
    hide Trim, IsWsp;
    var t := s[b..c];
    var x, y := TrimParts(t);
    assert t[0] == s[b];
    j := b + y;
    assert x == 0 && t[x..y] == s[b..j];
    assert Trim(t)[y - 1] == s[j - 1];
    forall k | j <= k < c
      ensures IsSpace(s[k])
    {
      assert t[k - b] == s[k];
    }
    if j < c {
      SameKind(s, j, if c < |s| then c else c - 1, false);
    }
  }

  lemma FoldingFromSame(s: string, i: nat, j: nat, lines: seq<string>)
    requires i <= |s| && j <= |s| && SkipWsp(s, i) == SkipWsp(s, j) && IsFoldingFrom(s, i, lines)
    ensures IsFoldingFrom(s, j, lines)
  {
  }

  lemma FoldingCons(s: string, p: nat, j: nat, lines: seq<string>)
    requires p <= |s| && lines != [] && SkipWsp(s, p) < j <= |s| && lines[0] == s[SkipWsp(s, p)..j]
    requires !IsWsp(s[j - 1]) && (j < |s| ==> IsWsp(s[j])) && IsFoldingFrom(s, j, lines[1..])
    ensures IsFoldingFrom(s, p, lines)
  {
    assert |lines[0]| == j - SkipWsp(s, p);
  }

  /** What `headerWritelnFold` makes of `s[p..]` is a folding of it as RFC 5322 has it, if no word exceeds the hard
      limit. */
  lemma {:induction false} GreedyIsFoldingFrom(s: string, p: nat, written: nat)
    requires p <= |s| && written < LINE_LIMIT && WspApart(s) && s != "" && !IsSpace(s[0]) && !IsSpace(s[|s| - 1])
    requires p == 0 || p == |s| || IsWsp(s[p])
    requires WordsFit(WordsFrom(s, p), LINE_LIMIT - Indent(written), LINE_LIMIT - 1)
    ensures IsFoldingFrom(s, p, Fragments(s[p..], written))
    decreases |s| - p
  {
    hide Trim, Fragments, IsFoldingFrom, Crop, WordsFrom, WspApart;
    var b, e := TextFrom(s, p);
    var fs := Fragments(s[p..], written);
    if b == e {
      NothingLeft(s, p);
      FragmentsStep(s[p..], written);
      FoldingNil(s, p);
    } else {
      TextStart(s, p, b);
      assert e == |s|;
      NextFragments(s, p, b, e, written);
      NextPiece(s, p, b, written);
      var c := NextCrop(s, p, b, written);
      var j := PieceEnd(s, b, b + c);
      WordsFitLater(s, p, b + c, LINE_LIMIT - Indent(written), LINE_LIMIT - 1);
      GreedyIsFoldingFrom(s, b + c, 0);
      SkipWspThrough(s, j, b + c);
      FoldingFromSame(s, b + c, j, fs[1..]);
      FoldingCons(s, p, j, fs);
    }
  }

  lemma FoldingNil(s: string, p: nat)
    requires p <= |s| && SkipWsp(s, p) == |s|
    ensures IsFoldingFrom(s, p, [])
  {
  }

  lemma NextPiece(s: string, p: nat, b: nat, written: nat)
    requires p <= b < |s| && written < LINE_LIMIT && !IsSpace(s[b]) && Trim(s[p..]) == s[b..|s|]
    ensures Fragments(s[p..], written) != []
    ensures Fragments(s[p..], written)[0] == Trim(s[b..b + Crop(s[b..|s|], Indent(written))])
  {
    hide Trim, Fragments;
    FragmentsStep(s[p..], written);
    var t := s[b..|s|];
    assert t[0] == s[b];
    var c := Crop(t, Indent(written));
    assert t[..c] == s[b..b + c];
  }

  lemma NextCrop(s: string, p: nat, b: nat, written: nat) returns (c: nat)
    requires p <= b < |s| && written < LINE_LIMIT && !IsSpace(s[b]) && SkipWsp(s, p) == b
    requires WordsFit(WordsFrom(s, p), LINE_LIMIT - Indent(written), LINE_LIMIT - 1)
    ensures s[b..|s|][0] == s[b] && c == Crop(s[b..|s|], Indent(written))
    ensures 1 <= c <= |s| - b && (b + c < |s| ==> IsWsp(s[b + c]))
  {
    var t := s[b..|s|];
    assert t[0] == s[b];
    c := Crop(t, Indent(written));
    var i := SkipWord(s, b);
    assert WordsFrom(s, p)[0] == s[b..i];
    if i < |s| {
      assert t[i - b] == s[i];
    }
    CropAtWsp(t, Indent(written), i - b);
    if c < |t| {
      assert t[c] == s[b + c];
    }
  }

  /** Main result: if SP and TAB stand apart from other white space and no word exceeds the hard limit
      (beside the name for the first word), folding only ever breaks lines at SP and TAB. */
  lemma GreedyIsFolding(name: string, body: string)
    requires |name| <= 995 && WspApart(Trim(body))
    requires WordsFit(Words(Trim(body)), 996 - |name|, 997)
    ensures IsFolding(Trim(body), Fragments(body, |name| + 2))
  {
    hide Trim, Fragments, IsFoldingFrom;
    var b := Trim(body);
    TrimTrimmed(b);
    SameFragments(body, b, |name| + 2);
    if b == "" {
      FragmentsStep(body, |name| + 2);
      FoldingNil(b, 0);
    } else {
      assert b[0..] == b;
      GreedyIsFoldingFrom(b, 0, |name| + 2);
    }
  }

  lemma FoldingEnd(s: string, p: nat, lines: seq<string>)
    requires p <= |s| && SkipWsp(s, p) == |s| && IsFoldingFrom(s, p, lines)
    ensures lines == []
  {
  }

  lemma OneWordAtEnd(s: string, i: nat, j: nat)
    requires i < j <= |s|
    ensures Words(s[i..j]) == WordsFrom(s[..j], i)
  {
    assert s[..j] == s[..i] + s[i..j];
    WordsAfter(s[..i], s[i..j], 0);
  }

  /** Unfolding any folding gives the same words. */
  lemma {:induction false} FoldingKeepsWords(s: string, p: nat, lines: seq<string>)
    requires p <= |s| && IsFoldingFrom(s, p, lines)
    ensures Words(Unfolded(lines)) == WordsFrom(s, p)
    decreases |lines|
  {
    hide WordsFrom;
    var i := SkipWsp(s, p);
    WordsStep(s, p);
    if lines == [] {
      WordsStep("", 0);
    } else {
      var j := i + |lines[0]|;
      FoldingKeepsWords(s, j, lines[1..]);
      LineWords(s, i, j);
      SkipWspThrough(s, p, i) by { SkippedWsp(s, p); }
      SameWords(s, p, i);
      if |lines| == 1 {
        WordsStep("", 0);
        assert WordsFrom(s, i) == Words(lines[0]) + [] == Words(lines[0]);
      } else {
        var rest := Unfolded(lines[1..]);
        assert lines[0] + " " + rest == lines[0] + (" " + rest);
        WordsConcat(lines[0], " " + rest);
        LeadingSpace(rest);
      }
    }
  }

  lemma LeadingSpace(s: string)
    ensures Words(" " + s) == Words(s)
  {
    WordsAfter(" ", s, 0);
    SkipWspThrough(" " + s, 0, 1);
    SameWords(" " + s, 0, 1);
  }

  lemma LineWords(s: string, i: nat, j: nat)
    requires i < j <= |s| && (j < |s| ==> IsWsp(s[j]))
    ensures WordsFrom(s, i) == Words(s[i..j]) + WordsFrom(s, j)
  {
    hide WordsFrom;
    OneWordAtEnd(s, i, j);
    assert s[..j] + s[j..] == s;
    WordsConcatFrom(s[..j], s[j..], i);
    WordsAfter(s[..j], s[j..], 0);
  }

  /** Words separated by single spaces, without any other SP or TAB. */
  predicate SingleSpaced(s: string) {
    && Trimmed(s)
    && forall i | 0 <= i < |s| && IsWsp(s[i]) ::
       s[i] == ' ' && 0 < i < |s| - 1 && !IsSpace(s[i - 1]) && !IsSpace(s[i + 1])
  }

  /** Unfolding any folding of a single-spaced text gives the text. */
  lemma {:induction false} FoldingOfSingleSpaced(s: string, p: nat, lines: seq<string>)
    requires p <= |s| && IsFoldingFrom(s, p, lines) && SingleSpaced(s)
    ensures Unfolded(lines) == s[SkipWsp(s, p)..]
    decreases |lines|
  {
    var i := SkipWsp(s, p);
    if lines != [] {
      var j := i + |lines[0]|;
      FoldingOfSingleSpaced(s, j, lines[1..]);
      if j == |s| {
        FoldingEnd(s, j, lines[1..]);
        assert s[i..j] == s[i..];
      } else {
        assert SkipWsp(s, j) == SkipWsp(s, j + 1) == j + 1;
        assert lines[1..] != [];
        assert s[i..] == s[i..j] + " " + s[j + 1..];
      }
    }
  }

  /** Main result: unfolding the printed lines gives the words of the body, in order and unbroken, and
      the body itself (without the white space around it) if it was single-spaced. */
  lemma UnfoldingRestores(name: string, body: string)
    requires |name| <= 995 && WspApart(Trim(body))
    requires WordsFit(Words(Trim(body)), 996 - |name|, 997)
    ensures Words(Unfolded(Fragments(body, |name| + 2))) == Words(Trim(body))
    ensures SingleSpaced(Trim(body)) ==> Unfolded(Fragments(body, |name| + 2)) == Trim(body)
  {
    GreedyIsFolding(name, body);
    var b, fs := Trim(body), Fragments(body, |name| + 2);
    FoldingKeepsWords(b, 0, fs);
    if SingleSpaced(b) {
      FoldingOfSingleSpaced(b, 0, fs);
      assert b != "" ==> SkipWsp(b, 0) == 0;
      assert b[0..] == b;
    }
  }

  lemma SingleSpacedApart(s: string)
    requires SingleSpaced(s)
    ensures WspApart(s) && Trim(s) == s
  {
    TrimTrimmed(s);
  }
}
