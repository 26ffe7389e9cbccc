/** When folding what was folded and unfolded gives the same lines. */
module Refolding {
  import opened Fold
  import opened FoldExact
  import opened FoldLossless
  import opened FoldOptimal
  import opened FoldShape
  import opened Reader
  import opened Splitting
  import opened Text

  /** No line has room for a space and the first word of the next line. */
  predicate Tight(fs: seq<string>, indent: nat) {
    forall i | 0 <= i < |fs| - 1 :: (if i == 0 then indent else 1) + |fs[i]| + 1 + SkipWord(fs[i + 1], 0) > 78
  }

  lemma TightCons(fs: seq<string>, indent: nat)
    requires |fs| > 1
    ensures Tight(fs, indent) <==> indent + |fs[0]| + 1 + SkipWord(fs[1], 0) > COLUMNS && Tight(fs[1..], 1)
  {
    assert forall i | 1 <= i < |fs| - 1 :: fs[i] == fs[1..][i - 1] && fs[i + 1] == fs[1..][i];
    assert fs[1..][0] == fs[1];
  }

  lemma AllGoodTail(fs: seq<string>, indent: nat)
    requires |fs| > 1 && AllGood(fs, indent)
    ensures GoodFragment(fs[0], indent) && AllGood(fs[1..], 1)
  {
    assert forall i | 0 <= i < |fs| - 1 :: fs[1..][i] == fs[i + 1];
  }

  /** How the unfolded lines begin: with the first line, and with a SP behind it if there are more. */
  lemma UnfoldedStart(fs: seq<string>)
    requires fs != [] && fs[0] != "" && Trimmed(fs[0])
    ensures var u, n, w := Unfolded(fs), |fs[0]|, SkipWord(fs[0], 0);
            && n <= |u| && u[..n] == fs[0] && (n < |u| ==> u[n] == ' ')
            && 1 <= w <= n && (w < |u| ==> IsWsp(u[w])) && forall k | 0 <= k < w :: !IsWsp(u[k])
  {
    SkippedWord(fs[0], 0);
    assert Unfolded(fs)[..|fs[0]|] == fs[0];
    assert forall k | 0 <= k < |fs[0]| :: Unfolded(fs)[k] == fs[0][k];
  }

  /** A line that is good fills the line. */
  lemma GoodLineStays(f: string, written: nat)
    requires written < LINE_LIMIT && GoodFragment(f, Indent(written))
    ensures Fragments(f, written) == [f]
  {
    hide Fragments, Trim;
    AfterLastWsp(f, COLUMNS - Indent(written));
    assert Crop(f, Indent(written)) == |f|;
    NextLine(f, written);
  }

  /** Where the crop must be. */
  lemma CropIs(u: string, indent: nat, c: nat)
    requires u != "" && !IsSpace(u[0]) && 0 < indent < LINE_LIMIT && 1 <= c < |u| && c <= LINE_LIMIT - indent
    requires IsWsp(u[c]) && |u| > COLUMNS - indent
    requires forall i | c < i < |u| && i <= COLUMNS - indent :: !IsWsp(u[i])
    requires c > COLUMNS - indent ==> forall i | 1 <= i < c :: !IsWsp(u[i])
    ensures Crop(u, indent) == c
  {
    AfterLastWsp(u, COLUMNS - indent);
    BeforeFirstWsp(u, COLUMNS + 1 - indent, LINE_LIMIT - indent);
  }

  /** If there is room for the first word of the next line, it is taken as well. */
  lemma CropTakesMore(u: string, indent: nat, n: nat)
    requires u != "" && !IsSpace(u[0]) && 0 < indent < LINE_LIMIT && 1 <= n <= |u| && n <= COLUMNS - indent
    requires n < |u| ==> IsWsp(u[n])
    ensures Crop(u, indent) >= n
  {
    AfterLastWsp(u, COLUMNS - indent);
  }

  lemma LongerPiece(u: string, n: nat, c: nat)
    requires n < c <= |u| && !IsSpace(u[0]) && !IsSpace(u[n])
    ensures |Trim(u[..c])| > n
  {
    var i, j := TrimParts(u[..c]);
    assert u[..c][0] == u[0] && u[..c][n] == u[n];
  }

  lemma SpaceBefore(s: string)
    requires Trimmed(s)
    ensures Trim(" " + s) == Trim(s)
  {
    TrimTrimmed(s);
    assert (" " + s)[1..|s| + 1] == s;
    TrimIs(" " + s, 1, |s| + 1);
  }

  /** Lines of the kind that folding makes come out again exactly if they are tight. */
  lemma {:induction false} FoldsAgain(fs: seq<string>, written: nat)
    requires fs != [] && written < LINE_LIMIT && AllGood(fs, Indent(written))
    ensures Fragments(Unfolded(fs), written) == fs <==> Tight(fs, Indent(written))
    decreases |fs|
  {
    hide Trim, Fragments, Crop, Unbreakable;
    var indent := Indent(written);
    if |fs| == 1 {
      GoodLineStays(fs[0], written);
    } else {
      AllGoodTail(fs, indent);
      TightCons(fs, indent);
      var later, n, w := Unfolded(fs[1..]), |fs[0]|, SkipWord(fs[1], 0);
      var u := fs[0] + " " + later;
      assert Unfolded(fs) == u && fs[1..][0] == fs[1];
      UnfoldedStart(fs[1..]);
      UnfoldedEnds(fs[1..]);
      assert u[0] == fs[0][0] && u[|u| - 1] == later[|later| - 1] && u[n] == ' ' && u[n + 1] == later[0];
      NextLine(u, written);
      if indent + n + 1 + w > COLUMNS {
        TightCrop(fs[0], later, indent, w);
        assert u[..n] == fs[0] && u[n..] == " " + later;
        TrimTrimmed(fs[0]);
        SpaceBefore(later);
        SameFragments(u[n..], later, 0);
        FoldsAgain(fs[1..], 0);
      } else {
        assert w < |later| ==> u[n + 1 + w] == later[w];
        CropTakesMore(u, indent, n + 1 + w);
        CropBounds(u, indent);
        LongerPiece(u, n + 1, Crop(u, indent));
      }
    }
  }

  lemma UnfoldedEnds(fs: seq<string>)
    requires fs != [] && AllGood(fs, 1)
    ensures Unfolded(fs) != "" && Trimmed(Unfolded(fs))
  {
    UnfoldedTrimmed(fs);
  }

  lemma TightCrop(f: string, later: string, indent: nat, w: nat)
    requires 0 < indent < LINE_LIMIT && GoodFragment(f, indent) && indent + |f| + 1 + w > COLUMNS
    requires 1 <= w <= |later| && forall k | 0 <= k < w :: !IsWsp(later[k])
    ensures var u := f + " " + later;
            u != "" && !IsSpace(u[0]) && Crop(u, indent) == |f|
  {
    hide Crop;
    var u, n := f + " " + later, |f|;
    assert forall i | 0 <= i < n :: u[i] == f[i];
    assert forall i | n < i < |u| :: u[i] == later[i - n - 1];
    CropIs(u, indent, n);
  }

  /** Main result on folding twice: for every non-blank body, folding it, unfolding it and folding it again gives the
      same lines exactly if they are tight. */
  lemma FoldingTwice(body: string, written: nat)
    requires written < LINE_LIMIT && Trim(body) != ""
    ensures var fs := Fragments(body, written);
            Fragments(Unfolded(fs), written) == fs <==> Tight(fs, Indent(written))
  {
    hide Trim, Fragments, Tight;
    FragmentsShape(body, written);
    FoldsAgain(Fragments(body, written), written);
  }

  /** The break of `b` at `c`, which is a SP or in a word that is too long, and the text behind it. */
  function Behind(b: string, c: nat): string
    requires c < |b|
  {
    if IsWsp(b[c]) then b[c + 1..] else b[c..]
  }

  lemma BreakAt(b: string, c: nat)
    requires SingleSpaced(b) && OnlyWsp(b) && 0 < c < |b|
    ensures var rest := Behind(b, c);
            rest != "" && SingleSpaced(rest) && OnlyWsp(rest) && Trim(b[c..]) == Trim(rest) == rest
    ensures !IsSpace(b[c - 1]) ==> Trim(b[..c]) == b[..c]
  {
    hide Trim;
    var rest := Behind(b, c);
    if IsWsp(b[c]) {
      SoftBreak(b, c);
    }
    PartSingleSpaced(b, |b| - |rest|, |b|);
    assert b[|b| - |rest|..|b|] == rest;
    TrimTrimmed(rest);
    if !IsSpace(b[c - 1]) {
      assert b[..c][0] == b[0] && b[..c][c - 1] == b[c - 1];
      TrimTrimmed(b[..c]);
    }
  }

  /** What the crop does: it takes the last SP in the columns, or else the first behind them, or all that the hard limit
      allows. */
  lemma CropCases(b: string, indent: nat)
    requires b != "" && SingleSpaced(b) && OnlyWsp(b) && 0 < indent < LINE_LIMIT && Crop(b, indent) < |b|
    ensures var c := Crop(b, indent);
            && |b| > COLUMNS - indent && !IsSpace(b[c - 1])
            && (forall i | c < i < |b| && i <= COLUMNS - indent :: !IsWsp(b[i]))
            && (c > COLUMNS - indent ==> forall i | 1 <= i < c :: !IsWsp(b[i]))
            && (!IsWsp(b[c]) ==> c == LINE_LIMIT - indent)
  {
    AfterLastWsp(b, COLUMNS - indent);
    BeforeFirstWsp(b, COLUMNS + 1 - indent, LINE_LIMIT - indent);
  }

  /** Lines of a single-spaced text without VT and FF are tight, even where the hard limit breaks a word. */
  lemma {:induction false} SingleSpacedIsTight(b: string, written: nat)
    requires b != "" && SingleSpaced(b) && OnlyWsp(b) && written < LINE_LIMIT
    ensures Tight(Fragments(b, written), Indent(written))
    decreases |b|
  {
    hide Trim, Fragments, Crop, SingleSpaced, OnlyWsp;
    SingleSpacedEnds(b);
    NextLine(b, written);
    var c, fs := Crop(b, Indent(written)), Fragments(b, written);
    CropBounds(b, Indent(written));
    if c < |b| {
      BreakAt(b, c);
      CropCases(b, Indent(written));
      var rest := Behind(b, c);
      SameFragments(b[c..], rest, 0);
      SingleSpacedIsTight(rest, 0);
      TightCons(fs, Indent(written));
      if IsWsp(b[c]) {
        NextWordIsFar(b, c, Indent(written), fs[1]);
      }
    }
  }

  /** Behind a break at a SP comes a line whose first word reaches beyond the columns. */
  lemma NextWordIsFar(b: string, c: nat, indent: nat, next: string)
    requires SingleSpaced(b) && OnlyWsp(b) && 0 < indent && 0 < c < |b| && IsWsp(b[c]) && |b| > COLUMNS - indent
    requires forall i | c < i < |b| && i <= COLUMNS - indent :: !IsWsp(b[i])
    requires Fragments(Behind(b, c), 0) != [] && next == Fragments(Behind(b, c), 0)[0]
    ensures indent + c + 1 + SkipWord(next, 0) > COLUMNS
  {
    hide Crop, SingleSpaced, OnlyWsp, Fragments, Trim;
    BreakAt(b, c);
    var rest := Behind(b, c);
    SingleSpacedEnds(rest);
    NextLine(rest, 0);
    var k := Crop(rest, 1);
    CropBounds(rest, 1);
    assert forall i | 0 <= i < |rest| :: rest[i] == b[c + 1 + i];
    if k < |rest| {
      BreakAt(rest, k);
      CropCases(rest, 1);
    } else {
      assert rest[..k] == rest;
    }
    assert next == rest[..k];
    var w := SkipWord(next, 0);
    assert w < |next| ==> next[w] == rest[w];
  }

  /** The lines of the field are tight. */
  predicate Settled(f: Field) {
    |f.name| <= NAME_LIMIT ==> Tight(Fragments(f.value, |f.name| + 2), |f.name| + 2)
  }

  predicate AllSettled(fields: seq<Field>) {
    forall i | 0 <= i < |fields| :: Settled(fields[i])
  }

  /** Fields that come back as they are, and clean ones without VT and FF, are settled. */
  lemma SettledFields(f: Field)
    requires Clean(f) && (Printable(f) || OnlyWsp(f.value))
    ensures Settled(f)
  {
    hide Fragments, Trim, Unfolded, SingleSpaced, OneLine, OnlyWsp, Tight;
    CleanIsLegible(f);
    if Printable(f) {
      PrintableRereads(f);
      FoldingTwice(f.value, |f.name| + 2);
    } else {
      SingleSpacedIsTight(f.value, |f.name| + 2);
    }
  }

  /** What was read of a legible field is legible. */
  lemma RereadIsLegible(f: Field)
    requires Legible(f)
    ensures Legible(Reread(f)) && Reread(f).name == f.name
  {
    hide Fragments, Trim, Unfolded;
    var fs := Fragments(f.value, |f.name| + 2);
    PiecesTrimmed(f.value, |f.name| + 2);
    UnfoldedTrimmed(fs);
    FragmentsOneLine(f.value, |f.name| + 2);
    UnfoldedOneLine(fs);
    TrimTrimmed(Unfolded(fs));
  }

  lemma {:induction false} UnfoldedOneLine(fs: seq<string>)
    requires AllOneLine(fs)
    ensures OneLine(Unfolded(fs))
  {
    if fs != [] {
      assert fs[0] in fs && forall f <- fs[1..] :: f in fs;
      UnfoldedOneLine(fs[1..]);
    }
  }

  /** The lines of a field can be told from its text. */
  lemma {:induction false} LedIsInjective(a: seq<string>, b: seq<string>)
    requires a != [] && b != [] && AllOneLine(a) && AllOneLine(b) && a[0] + Led(a[1..]) == b[0] + Led(b[1..])
    ensures a == b
    decreases |a|
  {
    var s, t := a[0] + Led(a[1..]), b[0] + Led(b[1..]);
    assert a[0] in a && b[0] in b && (forall f <- a[1..] :: f in a) && (forall f <- b[1..] :: f in b);
    FirstEnds(a);
    FirstEnds(b);
    assert |a[0]| == |b[0]|;
    assert a[0] == s[..|a[0]|] == b[0] && Led(a[1..]) == s[|a[0]|..] == Led(b[1..]);
    if |a| > 1 && |b| > 1 {
      var x, y := a[1] + Led(a[2..]), b[1] + Led(b[2..]);
      assert a[1..][1..] == a[2..] && b[1..][1..] == b[2..];
      assert Led(a[1..]) == (CRLF + " ") + x && Led(b[1..]) == (CRLF + " ") + y;
      assert x == Led(a[1..])[3..] && y == Led(b[1..])[3..];
      LedIsInjective(a[1..], b[1..]);
    }
    assert a == [a[0]] + a[1..] && b == [b[0]] + b[1..];
  }

  lemma FirstEnds(fs: seq<string>)
    requires fs != [] && AllOneLine(fs)
    ensures var s := fs[0] + Led(fs[1..]);
            && (|s| == |fs[0]| || s[|fs[0]|] == '\r') && (|s| == |fs[0]| <==> |fs| == 1)
            && forall i | 0 <= i < |fs[0]| :: s[i] != '\r'
  {
    assert fs[0] in fs;
  }

  /** A field is printed the same again exactly if it is settled. */
  lemma PrintsSameAgain(f: Field)
    requires Legible(f)
    ensures FieldText(f.name, Reread(f).value) == FieldText(f.name, f.value) <==> Settled(f)
  {
    hide Fragments, Trim, Unfolded, OneLine, FieldText, Tight;
    var written := |f.name| + 2;
    FoldingTwice(f.value, written);
    RereadIsLegible(f);
    FoldedIs(f);
    FoldedIs(Reread(f));
    var a, b := Fragments(f.value, written), Fragments(Reread(f).value, written);
    FragmentsOneLine(f.value, written);
    FragmentsOneLine(Reread(f).value, written);
    if FieldText(f.name, Reread(f).value) == FieldText(f.name, f.value) {
      SameFolded(f.name, a, b);
    }
  }

  lemma SameFolded(name: string, a: seq<string>, b: seq<string>)
    requires a != [] && b != [] && AllOneLine(a) && AllOneLine(b)
    requires (name + ": " + a[0]) + Led(a[1..]) + CRLF == (name + ": " + b[0]) + Led(b[1..]) + CRLF
    ensures a == b
  {
    var n, x, y := name + ": ", a[0] + Led(a[1..]), b[0] + Led(b[1..]);
    assert (name + ": " + a[0]) + Led(a[1..]) + CRLF == n + x + CRLF;
    assert (name + ": " + b[0]) + Led(b[1..]) + CRLF == n + y + CRLF;
    assert x == (n + x + CRLF)[|n|..|n| + |x|] && y == (n + y + CRLF)[|n|..|n| + |y|];
    LedIsInjective(a, b);
  }

  /** What was read prints the same text exactly if all fields are settled. */
  lemma {:induction false} AllPrintSameAgain(fields: seq<Field>)
    requires AllLegible(fields)
    ensures AllLegible(RereadAll(fields))
    ensures HeaderText(RereadAll(fields)) == HeaderText(fields) <==> AllSettled(fields)
  {
    hide Settled, FieldText, Trim, OneLine, Fragments, Unfolded;
    if fields != [] {
      var f, g := fields[0], Reread(fields[0]);
      TailLegible(fields);
      RereadIsLegible(f);
      AllPrintSameAgain(fields[1..]);
      RereadStep(fields);
      var read := RereadAll(fields);
      assert read[1..] == RereadAll(fields[1..]);
      assert forall i | 0 < i < |fields| :: read[i] == read[1..][i - 1] && fields[i] == fields[1..][i - 1];
      PrintsSameAgain(f);
      if HeaderText(read) == HeaderText(fields) {
        SameFirst(f, g, HeaderText(fields[1..]), HeaderText(read[1..])) by {
          HeaderStart(fields[1..], "");
          HeaderStart(read[1..], "");
          assert HeaderText(fields[1..]) + "" == HeaderText(fields[1..]);
          assert HeaderText(read[1..]) + "" == HeaderText(read[1..]);
        }
      }
    }
  }

  /** The text of the first field can be told from that of the others. */
  lemma SameFirst(f: Field, g: Field, rest: string, rest': string)
    requires Legible(f) && Legible(g) && rest != "" && !IsWsp(rest[0]) && rest' != "" && !IsWsp(rest'[0])
    requires FieldText(f.name, f.value) + rest == FieldText(g.name, g.value) + rest'
    ensures FieldText(f.name, f.value) == FieldText(g.name, g.value) && rest == rest'
  {
    hide FieldText, Trim, OneLine, FieldLength, Unfold, ParseField;
    FieldReads(f, rest);
    FieldReads(g, rest');
    var s, t := FieldText(f.name, f.value), FieldText(g.name, g.value);
    assert s == (s + rest)[..|s|] && t == (t + rest')[..|t|];
    assert rest == (s + rest)[|s|..] && rest' == (t + rest')[|t|..];
  }
}
