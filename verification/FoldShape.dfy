/** What every folded line looks like, and that folding keeps all visible bytes. */
module FoldShape {
  import opened Fold
  import opened Text

  /** No SP and no TAB, so that RFC 5322 offers no place to fold. */
  predicate Unbreakable(s: string) {
    forall i | 0 <= i < |s| :: !IsWsp(s[i])
  }

  /** `f` is fit for a line that has `indent` bytes before it. */
  predicate GoodFragment(f: string, indent: nat) {
    && f != "" && Trimmed(f)
    && indent + |f| <= LINE_LIMIT
    && (indent + |f| > COLUMNS ==> Unbreakable(f))
  }

  lemma PieceShape(b: string, written: nat)
    requires b != "" && Trimmed(b) && written < LINE_LIMIT
    ensures GoodFragment(Piece(b, written), Indent(written))
  {
    var c := Crop(b, Indent(written));
    var f := Piece(b, written);
    var i, j := TrimParts(b[..c]);
    assert b[..c][0] == b[0];
    if |b| > COLUMNS - Indent(written) && LastWsp(b, COLUMNS - Indent(written)) == -1 {
      AfterLastWsp(b, COLUMNS - Indent(written));
      BeforeFirstWsp(b, COLUMNS + 1 - Indent(written), LINE_LIMIT - Indent(written));
      forall k | 0 <= k < |f|
        ensures !IsWsp(f[k])
      {
        assert f[k] == b[i + k];
      }
    }
  }

  predicate AllGood(fs: seq<string>, first: nat) {
    forall i | 0 <= i < |fs| :: GoodFragment(fs[i], if i == 0 then first else 1)
  }

  lemma AllGoodCons(fs: seq<string>, first: nat)
    requires fs != [] && GoodFragment(fs[0], first) && AllGood(fs[1..], 1)
    ensures AllGood(fs, first)
  {
    forall i | 0 < i < |fs|
      ensures GoodFragment(fs[i], 1)
    {
      assert fs[i] == fs[1..][i - 1];
    }
  }

  lemma {:induction false} FragmentsShape(body: string, written: nat)
    requires written < LINE_LIMIT
    ensures AllGood(Fragments(body, written), Indent(written))
    decreases |body|
  {
    FragmentsStep(body, written);
    var b := Trim(body);
    if b != "" {
      PieceShape(b, written);
      FragmentsShape(After(b, written), 0);
      AllGoodCons(Fragments(body, written), Indent(written));
    }
  }

  function Ended(lines: seq<string>): string {
    if lines == [] then "" else lines[0] + CRLF + Ended(lines[1..])
  }

  lemma {:induction false} ContinuationLines(fs: seq<string>)
    ensures Continuation(fs) == Ended(LaterLines(fs))
  {
    if fs != [] {
      ContinuationLines(fs[1..]);
      assert LaterLines(fs)[1..] == LaterLines(fs[1..]);
    }
  }

  /** The printed field is its lines, each ended by CRLF. */
  lemma FieldTextLines(name: string, body: string)
    requires |name| <= NAME_LIMIT && Trim(body) != ""
    ensures FieldText(name, body) == Ended(Lines(name, body))
  {
    TextOfLines(name, Fragments(body, |name| + 2));
  }

  lemma TextOfLines(name: string, fs: seq<string>)
    requires fs != []
    ensures name + ": " + ("" + fs[0] + CRLF + Continuation(fs[1..])) == Ended(LinesOf(name, fs))
  {
    ContinuationLines(fs[1..]);
    assert LinesOf(name, fs)[1..] == LaterLines(fs[1..]);
    var rest := Continuation(fs[1..]);
    assert name + ": " + ("" + fs[0] + CRLF + rest) == name + ": " + fs[0] + CRLF + rest;
  }

  /** Main result on line shape. The first line carries the name; every line after it is one space and
      then text that begins and ends with a visible byte; no line has more than 998 bytes; and a line of
      more than 78 bytes holds text in which there was no SP or TAB to fold at. */
  lemma LineShape(name: string, body: string, i: nat)
    requires |name| <= 995 && Trim(body) != "" && i < |Lines(name, body)|
    ensures |Lines(name, body)| == |Fragments(body, |name| + 2)|
    ensures var line, f := Lines(name, body)[i], Fragments(body, |name| + 2)[i];
            && line == (if i == 0 then name + ": " else " ") + f
            && f != "" && !IsSpace(f[0]) && !IsSpace(f[|f| - 1])
            && |line| <= 998
            && (|line| > 78 ==> Unbreakable(f))
  {
    FragmentsShape(body, |name| + 2);
    GoodLine(name, Fragments(body, |name| + 2), i);
  }

  lemma GoodLine(name: string, fs: seq<string>, i: nat)
    requires i < |fs| && AllGood(fs, |name| + 2)
    ensures var line, f := LinesOf(name, fs)[i], fs[i];
            && line == (if i == 0 then name + ": " else " ") + f
            && f != "" && !IsSpace(f[0]) && !IsSpace(f[|f| - 1])
            && |line| <= LINE_LIMIT
            && (|line| > COLUMNS ==> Unbreakable(f))
  {
    if i > 0 {
      assert fs[1..][i - 1] == fs[i];
    }
  }

  /** The bytes of `s` that are not white space, in order. */
  function Visible(s: string): string {
    if s == "" then "" else (if IsSpace(s[0]) then "" else [s[0]]) + Visible(s[1..])
  }

  lemma {:induction false} VisibleConcat(a: string, b: string)
    ensures Visible(a + b) == Visible(a) + Visible(b)
  {
    if a == "" {
      assert a + b == b;
    } else {
      hide IsSpace;
      assert (a + b)[1..] == a[1..] + b;
      VisibleConcat(a[1..], b);
    }
  }

  lemma VisibleSplit(s: string, i: nat)
    requires i <= |s|
    ensures Visible(s) == Visible(s[..i]) + Visible(s[i..])
  {
    hide Visible;
    VisibleConcat(s[..i], s[i..]);
    assert s[..i] + s[i..] == s;
  }

  lemma {:induction false} VisibleNothing(s: string)
    requires forall i | 0 <= i < |s| :: IsSpace(s[i])
    ensures Visible(s) == ""
  {
    if s != "" {
      VisibleNothing(s[1..]);
    }
  }

  lemma VisibleTrim(s: string)
    ensures Visible(Trim(s)) == Visible(s)
  {
    var i, j := TrimParts(s);
    VisibleNothing(s[..i]);
    VisibleNothing(s[j..]);
    VisibleSplit(s, j);
    VisibleSplit(s[..j], i);
    assert s[..j][..i] == s[..i] && s[..j][i..] == s[i..j];
  }

  /** Folding loses nothing visible, whatever the body. */
  lemma {:induction false} NothingVisibleLost(body: string, written: nat)
    requires written < LINE_LIMIT
    ensures Visible(Concat(Fragments(body, written))) == Visible(body)
    decreases |body|
  {
    VisibleTrim(body);
    FragmentsStep(body, written);
    var b := Trim(body);
    if b != "" {
      var c := Crop(b, Indent(written));
      NothingVisibleLost(After(b, written), 0);
      VisibleTrim(b[..c]);
      VisibleSplit(b, c);
      var fs := Fragments(body, written);
      VisibleConcat(fs[0], Concat(fs[1..]));
    }
  }
}
