/** The words of a text, which SP and TAB separate. */
module Splitting {
  import opened Text

  function SkipWsp(s: string, i: nat): (j: nat)
    requires i <= |s|
    ensures i <= j <= |s| && (j < |s| ==> !IsWsp(s[j]))
    decreases |s| - i
  {
    if i < |s| && IsWsp(s[i]) then SkipWsp(s, i + 1) else i
  }

  lemma SkippedWsp(s: string, i: nat)
    requires i <= |s|
    ensures forall k | i <= k < SkipWsp(s, i) :: IsWsp(s[k])
    decreases |s| - i
  {
    if i < |s| && IsWsp(s[i]) {
      SkippedWsp(s, i + 1);
    }
  }

  function SkipWord(s: string, i: nat): (j: nat)
    requires i <= |s|
    ensures i <= j <= |s| && (j < |s| ==> IsWsp(s[j]))
    decreases |s| - i
  {
    if i < |s| && !IsWsp(s[i]) then SkipWord(s, i + 1) else i
  }

  lemma SkippedWord(s: string, i: nat)
    requires i <= |s|
    ensures forall k | i <= k < SkipWord(s, i) :: !IsWsp(s[k])
    decreases |s| - i
  {
    if i < |s| && !IsWsp(s[i]) {
      SkippedWord(s, i + 1);
    }
  }

  /** The words of `s[p..]`, which SP and TAB separate. */
  function WordsFrom(s: string, p: nat): seq<string>
    requires p <= |s|
    decreases |s| - p
  {
    var i := SkipWsp(s, p);
    if i == |s| then [] else
      var j := SkipWord(s, i);
      [s[i..j]] + WordsFrom(s, j)
  }

  function Words(s: string): seq<string> {
    WordsFrom(s, 0)
  }

  lemma WordsStep(s: string, p: nat)
    requires p <= |s|
    ensures var i := SkipWsp(s, p);
            if i == |s| then WordsFrom(s, p) == []
            else
              var j := SkipWord(s, i);
              WordsFrom(s, p) == [s[i..j]] + WordsFrom(s, j)
  {
  }

  lemma SkipWspThrough(s: string, i: nat, j: nat)
    requires i <= j <= |s| && forall k | i <= k < j :: IsWsp(s[k])
    ensures SkipWsp(s, i) == SkipWsp(s, j)
    decreases j - i
  {
    if i < j {
      SkipWspThrough(s, i + 1, j);
    }
  }

  lemma SameWords(s: string, i: nat, j: nat)
    requires i <= |s| && j <= |s| && SkipWsp(s, i) == SkipWsp(s, j)
    ensures WordsFrom(s, i) == WordsFrom(s, j)
  {
  }

  /** Where a text continues with white space (or not at all), its words do, too. */
  lemma {:induction false} WordsConcatFrom(a: string, b: string, p: nat)
    requires p <= |a| && (b == "" || IsWsp(b[0]))
    ensures WordsFrom(a + b, p) == WordsFrom(a, p) + Words(b)
    decreases |a| - p
  {
    hide IsWsp, WordsFrom;
    SkipIn(a, b, p);
    WordsStep(a, p);
    WordsStep(a + b, p);
    var i := SkipWsp(a, p);
    if i == |a| {
      SkippedWsp(a, p);
      SkipWspThrough(a + b, p, |a|);
      SameWords(a + b, p, |a|);
      WordsAfter(a, b, 0);
    } else {
      var j := SkipWord(a, i);
      SkipIn(a, b, i);
      assert (a + b)[i..j] == a[i..j];
      WordsConcatFrom(a, b, j);
      assert [a[i..j]] + (WordsFrom(a, j) + Words(b)) == [a[i..j]] + WordsFrom(a, j) + Words(b);
    }
  }

  lemma {:induction false} SkipIn(a: string, b: string, p: nat)
    requires p <= |a| && (b == "" || IsWsp(b[0]))
    ensures SkipWsp(a, p) < |a| ==> SkipWsp(a + b, p) == SkipWsp(a, p)
    ensures SkipWord(a + b, p) == SkipWord(a, p)
    decreases |a| - p
  {
    if p < |a| {
      SkipIn(a, b, p + 1);
    } else if b != "" {
      assert (a + b)[p] == b[0];
    }
  }

  lemma {:induction false} SkipAfter(a: string, b: string, p: nat)
    requires p <= |b|
    ensures SkipWsp(a + b, |a| + p) == |a| + SkipWsp(b, p)
    ensures SkipWord(a + b, |a| + p) == |a| + SkipWord(b, p)
    decreases |b| - p
  {
    if p < |b| {
      assert (a + b)[|a| + p] == b[p];
      SkipAfter(a, b, p + 1);
    }
  }

  lemma {:induction false} WordsAfter(a: string, b: string, p: nat)
    requires p <= |b|
    ensures WordsFrom(a + b, |a| + p) == WordsFrom(b, p)
    decreases |b| - p
  {
    SkipAfter(a, b, p);
    WordsStep(b, p);
    WordsStep(a + b, |a| + p);
    var i := SkipWsp(b, p);
    if i < |b| {
      var j := SkipWord(b, i);
      SkipAfter(a, b, i);
      hide WordsFrom;
      WordsAfter(a, b, j);
      assert (a + b)[|a| + i..|a| + j] == b[i..j];
    }
  }

  lemma WordsConcat(a: string, b: string)
    requires b == "" || IsWsp(b[0])
    ensures Words(a + b) == Words(a) + Words(b)
  {
    WordsConcatFrom(a, b, 0);
  }

  /** The first word has at most `first` bytes, every other word at most `later`. */
  predicate WordsFit(ws: seq<string>, first: int, later: int) {
    forall i | 0 <= i < |ws| :: |ws[i]| <= if i == 0 then first else later
  }

  lemma WordsFitTail(ws: seq<string>, first: int, later: int)
    requires ws != [] && WordsFit(ws, first, later)
    ensures WordsFit(ws[1..], later, later)
  {
    forall i | 0 <= i < |ws| - 1
      ensures |ws[1..][i]| <= later
    {
      assert ws[1..][i] == ws[i + 1];
    }
  }

  /** The words behind a separator are later words. */
  lemma {:induction false} WordsFitLater(s: string, p: nat, q: nat, first: int, later: int)
    requires p <= |s| && SkipWsp(s, p) < q <= |s| && (q < |s| ==> IsWsp(s[q]))
    requires WordsFit(WordsFrom(s, p), first, later)
    ensures WordsFit(WordsFrom(s, q), later, later)
    decreases |s| - p
  {
    var i := SkipWsp(s, p);
    var j := SkipWord(s, i);
    WordsFitTail(WordsFrom(s, p), first, later);
    assert WordsFrom(s, p)[1..] == WordsFrom(s, j);
    SkippedWord(s, i);
    assert j <= q;
    if SkipWsp(s, j) < q {
      WordsFitLater(s, j, q, later, later);
    } else {
      SkippedWsp(s, j);
      SkipWspThrough(s, j, q);
      SameWords(s, j, q);
    }
  }
}
