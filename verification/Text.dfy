/** Byte strings as the mail headers use them. A `char` stands for one byte; the white space bytes
    are SP, TAB, CR, LF, VT and FF, of which RFC 5322 calls SP and TAB "WSP". */
module Text {
  const CRLF := "\r\n"

  predicate IsWsp(c: char) {
    c == ' ' || c == '\t'
  }

  predicate IsSpace(c: char) {
    IsWsp(c) || c == '\r' || c == '\n' || c == '\U{0B}' || c == '\U{0C}'
  }

  /** Neither end of a trimmed string is white space. */
  predicate Trimmed(s: string) {
    s == "" || (!IsSpace(s[0]) && !IsSpace(s[|s| - 1]))
  }

  /** The first index from `i` on that holds no white space. */
  function SkipSpace(s: string, i: nat): (j: nat)
    requires i <= |s|
    ensures i <= j <= |s| && (j < |s| ==> !IsSpace(s[j]))
    decreases |s| - i
  {
    if i < |s| && IsSpace(s[i]) then SkipSpace(s, i + 1) else i
  }

  lemma SkippedSpace(s: string, i: nat)
    requires i <= |s|
    ensures forall k | i <= k < SkipSpace(s, i) :: IsSpace(s[k])
    decreases |s| - i
  {
    if i < |s| && IsSpace(s[i]) {
      SkippedSpace(s, i + 1);
    }
  }

  /** The last index down to `i` such that white space alone lies between it and `j`. */
  function SkipSpaceBack(s: string, i: nat, j: nat): (k: nat)
    requires i <= j <= |s|
    ensures i <= k <= j && (i < k ==> !IsSpace(s[k - 1]))
  {
    if i < j && IsSpace(s[j - 1]) then SkipSpaceBack(s, i, j - 1) else j
  }

  lemma SkippedSpaceBack(s: string, i: nat, j: nat)
    requires i <= j <= |s|
    ensures forall k | SkipSpaceBack(s, i, j) <= k < j :: IsSpace(s[k])
  {
    if i < j && IsSpace(s[j - 1]) {
      SkippedSpaceBack(s, i, j - 1);
    }
  }

  /** The text without its leading and trailing white space. */
  function Trim(s: string): (r: string)
    ensures Trimmed(r) && |r| <= |s|
  {
    var i := SkipSpace(s, 0);
    s[i..SkipSpaceBack(s, i, |s|)]
  }

  /** `Trim` is determined by its meaning: the only trimmed string that white space can surround to give `s`. */
  lemma TrimIs(s: string, i: nat, j: nat)
    requires i <= j <= |s| && Trimmed(s[i..j])
    requires forall k | 0 <= k < i || j <= k < |s| :: IsSpace(s[k])
    ensures Trim(s) == s[i..j]
  {
    var a := SkipSpace(s, 0);
    var b := SkipSpaceBack(s, a, |s|);
    SkippedSpace(s, 0);
    SkippedSpaceBack(s, a, |s|);
    if i < j {
      assert s[i..j][0] == s[i] && s[i..j][j - i - 1] == s[j - 1];
    }
  }

  lemma TrimTrimmed(s: string)
    requires Trimmed(s)
    ensures Trim(s) == s
  {
    assert s[0..|s|] == s;
    TrimIs(s, 0, |s|);
  }

  /** Where `Trim(s)` lies in `s`. */
  lemma TrimParts(s: string) returns (i: nat, j: nat)
    ensures i <= j <= |s| && Trim(s) == s[i..j]
    ensures forall k | 0 <= k < i || j <= k < |s| :: IsSpace(s[k])
  {
    i := SkipSpace(s, 0);
    j := SkipSpaceBack(s, i, |s|);
    SkippedSpace(s, 0);
    SkippedSpaceBack(s, i, |s|);
  }

  function Lower(c: char): char {
    if 'A' <= c <= 'Z' then (c as int + 32) as char else c
  }

  function Upper(c: char): char {
    if 'a' <= c <= 'z' then (c as int - 32) as char else c
  }

  function ToLower(s: string): (r: string)
    ensures |r| == |s| && forall i | 0 <= i < |s| :: r[i] == Lower(s[i])
  {
    seq(|s|, i requires 0 <= i < |s| => Lower(s[i]))
  }

  /** No upper-case letters. */
  predicate IsLowerCase(s: string) {
    forall i | 0 <= i < |s| :: Lower(s[i]) == s[i]
  }

  /** No control bytes, and in particular no NUL. */
  predicate NoControls(s: string) {
    forall i | 0 <= i < |s| :: ' ' <= s[i] && s[i] != '\U{7F}'
  }

  predicate HasPrefix(s: string, p: string) {
    p <= s
  }

  predicate HasSuffix(s: string, p: string) {
    |p| <= |s| && s[|s| - |p|..] == p
  }

  function TrimSuffix(s: string, p: string): string {
    if HasSuffix(s, p) then s[..|s| - |p|] else s
  }

  predicate Contains(s: string, p: string) {
    exists i | 0 <= i <= |s| :: p <= s[i..]
  }

  /** The index of the first `c`, or the length. */
  function IndexOf(s: string, c: char): (i: nat)
    ensures i <= |s| && (i < |s| ==> s[i] == c)
  {
    if s == "" || s[0] == c then 0 else 1 + IndexOf(s[1..], c)
  }

  lemma {:induction false} IndexBehind(a: string, c: char, rest: string)
    requires c !in a
    ensures IndexOf(a + [c] + rest, c) == |a|
  {
    var s := a + [c] + rest;
    if a != "" {
      assert s[1..] == a[1..] + [c] + rest;
      IndexBehind(a[1..], c, rest);
    }
  }

  lemma {:induction false} NoneBefore(s: string, c: char)
    ensures c !in s[..IndexOf(s, c)]
  {
    if s != "" && s[0] != c {
      NoneBefore(s[1..], c);
      assert s[..IndexOf(s, c)] == [s[0]] + s[1..][..IndexOf(s[1..], c)];
    }
  }

  /** The strings in order with `sep` between them. */
  function Join(parts: seq<string>, sep: string): string {
    if parts == [] then ""
    else if |parts| == 1 then parts[0]
    else parts[0] + sep + Join(parts[1..], sep)
  }

  function Concat(parts: seq<string>): string {
    if parts == [] then "" else parts[0] + Concat(parts[1..])
  }
}
