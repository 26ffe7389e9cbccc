/** Folding of one header field: `headerWritelnFold` of mailutil/header.go. */
module Fold {
  import opened Output
  import opened Text

  /** RFC 5322, section 2.1.1: a line should have at most 78 and must have at most 998 characters, excluding the
      CRLF. */
  const COLUMNS := 78
  const LINE_LIMIT := 998
  const NAME_LIMIT := 995

  datatype FoldError = NoError | NameTooLong | CouldNotCrop | WriteFailed

  /** The last SP or TAB of `b` among the indices 1 to `hi`, or -1. */
  function LastWsp(b: string, hi: int): (r: int)
    ensures r == -1 || (1 <= r <= hi && r < |b| && IsWsp(b[r]))
    decreases hi
  {
    if hi < 1 then -1 else if hi < |b| && IsWsp(b[hi]) then hi else LastWsp(b, hi - 1)
  }

  lemma AfterLastWsp(b: string, hi: int)
    ensures forall i | 1 <= i <= hi && LastWsp(b, hi) < i < |b| :: !IsWsp(b[i])
    decreases hi
  {
    if hi >= 1 && !(hi < |b| && IsWsp(b[hi])) {
      AfterLastWsp(b, hi - 1);
    }
  }

  /** The first SP or TAB of `b` among the indices `lo` to `hi`, or -1. */
  function FirstWsp(b: string, lo: int, hi: int): (r: int)
    ensures r == -1 || (0 <= r < |b| && lo <= r <= hi && IsWsp(b[r]))
    decreases hi - lo
  {
    if hi < lo then -1 else if 0 <= lo < |b| && IsWsp(b[lo]) then lo else FirstWsp(b, lo + 1, hi)
  }

  lemma BeforeFirstWsp(b: string, lo: int, hi: int)
    ensures var r := FirstWsp(b, lo, hi);
            forall i | 0 <= i < |b| && lo <= i <= hi && (r == -1 || i < r) :: !IsWsp(b[i])
    decreases hi - lo
  {
    if lo <= hi && !(0 <= lo < |b| && IsWsp(b[lo])) {
      BeforeFirstWsp(b, lo + 1, hi);
    }
  }

  /** How much of the trimmed, non-empty body `b` goes on a line that already has `written` bytes. */
  function Crop(b: string, written: nat): (c: nat)
    requires written < LINE_LIMIT && b != "" && !IsSpace(b[0])
    ensures 1 <= c <= |b| && written + c <= LINE_LIMIT
  {
    if |b| <= COLUMNS - written then |b|
    else
      var near := LastWsp(b, COLUMNS - written);
      if near != -1 then near
      else
        var far := FirstWsp(b, COLUMNS + 1 - written, LINE_LIMIT - written);
        if far != -1 then far
        else if LINE_LIMIT - written < |b| then LINE_LIMIT - written else |b|
  }

  /** Bytes on the line before the text: a later line starts with one space. */
  function Indent(written: nat): nat {
    if written == 0 then 1 else written
  }

  /** The text of the next line. */
  function Piece(b: string, written: nat): string
    requires written < LINE_LIMIT && b != "" && !IsSpace(b[0])
  {
    Trim(b[..Crop(b, Indent(written))])
  }

  /** What remains after the next line. */
  function After(b: string, written: nat): (rest: string)
    requires written < LINE_LIMIT && b != "" && !IsSpace(b[0])
    ensures |rest| < |b|
  {
    b[Crop(b, Indent(written))..]
  }

  /** The pieces of `body` line by line, the first one on a line that has `written` bytes (0: a new line). */
  function Fragments(body: string, written: nat): (fs: seq<string>)
    requires written < LINE_LIMIT
    ensures fs == [] <==> Trim(body) == ""
    decreases |body|
  {
    var b := Trim(body);
    if b == "" then [] else [Piece(b, written)] + Fragments(After(b, written), 0)
  }

  lemma FragmentsStep(body: string, written: nat)
    requires written < LINE_LIMIT
    ensures var b, fs := Trim(body), Fragments(body, written);
            if b == "" then fs == []
            else |fs| > 0 && fs[0] == Piece(b, written) && fs[1..] == Fragments(After(b, written), 0)
  {
  }

  /** Lines after the first. */
  function Continuation(fs: seq<string>): string {
    if fs == [] then "" else " " + fs[0] + CRLF + Continuation(fs[1..])
  }

  /** What is still to be written for `body` on a line that has `written` bytes. */
  function Rest(body: string, written: nat): string
    requires written < LINE_LIMIT
  {
    var fs := Fragments(body, written);
    if fs == [] then ""
    else (if written == 0 then " " else "") + fs[0] + CRLF + Continuation(fs[1..])
  }

  /** The whole field as printed. */
  function FieldText(name: string, body: string): string
    requires |name| <= NAME_LIMIT
  {
    name + ": " + Rest(body, |name| + 2)
  }

  /** The lines of a field, without their CRLF. */
  function Lines(name: string, body: string): seq<string>
    requires |name| <= NAME_LIMIT
  {
    LinesOf(name, Fragments(body, |name| + 2))
  }

  function LinesOf(name: string, fs: seq<string>): seq<string> {
    if fs == [] then [name + ": "] else [name + ": " + fs[0]] + LaterLines(fs[1..])
  }

  function LaterLines(fs: seq<string>): seq<string> {
    seq(|fs|, i requires 0 <= i < |fs| => " " + fs[i])
  }

  method FindCrop(body: string, written: nat) returns (crop: int)
    requires 0 < written < LINE_LIMIT && body != "" && !IsSpace(body[0])
    ensures crop == Crop(body, written)
  {
    crop := -1;
    if |body| <= COLUMNS - written {
      crop := |body|;
    }
    if crop == -1 {
      var i := COLUMNS - written;
      while i >= 1
        invariant crop == -1 && LastWsp(body, COLUMNS - written) == LastWsp(body, i)
        decreases i
      {
        if i < |body| {
          if body[i] == ' ' || body[i] == '\t' {
            crop := i;
            break;
          }
        }
        i := i - 1;
      }
    }
    if crop == -1 {
      var i := COLUMNS + 1 - written;
      while i <= LINE_LIMIT - written
        invariant crop == -1
        invariant FirstWsp(body, COLUMNS + 1 - written, LINE_LIMIT - written) == FirstWsp(body, i, LINE_LIMIT - written)
      {
        if i >= 0 && i < |body| {
          if body[i] == ' ' || body[i] == '\t' {
            crop := i;
            break;
          }
        }
        i := i + 1;
      }
    }
    if crop == -1 {
      crop := LINE_LIMIT - written;
      if crop > |body| {
        crop := |body|;
      }
    }
  }

  /** The line that `headerWritelnFold` writes for the trimmed body `b`. */
  function LineText(b: string, written: nat): string
    requires written < LINE_LIMIT && b != "" && !IsSpace(b[0])
  {
    (if written == 0 then " " else "") + Piece(b, written) + CRLF
  }

  /** What is left to print is one line and then the rest of the body on new lines. */
  lemma RestStep(body: string, written: nat)
    requires written < LINE_LIMIT
    ensures Trim(body) == "" ==> Rest(body, written) == ""
    ensures Trim(body) != "" ==>
              var b := Trim(body);
              Rest(body, written) == LineText(b, written) + Rest(After(b, written), 0)
  {
    FragmentsStep(body, written);
  }

  /** One iteration of the loop of `headerWritelnFold`: writes one line, `left` stays to be written. */
  method WriteLine(w: Writer, b: string, alreadyWritten: nat, ghost left: string, ghost goal: string)
    returns (rest: string, err: FoldError)
    requires alreadyWritten < LINE_LIMIT && b != "" && !IsSpace(b[0])
    requires w.Towards(LineText(b, alreadyWritten) + left, goal)
    modifies w
    ensures w.Towards(left, goal)
    ensures err == if w.failed then WriteFailed else NoError
    ensures old(w.failed) ==> w.failed && w.out == old(w.out)
    ensures !w.failed ==> rest == After(b, alreadyWritten)
  {
    rest := b;
    var written := alreadyWritten;
    ghost var piece := Piece(b, alreadyWritten);
    LineParts(b, alreadyWritten, left);
    if written == 0 {
      var _, ok := w.Put(" ", piece + (CRLF + left), goal);
      if !ok {
        return b, WriteFailed;
      }
      written := 1;
    }
    var crop := FindCrop(b, written);
    if crop < 1 {
      return b, CouldNotCrop;
    }
    var _, okPiece := w.Put(Trim(b[..crop]), CRLF + left, goal);
    if !okPiece {
      return b, WriteFailed;
    }
    var _, okEnd := w.Put(CRLF, left, goal);
    if !okEnd {
      return b, WriteFailed;
    }
    rest := b[crop..];
    err := NoError;
  }

  lemma LineParts(b: string, written: nat, left: string)
    requires written < LINE_LIMIT && b != "" && !IsSpace(b[0])
    ensures var piece := Piece(b, written);
            LineText(b, written) + left ==
            if written == 0 then " " + (piece + (CRLF + left)) else piece + (CRLF + left)
  {
    if written != 0 {
      var piece := Piece(b, written);
      assert "" + piece + CRLF == piece + CRLF;
    }
  }

  /** The loop of `headerWritelnFold`. */
  method WriteLines(w: Writer, rawBody: string, alreadyWritten: nat, ghost goal: string) returns (err: FoldError)
    requires alreadyWritten < LINE_LIMIT
    requires w.Towards(Rest(rawBody, alreadyWritten), goal)
    modifies w
    ensures w.Towards("", goal)
    ensures err == if w.failed && Trim(rawBody) != "" then WriteFailed else NoError
    ensures old(w.failed) ==> w.failed && w.out == old(w.out)
  {
    var body, written: nat := rawBody, alreadyWritten;
    while true
      invariant written < LINE_LIMIT
      invariant w.failed == old(w.failed)
      invariant body != rawBody ==> Trim(rawBody) != ""
      invariant w.failed ==> body == rawBody && w.out == old(w.out)
      invariant w.Towards(Rest(body, written), goal)
      decreases |body|
    {
      RestStep(body, written);
      body := Trim(body);
      if body == "" {
        break;
      }
      ghost var left := Rest(After(body, written), 0);
      body, err := WriteLine(w, body, written, left, goal);
      if err != NoError {
        return;
      }
      written := 0;
    }
    err := NoError;
  }

  method HeaderWritelnFold(w: Writer, rawName: string, rawBody: string) returns (err: FoldError)
    modifies w
    ensures err != CouldNotCrop
    ensures err == NameTooLong <==> |Trim(rawName)| > 995
    ensures err == NameTooLong ==> w.out == old(w.out) && w.failed == old(w.failed)
    ensures err == NoError && Trim(rawBody) != "" ==> !w.failed
    ensures old(w.failed) ==> w.failed && w.out == old(w.out)
    ensures err != NameTooLong ==> w.out <= old(w.out) + FieldText(Trim(rawName), rawBody)
    ensures err != NameTooLong && !w.failed ==>
              err == NoError && w.out == old(w.out) + FieldText(Trim(rawName), rawBody)
  {
    hide Trim, Fragments;
    var name := Trim(rawName);
    if |name| > NAME_LIMIT {
      return NameTooLong;
    }
    ghost var goal := w.out + FieldText(name, rawBody);
    var written, _ := w.Put(name + ": ", Rest(rawBody, |name| + 2), goal);
    err := WriteLines(w, rawBody, written, goal);
  }
}
