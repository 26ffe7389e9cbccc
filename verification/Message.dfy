/** Stored messages: mailutil/message.go. */
module Messages {
  import opened Fold
  import opened Headers
  import opened Output
  import opened Reader
  import opened Text

  /** The header is shared by everyone who holds the message. */
  datatype Message = Message(header: Header, body: string)

  /** The bytes that field names consist of in canonical notation. */
  predicate IsTokenChar(c: char) {
    'a' <= c <= 'z' || 'A' <= c <= 'Z' || '0' <= c <= '9' || c in "!#$%&'*+-.^_`|~"
  }

  predicate IsToken(key: string) {
    key != "" && forall i | 0 <= i < |key| :: IsTokenChar(key[i])
  }

  /** Canonical notation: upper case first and after a hyphen, else lower case; other names stay as they are. */
  function Canonical(key: string): string {
    if IsToken(key) then
      seq(|key|, i requires 0 <= i < |key| => if i == 0 || key[i - 1] == '-' then Upper(key[i]) else Lower(key[i]))
    else key
  }

  predicate IsCanonical(key: string) {
    IsToken(key) && Canonical(key) == key
  }

  /** The values of a key among the fields that were read, in order. */
  function ValuesOf(fields: seq<Field>, key: string): seq<string> {
    if fields == [] then []
    else (if Canonical(fields[0].name) == key then [fields[0].value] else []) + ValuesOf(fields[1..], key)
  }

  /** The header that reading makes of the fields. */
  function Grouped(fields: seq<Field>): HeaderMap {
    map key | key in (set i | 0 <= i < |fields| :: Canonical(fields[i].name)) :: ValuesOf(fields, key)
  }

  /** `ReadMessage`: header and body of a message text. */
  function ReadMessage(text: string): ReadResult<(HeaderMap, string)> {
    match ParseHeader(text)
    case Success((fields, body)) => Success((Grouped(fields), body))
    case Failure(e) => Failure(e)
  }

  /** The text of a saved message. */
  ghost function SavedText(h: HeaderMap, body: string): string {
    HeaderText(PrintedFields(h)) + if NamesFit(PrintedFields(h)) then body else ""
  }

  method Save(m: Message, w: Writer) returns (err: FoldError)
    modifies w, m.header
    ensures var h := old(m.header.fields);
            && w.out <= old(w.out) + SavedText(h, m.body)
            && (!w.failed ==> w.out == old(w.out) + SavedText(h, m.body)
                              && err == if NamesFit(PrintedFields(h)) then NoError else NameTooLong)
    ensures w.failed ==> err != NoError
    ensures PartlyJoined(old(m.header.fields), m.header.fields)
    ensures err == NoError ==> m.header.fields == Joined(old(m.header.fields))
  {
    hide HeaderText, PrintedFields, NamesFit;
    ghost var h, out, fine := m.header.fields, w.out, !w.failed;
    err := WriteHeader(w, m.header);
    ghost var text := HeaderText(PrintedFields(h));
    ghost var rest := if NamesFit(PrintedFields(h)) then m.body else "";
    if fine {
      TextStep(out, text, rest, out + (text + rest), w.out);
    }
    if err != NoError {
      return;
    }
    assert rest + "" == m.body;
    var _, ok := w.Put(m.body, "", out + (text + rest));
    err := if ok then NoError else WriteFailed;
  }
}
