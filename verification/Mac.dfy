/** Authentication of confirmation links: `createHMAC`, `CreateHMAC` and `ValidateHMAC` of list.go. */
module Macs {
  import opened Decimal
  import opened Tables

  const NUL := '\U{00}'

  /** An ideal MAC: a tag names the key and the bytes it was made for. Any other bytes a client may present are a
      forgery. */
  datatype Tag = Tag(key: string, input: string) | Forgery(bytes: string)

  datatype MacError = NoKey | ZeroKey

  datatype MacResult = Made(tag: Tag) | NotMade(error: MacError)

  predicate NulFree(s: string) {
    forall i | 0 <= i < |s| :: s[i] != NUL
  }

  /** The bytes that are authenticated. */
  function MacInput(list: string, addr: Option<string>, timestamp: int): string {
    list + [NUL] + (if addr.Some? then addr.value + [NUL] else "") + FormatInt(timestamp)
  }

  predicate UsableKey(key: string) {
    key != "" && key != seq(32, _ => NUL)
  }

  /** `createHMAC`: the parts are written to the running MAC one after the other. */
  method CreateTag(key: string, list: string, addr: Option<string>, timestamp: int) returns (r: MacResult)
    ensures r.Made? <==> UsableKey(key)
    ensures r.NotMade? <==> key == "" || (|key| == 32 && forall i | 0 <= i < 32 :: key[i] == NUL)
    ensures r.Made? && addr.Some? ==>
            r.tag == Tag(key, list + [NUL] + addr.value + [NUL] + FormatInt(timestamp))
    ensures r.Made? && addr.None? ==> r.tag == Tag(key, list + [NUL] + FormatInt(timestamp))
    ensures r.Made? ==> r.tag == Tag(key, MacInput(list, addr, timestamp))
  {
    if |key| == 0 {
      return NotMade(NoKey);
    }
    if key == seq(32, _ => NUL) {
      return NotMade(ZeroKey);
    }
    var written := list;
    written := written + [NUL];
    if addr.Some? {
      written := written + addr.value;
      written := written + [NUL];
    }
    written := written + FormatInt(timestamp);
    assert written == MacInput(list, addr, timestamp);
    r := Made(Tag(key, written));
  }

  /** A NUL ends a NUL-free part unambiguously. */
  lemma SplitAtNul(a: string, x: string, b: string, y: string)
    requires NulFree(a) && NulFree(b) && a + [NUL] + x == b + [NUL] + y
    ensures a == b && x == y
  {
    var s, t := a + [NUL] + x, b + [NUL] + y;
    assert s[|a|] == NUL && t[|b|] == NUL;
    assert forall i | 0 <= i < |a| :: s[i] == a[i];
    assert forall i | 0 <= i < |b| :: t[i] == b[i];
    assert |a| == |b|;
    assert a == s[..|a|] && b == t[..|b|];
    assert x == s[|a| + 1..] && y == t[|b| + 1..];
  }

  lemma WithNul(a: string, x: string)
    ensures !NulFree(a + [NUL] + x)
  {
    assert (a + [NUL] + x)[|a|] == NUL;
  }

  lemma NumberIsNulFree(n: int)
    ensures NulFree(FormatInt(n))
  {
    FormatBytes(n);
  }

  /** Main result: the authenticated bytes determine list, address (and whether there is one) and timestamp. */
  lemma MacInputIsInjective(list: string, addr: Option<string>, t: int, list': string, addr': Option<string>, t': int)
    requires NulFree(list) && NulFree(list') && (addr.Some? ==> NulFree(addr.value))
             && (addr'.Some? ==> NulFree(addr'.value))
    requires MacInput(list, addr, t) == MacInput(list', addr', t')
    ensures list == list' && addr == addr' && t == t'
  {
    hide FormatInt, NulFree;
    var rest := Tail(addr, t);
    var rest' := Tail(addr', t');
    assert MacInput(list, addr, t) == list + [NUL] + rest && MacInput(list', addr', t') == list' + [NUL] + rest';
    SplitAtNul(list, rest, list', rest');
    TailIsInjective(addr, t, addr', t');
  }

  function Tail(addr: Option<string>, timestamp: int): string {
    (if addr.Some? then addr.value + [NUL] else "") + FormatInt(timestamp)
  }

  lemma TailIsInjective(addr: Option<string>, t: int, addr': Option<string>, t': int)
    requires (addr.Some? ==> NulFree(addr.value)) && (addr'.Some? ==> NulFree(addr'.value))
    requires Tail(addr, t) == Tail(addr', t')
    ensures addr == addr' && t == t'
  {
    hide FormatInt;
    NumberIsNulFree(t);
    NumberIsNulFree(t');
    assert addr.None? ==> Tail(addr, t) == FormatInt(t);
    assert addr'.None? ==> Tail(addr', t') == FormatInt(t');
    if addr.Some? {
      WithNul(addr.value, FormatInt(t));
    }
    if addr'.Some? {
      WithNul(addr'.value, FormatInt(t'));
    }
    if addr.Some? {
      SplitAtNul(addr.value, FormatInt(t), addr'.value, FormatInt(t'));
    }
    FormatIsInjective(t, t');
  }
}
