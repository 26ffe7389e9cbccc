/** Netstrings: sockmap/netstring/netstring.go. */
module Netstring {
  import opened Decimal
  import opened Text

  datatype DecodeError = MissingColon | BadLength(reason: Parsed) | NothingAfterColon | WrongLength

  datatype Decoded = Ok(value: string) | Err(error: DecodeError)

  function Encode(s: string): string {
    FormatInt(|s|) + ":" + s + ","
  }

  function Decode(netstr: string): Decoded {
    var i := IndexOf(netstr, ':');
    if i == |netstr| then Err(MissingColon)
    else
      var length := Atoi(netstr[..i]);
      if !length.Number? then Err(BadLength(length))
      else
        var result := netstr[i + 1..];
        if |result| == 0 then Err(NothingAfterColon)
        else
          var value := result[..|result| - 1];
          if length.value != |value| then Err(WrongLength) else Ok(value)
  }

  /** `numeral` is what `Atoi` accepts for `n`. */
  predicate IsNumeralOf(numeral: string, n: int) {
    ':' !in numeral && Atoi(numeral) == Number(n)
  }

  /** Exactly the inputs made of a numeral for the length, a colon, the value and one more byte
      are decoded; the last byte need not be a comma. */
  lemma DecodeExactly(netstr: string, value: string)
    ensures Decode(netstr) == Ok(value) <==>
            exists numeral, last: char :: IsNumeralOf(numeral, |value|) && netstr == numeral + ":" + (value + [last])
  {
    hide Atoi, IndexOf;
    if Decode(netstr) == Ok(value) {
      NoneBefore(netstr, ':');
      var i := IndexOf(netstr, ':');
      var result := netstr[i + 1..];
      var last := result[|result| - 1];
      assert result == value + [last];
      assert netstr == netstr[..i] + ":" + (value + [last]);
      assert IsNumeralOf(netstr[..i], |value|);
    }
    if numeral, last: char :| IsNumeralOf(numeral, |value|) && netstr == numeral + ":" + (value + [last]) {
      IndexBehind(numeral, ':', value + [last]);
      assert netstr[..|numeral|] == numeral;
      assert netstr[|numeral| + 1..] == value + [last];
      assert (value + [last])[..|value|] == value;
    }
  }

  /** Decoding an encoded string gives the string, whatever bytes it has. A Go string has at most `MAX_INT` bytes. */
  lemma RoundTrip(s: string)
    requires |s| <= MAX_INT
    ensures Decode(Encode(s)) == Ok(s)
  {
    AtoiOfFormat(|s|);
    FormatBytes(|s|);
    var numeral := FormatInt(|s|);
    assert IsNumeralOf(numeral, |s|);
    assert Encode(s) == numeral + ":" + (s + ",");
    DecodeExactly(Encode(s), s);
  }

  /** Different strings are encoded differently. */
  lemma EncodeIsInjective(a: string, b: string)
    requires |a| <= MAX_INT && |b| <= MAX_INT && Encode(a) == Encode(b)
    ensures a == b
  {
    RoundTrip(a);
    RoundTrip(b);
  }
}
