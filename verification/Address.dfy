/** Mail addresses: mailutil/address.go and the bounce address of listinfo.go. */
module Addresses {
  import opened Sorting
  import opened Text

  /** What is left of a local part without its suffix. */
  type LocalText = s: string | IsLowerCase(s) && NoControls(s)

  /** Parsed addresses are in lower case. The last `@` stands before the domain. */
  type LocalPart = s: string | s != "" && IsLowerCase(s) && NoControls(s) witness "a"

  type Domain = s: string | s != "" && IsLowerCase(s) && NoControls(s) && ' ' !in s && '@' !in s witness "a"

  /** The part of an address that identifies a mailbox (RFC 5322: addr-spec). */
  datatype AddrSpec = AddrSpec(local: LocalText, domain: Domain)

  /** A parsed address. */
  datatype Addr = Addr(display: string, local: LocalPart, domain: Domain) {
    function Spec(): AddrSpec {
      AddrSpec(local, domain)
    }

    /** The display name does not matter, nor does the case of the letters. */
    predicate Equals(other: Addr) {
      EqualFold(local, other.local) && EqualFold(domain, other.domain)
    }
  }

  /** Go's `strings.EqualFold` for ASCII. */
  predicate EqualFold(a: string, b: string) {
    ToLower(a) == ToLower(b)
  }

  lemma EqualsIffSame(a: Addr, b: Addr)
    ensures a.Equals(b) <==> a.Spec() == b.Spec()
  {
    LowerIsSame(a.local);
    LowerIsSame(b.local);
    LowerIsSame(a.domain);
    LowerIsSame(b.domain);
  }

  lemma LowerIsSame(s: string)
    requires IsLowerCase(s)
    ensures ToLower(s) == s
  {
  }

  const BOUNCE_SUFFIX := "+bounces"

  function WithoutBounce(local: LocalText): LocalText {
    TrimSuffix(local, BOUNCE_SUFFIX)
  }

  predicate IsBounceLocal(local: string) {
    HasSuffix(local, BOUNCE_SUFFIX)
  }

  /** `BounceAddress`. */
  function BounceOf(a: AddrSpec): AddrSpec {
    a.(local := a.local + BOUNCE_SUFFIX)
  }

  lemma BounceLeadsBack(a: AddrSpec)
    ensures IsBounceLocal(BounceOf(a).local) && WithoutBounce(BounceOf(a).local) == a.local
  {
    var l := a.local + BOUNCE_SUFFIX;
    assert l[|l| - |BOUNCE_SUFFIX|..] == BOUNCE_SUFFIX && l[..|l| - |BOUNCE_SUFFIX|] == a.local;
  }

  /** What makes the sorted slice unique: it is overwritten while its elements are compared. */
  method Compact(specs: array<string>) returns (nextIndex: nat)
    modifies specs
    ensures nextIndex <= specs.Length && specs[..nextIndex] == Unique(old(specs[..]))
  {
    ghost var s := specs[..];
    nextIndex := 0;
    assert s[..0] == [];
    for i := 0 to specs.Length
      invariant nextIndex <= i
      invariant specs[..nextIndex] == Unique(s[..i])
      invariant specs[i..] == s[i..]
      invariant i > 0 ==> specs[i - 1] == s[i - 1]
    {
      var spec := specs[i];
      assert s[..i + 1][..i] == s[..i];
      assert specs[i] == specs[i..][0] == s[i];
      if i > 0 && specs[i - 1] == specs[i] {
        continue;
      }
      specs[nextIndex] := spec;
      nextIndex := nextIndex + 1;
    }
    assert s[..specs.Length] == s;
  }

  /** The distinct address specs, sorted. `toText` is RFC5322AddrSpec, which quotes the local part if need be. */
  method RFC5322AddrSpecs(addrs: seq<Addr>, toText: AddrSpec -> string) returns (result: seq<string>)
    ensures StrictlySorted(LexLeq, result)
    ensures forall s :: s in result <==> exists i | 0 <= i < |addrs| :: s == toText(addrs[i].Spec())
  {
    hide LexLeq, Sorted, StrictlySorted, TotalOrder, Sort, Unique;
    var specs := new string[|addrs|](i requires 0 <= i < |addrs| => toText(addrs[i].Spec()));
    var unsorted := specs[..];
    assert forall i | 0 <= i < |addrs| :: unsorted[i] == toText(addrs[i].Spec());
    var sorted := Sort(LexLeq, unsorted);
    LexOrder();
    SortSame(LexLeq, unsorted);
    SortIsSorted(LexLeq, unsorted);
    assert |sorted| == |multiset(sorted)| == |unsorted|;
    forall i | 0 <= i < specs.Length {
      specs[i] := sorted[i];
    }
    assert specs[..] == sorted;
    UniqueOfSorted(LexLeq, sorted);
    UniqueKeepsElements(sorted);
    var nextIndex := Compact(specs);
    result := specs[..nextIndex];
    forall s
      ensures s in sorted <==> exists i | 0 <= i < |addrs| :: s == toText(addrs[i].Spec())
    {
      assert s in sorted <==> s in multiset(sorted);
      assert s in unsorted <==> s in multiset(unsorted);
    }
  }
}
