/** The name helpers of utils.go: reverse-lookup names (section 3.5 of
    RFC 1035 for IPv4, section 2.5 of RFC 3596 for IPv6) and the label
    suffixes of a name below a base domain. */
module Utils {
  import opened Text
  import opened Net

  /** The four characters one byte contributes to an `ip6.arpa` name: its low
      nibble, a dot, its high nibble, a dot. */
  function NibbleLabel(v: byte): string
  {
    [HexDigits[v % 16], '.', HexDigits[v / 16], '.']
  }

  /** Character `i` of the nibble part of an `ip6.arpa` name for `ip`, read
      off by position: byte `i / 4` counted from the end, low nibble at
      offset 0, high nibble at offset 2, dots at offsets 1 and 3. */
  function NibbleChar(ip: seq<byte>, i: nat): char
    requires i < 4 * |ip|
  {
    var v := ip[|ip| - 1 - i / 4];
    if i % 4 == 0 then HexDigits[v % 16]
    else if i % 4 == 2 then HexDigits[v / 16]
    else '.'
  }

  /** The nibble part of an `ip6.arpa` name, built from the last byte to the
      first as the loop in `PTR` appends it. */
  function ReverseNibbles(ip: seq<byte>): (r: string)
    ensures |r| == 4 * |ip|
    ensures forall i :: 0 <= i < |r| ==> r[i] == NibbleChar(ip, i)
  {
    if |ip| == 0 then ""
    else
      var r := NibbleLabel(ip[|ip| - 1]) + ReverseNibbles(ip[..|ip| - 1]);
      assert forall i :: 4 <= i < |r| ==> NibbleChar(ip[..|ip| - 1], i - 4) == NibbleChar(ip, i);
      r
  }

  /** Reads the bytes back from the nibble part of an `ip6.arpa` name. */
  function DecodeReverseNibbles(s: string): (ip: seq<byte>)
    decreases |s|
  {
    if |s| < 4 then []
    else DecodeReverseNibbles(s[4..]) + [HexValue(s[0]) + 16 * HexValue(s[2])]
  }

  /** `PTR`: the reverse-lookup name of an address. An IPv4 address, or an
      IPv4-mapped IPv6 one, gets its decimal octets in reverse order under
      `in-addr.arpa`; every other address gets its nibbles, last byte first,
      under `ip6.arpa`. */
  function PTR(ip: IP): (r: string)
    ensures To4(ip.bytes).Some? ==>
              var q := To4(ip.bytes).value;
              r == Decimal(q[3]) + "." + Decimal(q[2]) + "." + Decimal(q[1]) + "." + Decimal(q[0]) + ".in-addr.arpa"
    ensures To4(ip.bytes).None? ==>
              && |r| == 4 * |ip.bytes| + |"ip6.arpa"|
              && r[4 * |ip.bytes|..] == "ip6.arpa"
              && (forall i :: 0 <= i < 4 * |ip.bytes| ==> r[i] == NibbleChar(ip.bytes, i))
              && (forall i :: 0 <= i < 4 * |ip.bytes| && i % 2 == 0 ==> r[i] in HexDigits)
  {
    match To4(ip.bytes)
    case Some(_) =>
      var parts := Split(String(ip), '.');
      parts[3] + "." + parts[2] + "." + parts[1] + "." + parts[0] + ".in-addr.arpa"
    case None =>
      ReverseNibbles(ip.bytes) + "ip6.arpa"
  }

  /** One byte's four characters decode back to that byte. */
  lemma NibbleLabelRoundTrip(v: byte, rest: string)
    ensures DecodeReverseNibbles(NibbleLabel(v) + rest) == DecodeReverseNibbles(rest) + [v]
  {
    var l := NibbleLabel(v);
    assert (l + rest)[4..] == rest;
    HexDigitsRoundTrip(v % 16);
    HexDigitsRoundTrip(v / 16);
  }

  /** The nibble part of an `ip6.arpa` name determines the address: every
      nibble character decodes to the nibble it was printed from. */
  lemma {:induction false} ReverseNibblesRoundTrip(ip: seq<byte>)
    ensures DecodeReverseNibbles(ReverseNibbles(ip)) == ip
    decreases |ip|
  {
    if |ip| > 0 {
      var front := ip[..|ip| - 1];
      var rest := ReverseNibbles(front);
      assert ReverseNibbles(ip) == NibbleLabel(ip[|ip| - 1]) + rest;
      ReverseNibblesRoundTrip(front);
      NibbleLabelRoundTrip(ip[|ip| - 1], rest);
      assert ip == front + [ip[|ip| - 1]];
    }
  }

  /** The IPv6 reverse name of an address that is not IPv4 decodes back to
      its bytes. */
  lemma PTRIPv6RoundTrip(ip: IP)
    requires To4(ip.bytes).None?
    ensures DecodeReverseNibbles(PTR(ip)[..4 * |ip.bytes|]) == ip.bytes
  {
    assert PTR(ip)[..4 * |ip.bytes|] == ReverseNibbles(ip.bytes);
    ReverseNibblesRoundTrip(ip.bytes);
  }

  /** `Subdomains(sub, base)`: nothing unless `sub` has more dots than `base`;
      otherwise one name per extra dot, the i-th being `sub` with its first
      i labels dropped. */
  function Subdomains(sub: string, base: string): (r: seq<string>)
    ensures r == [] <==> Count(sub, '.') <= Count(base, '.')
    ensures r != [] ==> |r| == Count(sub, '.') - Count(base, '.')
  {
    var ls := Count(sub, '.');
    var lb := Count(base, '.');
    if ls <= lb then []
    else
      var parts := Split(sub, '.');
      seq(ls - lb, i requires 0 <= i < ls - lb => Join(parts[i..], '.'))
  }

  /** Entry i of `Subdomains(sub, base)` is the suffix of `sub` that starts
      right after its i-th dot, so it has i fewer dots than `sub`: the most
      specific name comes first and the last has exactly one more label than
      `base`. Only dot counts are compared; `base` itself is never matched
      against `sub`. */
  lemma SubdomainsEntry(sub: string, base: string, i: nat)
    requires i < |Subdomains(sub, base)|
    ensures var k := LabelStart(sub, '.', i);
            && Subdomains(sub, base)[i] == sub[k..]
            && (i > 0 ==> sub[k - 1] == '.')
            && Count(Subdomains(sub, base)[i], '.') == Count(sub, '.') - i
    ensures i == |Subdomains(sub, base)| - 1 ==> Count(Subdomains(sub, base)[i], '.') == Count(base, '.') + 1
  {
    var r := Subdomains(sub, base);
    assert r[i] == Join(Split(sub, '.')[i..], '.');
    JoinSplitSuffix(sub, '.', i);
    LabelSuffixCount(sub, '.', i);
  }

  /** The base of the worked example has one dot. */
  lemma BaseDots()
    ensures Count("base.com", '.') == 1
  {
    CountMultiset("base.com", '.');
  }

  /** The labels the worked example adds to its base carry three dots. */
  lemma LabelDots()
    ensures Count("a.b.c.", '.') == 3
  {
    CountMultiset("a.b.c.", '.');
  }

  /** The dot counts of the worked example. */
  lemma SubdomainsExampleDots()
    ensures Count("a.b.c.base.com", '.') == 4 && Count("base.com", '.') == 1
  {
    BaseDots();
    LabelDots();
    assert "a.b.c.base.com" == "a.b.c." + "base.com";
    CountConcat("a.b.c.", "base.com", '.');
  }

  /** Where the second and third entries of the worked example start. */
  lemma ExampleLabelStarts()
    ensures Count("a.b.c.base.com", '.') == 4
    ensures LabelStart("a.b.c.base.com", '.', 1) == 2
    ensures LabelStart("a.b.c.base.com", '.', 2) == 4
  {
    var sub := "a.b.c.base.com";
    SubdomainsExampleDots();
    assert LabelStart(sub[1..], '.', 1) == 1 + LabelStart(sub[2..], '.', 0);
    assert LabelStart(sub[1..], '.', 2) == 1 + LabelStart(sub[2..], '.', 1);
    assert LabelStart(sub[2..], '.', 1) == 1 + LabelStart(sub[3..], '.', 1);
    assert LabelStart(sub[3..], '.', 1) == 1 + LabelStart(sub[4..], '.', 0);
  }

  /** Entry `i` of the worked example, from the dot counts and label
      starts above. */
  lemma ExampleEntry(i: nat)
    requires i < 3
    ensures |Subdomains("a.b.c.base.com", "base.com")| == 3
    ensures Subdomains("a.b.c.base.com", "base.com")[i] == ["a.b.c.base.com", "b.c.base.com", "c.base.com"][i]
  {
    var sub := "a.b.c.base.com";
    SubdomainsExampleDots();
    ExampleLabelStarts();
    SubdomainsEntry(sub, "base.com", i);
    if i == 0 {
      assert sub[LabelStart(sub, '.', 0)..] == sub;
    } else if i == 1 {
      assert sub[2..] == "b.c.base.com";
    } else {
      assert sub[4..] == "c.base.com";
    }
  }

  /** The worked example of the package's test: most specific first. */
  lemma SubdomainsExample()
    ensures Subdomains("a.b.c.base.com", "base.com") == ["a.b.c.base.com", "b.c.base.com", "c.base.com"]
  {
    ExampleEntry(0);
    ExampleEntry(1);
    ExampleEntry(2);
    SameEntries(Subdomains("a.b.c.base.com", "base.com"), ["a.b.c.base.com", "b.c.base.com", "c.base.com"]);
  }

  /** Two three-element lists that agree entry by entry are equal. */
  lemma SameEntries(r: seq<string>, want: seq<string>)
    requires |r| == |want| == 3 && r[0] == want[0] && r[1] == want[1] && r[2] == want[2]
    ensures r == want
  {
  }
}
