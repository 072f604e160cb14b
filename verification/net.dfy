/** The parts of Go's `net.IP` the source relies on: an address is its raw
    bytes, `To4` recognises the IPv4 forms, and `String` prints an IPv4 address
    as a dotted quad. What `String` prints for any other address is not
    computed: an address carries it as given. */
module Net {
  import opened Outcomes
  import opened Text

  type byte = x: int | 0 <= x < 256

  /** An address: `bytes` is the `net.IP` byte slice; `v6text` stands for
      what `net.IP.String` prints when the address is not an IPv4 one. */
  datatype IP = IP(bytes: seq<byte>, v6text: string)

  /** `net.IP.To4`: the four IPv4 bytes of a 4-byte address or of an
      IPv4-mapped 16-byte address (`::ffff:a.b.c.d`), and nothing otherwise. */
  function To4(ip: seq<byte>): (r: Option<seq<byte>>)
    ensures r.Some? ==> |r.value| == 4
    ensures r.Some? <==> |ip| == 4 || (|ip| == 16 && ip[..12] == [0,0,0,0,0,0,0,0,0,0,255,255])
    ensures r.Some? ==> r.value == ip[|ip| - 4..]
  {
    if |ip| == 4 then Some(ip)
    else if |ip| == 16 && (forall i :: 0 <= i < 10 ==> ip[i] == 0) && ip[10] == 255 && ip[11] == 255 then
      Some(ip[12..16])
    else None
  }

  /** `a.b.c.d` with each octet in decimal. */
  function DottedQuad(q: seq<byte>): (s: string)
    requires |q| == 4
    ensures Split(s, '.') == [Decimal(q[0]), Decimal(q[1]), Decimal(q[2]), Decimal(q[3])]
  {
    var s := Decimal(q[0]) + ['.'] + (Decimal(q[1]) + ['.'] + (Decimal(q[2]) + ['.'] + Decimal(q[3])));
    SplitDotted(Decimal(q[0]), Decimal(q[1]), Decimal(q[2]), Decimal(q[3]));
    s
  }

  lemma SplitDotted(d0: string, d1: string, d2: string, d3: string)
    requires '.' !in d0 && '.' !in d1 && '.' !in d2 && '.' !in d3
    ensures Split(d0 + ['.'] + (d1 + ['.'] + (d2 + ['.'] + d3)), '.') == [d0, d1, d2, d3]
  {
    SplitNoSep(d0, '.');
    SplitNoSep(d1, '.');
    SplitNoSep(d2, '.');
    SplitNoSep(d3, '.');
    SplitAround(d2, '.', d3);
    SplitAround(d1, '.', d2 + ['.'] + d3);
    SplitAround(d0, '.', d1 + ['.'] + (d2 + ['.'] + d3));
  }

  /** `net.IP.String`: the dotted quad of the IPv4 form when there is one,
      and otherwise the text the address carries. */
  function String(ip: IP): (r: string)
    ensures To4(ip.bytes).None? ==> r == ip.v6text
    ensures To4(ip.bytes).Some? ==>
              var q := To4(ip.bytes).value;
              Split(r, '.') == [Decimal(q[0]), Decimal(q[1]), Decimal(q[2]), Decimal(q[3])]
  {
    match To4(ip.bytes)
    case Some(q) => DottedQuad(q)
    case None => ip.v6text
  }

  /** The text of an IPv4 address reads back, octet by octet, as the last
      four bytes of the address. */
  lemma StringOctets(ip: IP)
    requires To4(ip.bytes).Some?
    ensures |Split(String(ip), '.')| == 4
    ensures forall i :: 0 <= i < 4 ==> ParseDecimal(Split(String(ip), '.')[i]) == ip.bytes[|ip.bytes| - 4 + i]
  {
    var q := To4(ip.bytes).value;
    DecimalRoundTrip(q[0]);
    DecimalRoundTrip(q[1]);
    DecimalRoundTrip(q[2]);
    DecimalRoundTrip(q[3]);
  }
}
