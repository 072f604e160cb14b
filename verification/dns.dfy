/** The deterministic parts of one DNS query (dns.go): the checks on the
    name and the record type, the question that is sent, the server
    endpoint, and the per-type extraction of strings from the answer
    records. The exchange itself is a parameter: it maps the message and the
    endpoint to the answer records or a transport error. */
module Dns {
  import opened Outcomes
  import opened Text
  import opened Net

  /** The DNS service port every query goes to. */
  const Port: nat := 53

  const TypeA: string := "A"
  const TypeAAAA: string := "AAAA"
  const TypeNS: string := "NS"
  const TypeMX: string := "MX"
  const TypeTXT: string := "TXT"
  const TypeSRV: string := "SRV"
  const TypeCNAME: string := "CNAME"
  const TypePTR: string := "PTR"

  /** Every supported type tag, in the order the package lists them. */
  const TypesAll: seq<string> := [TypeA, TypeAAAA, TypeNS, TypeMX, TypeTXT, TypeSRV, TypeCNAME, TypePTR]

  /** The supported tags and their RR type codes (section 3.2.2 of RFC 1035,
      section 2.1 of RFC 3596 for AAAA, RFC 2782 for SRV). */
  const QtypeMap: map<string, nat> :=
    map[TypeA := 1, TypeAAAA := 28, TypeNS := 2, TypeMX := 15,
        TypeTXT := 16, TypeSRV := 33, TypeCNAME := 5, TypePTR := 12]

  /** The Internet class, IN. */
  const ClassINET: nat := 1

  datatype Question = Question(name: string, qtype: nat, qclass: nat)

  /** The query message; its random id is not modelled. */
  datatype Msg = Msg(recursionDesired: bool, question: Question)

  /** An answer record as the extraction sees it: the field it reads, or
      just the RR type code for a record of a type it never reads. Addresses
      are given as their text. */
  datatype Record =
    | ARecord(a: string)
    | AAAARecord(aaaa: string)
    | NSRecord(ns: string)
    | MXRecord(mx: string)
    | TXTRecord(txt: seq<string>)
    | SRVRecord(target: string)
    | CNAMERecord(target: string)
    | PTRRecord(ptr: string)
    | OtherRecord(rrtype: nat)

  /** What one exchange with a server gives back. */
  datatype Exchange = Answer(records: seq<Record>) | TransportError(reason: string)

  type Exchanger = (Msg, string) -> Exchange

  datatype QueryError = EmptyName | InvalidQueryType | Transport(reason: string)

  /** The text of the error a query returns. */
  function ErrorText(e: QueryError): string
  {
    match e
    case EmptyName => "empty name"
    case InvalidQueryType => "invalid Query type"
    case Transport(reason) => reason
  }

  /** The type tags agree with the list of all types. */
  lemma TypesAllAreTheMapKeys()
    ensures forall t :: t in QtypeMap <==> t in TypesAll
    ensures |TypesAll| == 8
  {
  }

  /** The name made fully qualified: a final dot is added unless present. */
  function Fqdn(name: string): (r: string)
    requires |name| > 0
    ensures |name| <= |r| <= |name| + 1 && r[..|name|] == name
    ensures r[|r| - 1] == '.'
    ensures name[|name| - 1] == '.' ==> r == name
  {
    if name[|name| - 1] != '.' then name + "." else name
  }

  /** Qualifying a name twice is qualifying it once. */
  lemma FqdnIdempotent(name: string)
    requires |name| > 0
    ensures Fqdn(Fqdn(name)) == Fqdn(name)
  {
  }

  /** The message sent for a name and a supported type tag. */
  function Request(name: string, qtype: string): (m: Msg)
    requires |name| > 0 && qtype in QtypeMap
    ensures m.recursionDesired && m.question.qclass == ClassINET
    ensures |name| <= |m.question.name| && m.question.name[..|name|] == name
    ensures m.question.name[|m.question.name| - 1] == '.'
    ensures forall t :: t in QtypeMap && QtypeMap[t] == m.question.qtype ==> t == qtype
    ensures m.question.qtype == QtypeMap[qtype] && m.question.name == Fqdn(name)
  {
    Msg(true, Question(Fqdn(name), QtypeMap[qtype], ClassINET))
  }

  /** `getAddr`: the `host:port` endpoint of a server, with the host of a
      non-IPv4 address bracketed. */
  function GetAddr(ip: IP): (r: string)
    ensures |r| > 0 && (r[0] == '[' <==> To4(ip.bytes).None?)
  {
    if To4(ip.bytes).None? then "[" + String(ip) + "]:" + Decimal(Port)
    else
      DottedQuadHasNoBracket(To4(ip.bytes).value);
      String(ip) + ":" + Decimal(Port)
  }

  /** The last index of `c` in `s`. */
  function LastIndex(s: string, c: char): (r: Option<nat>)
    ensures r.Some? ==> r.value < |s| && s[r.value] == c && c !in s[r.value + 1..]
    ensures r.None? ==> c !in s
  {
    if |s| == 0 then None
    else if s[|s| - 1] == c then Some(|s| - 1)
    else
      var r := LastIndex(s[..|s| - 1], c);
      assert s == s[..|s| - 1] + [s[|s| - 1]];
      r
  }

  /** The last `c` is the one that nothing after it repeats. */
  lemma {:induction false} LastIndexBefore(x: string, c: char, y: string)
    requires c !in y
    ensures LastIndex(x + [c] + y, c) == Some(|x|)
    decreases |y|
  {
    var s := x + [c] + y;
    if |y| > 0 {
      assert s[..|s| - 1] == x + [c] + y[..|y| - 1];
      LastIndexBefore(x, c, y[..|y| - 1]);
    }
  }

  /** An endpoint read back as host and port, the way a dialer splits it:
      the port follows the last colon, and a bracketed host loses its
      brackets. */
  function HostPort(addr: string): Option<(string, string)>
  {
    match LastIndex(addr, ':')
    case None => None
    case Some(k) => Some((Unbracket(addr[..k]), addr[k + 1..]))
  }

  /** A host without the brackets around it, if it has them. */
  function Unbracket(host: string): string
  {
    if 2 <= |host| && host[0] == '[' && host[|host| - 1] == ']' then host[1..|host| - 1] else host
  }

  /** An endpoint whose port has no colon splits back into its host and port. */
  lemma HostPortSplit(host: string, port: string)
    requires ':' !in port
    ensures HostPort(host + [':'] + port) == Some((Unbracket(host), port))
  {
    var addr := host + [':'] + port;
    LastIndexBefore(host, ':', port);
    assert addr[..|host|] == host;
    assert addr[|host| + 1..] == port;
  }

  /** The endpoint names the server's address and port 53. */
  lemma GetAddrRoundTrip(ip: IP)
    ensures HostPort(GetAddr(ip)) == Some((String(ip), "53"))
  {
    assert Decimal(Port) == "53";
    if To4(ip.bytes).None? {
      assert GetAddr(ip) == "[" + String(ip) + "]" + [':'] + "53";
      HostPortSplit("[" + String(ip) + "]", "53");
      assert Unbracket("[" + String(ip) + "]") == String(ip);
    } else {
      assert GetAddr(ip) == String(ip) + [':'] + "53";
      HostPortSplit(String(ip), "53");
      DottedQuadHasNoBracket(To4(ip.bytes).value);
    }
  }

  lemma DottedQuadHasNoBracket(q: seq<byte>)
    requires |q| == 4
    ensures |DottedQuad(q)| == 0 || DottedQuad(q)[0] != '['
  {
  }

  /** The type tag a record answers to, if it is of a supported type. */
  function Tag(rec: Record): Option<string>
  {
    match rec
    case ARecord(_) => Some(TypeA)
    case AAAARecord(_) => Some(TypeAAAA)
    case NSRecord(_) => Some(TypeNS)
    case MXRecord(_) => Some(TypeMX)
    case TXTRecord(_) => Some(TypeTXT)
    case SRVRecord(_) => Some(TypeSRV)
    case CNAMERecord(_) => Some(TypeCNAME)
    case PTRRecord(_) => Some(TypePTR)
    case OtherRecord(_) => None
  }

  /** The types whose host names are printed without surrounding dots. */
  predicate IsHostType(qtype: string)
  {
    qtype in {TypeNS, TypeMX, TypeSRV, TypeCNAME, TypePTR}
  }

  /** The one string the post-processing table gives for a record of a
      single-valued type: the address as is, or the host name with its
      dots trimmed. */
  function Value(rec: Record): string
  {
    match rec
    case ARecord(a) => a
    case AAAARecord(a) => a
    case NSRecord(h) => Trim(h, '.')
    case MXRecord(h) => Trim(h, '.')
    case SRVRecord(h) => Trim(h, '.')
    case CNAMERecord(h) => Trim(h, '.')
    case PTRRecord(h) => Trim(h, '.')
    case TXTRecord(_) => ""
    case OtherRecord(_) => ""
  }

  /** The records of the queried type, in the order received. */
  function Matching(qtype: string, rs: seq<Record>): (ms: seq<Record>)
    ensures |ms| <= |rs|
    ensures forall i :: 0 <= i < |ms| ==> Tag(ms[i]) == Some(qtype) && ms[i] in rs
    ensures forall x :: x in rs && Tag(x) == Some(qtype) ==> x in ms
  {
    if |rs| == 0 then []
    else
      var last := rs[|rs| - 1];
      Matching(qtype, rs[..|rs| - 1]) + (if Tag(last) == Some(qtype) then [last] else [])
  }

  /** Matching keeps received order: the matches of a concatenation are the
      matches of its first part followed by those of its second. */
  lemma {:induction false} MatchingConcat(qtype: string, a: seq<Record>, b: seq<Record>)
    ensures Matching(qtype, a + b) == Matching(qtype, a) + Matching(qtype, b)
    decreases |b|
  {
    if |b| > 0 {
      var b' := b[..|b| - 1];
      assert (a + b)[..|a + b| - 1] == a + b';
      MatchingConcat(qtype, a, b');
    } else {
      assert a + b == a;
    }
  }

  /** The strings of one record under the switch on the queried type. */
  function Pick(qtype: string, rec: Record): seq<string>
  {
    if qtype == TypeA then (if rec.ARecord? then [rec.a] else [])
    else if qtype == TypeAAAA then (if rec.AAAARecord? then [rec.aaaa] else [])
    else if qtype == TypeNS then (if rec.NSRecord? then [Trim(rec.ns, '.')] else [])
    else if qtype == TypeMX then (if rec.MXRecord? then [Trim(rec.mx, '.')] else [])
    else if qtype == TypeTXT then (if rec.TXTRecord? then rec.txt else [])
    else if qtype == TypeSRV then (if rec.SRVRecord? then [Trim(rec.target, '.')] else [])
    else if qtype == TypeCNAME then (if rec.CNAMERecord? then [Trim(rec.target, '.')] else [])
    else if qtype == TypePTR then (if rec.PTRRecord? then [Trim(rec.ptr, '.')] else [])
    else []
  }

  /** The strings a query returns from the answer records, appended record
      by record in the order received. */
  function Extract(qtype: string, rs: seq<Record>): seq<string>
  {
    if |rs| == 0 then []
    else Extract(qtype, rs[..|rs| - 1]) + Pick(qtype, rs[|rs| - 1])
  }

  /** Extraction works record by record: the strings of two lists of
      records joined are those of the first followed by those of the second. */
  lemma {:induction false} ExtractConcat(qtype: string, a: seq<Record>, b: seq<Record>)
    ensures Extract(qtype, a + b) == Extract(qtype, a) + Extract(qtype, b)
    decreases |b|
  {
    if |b| > 0 {
      var b' := b[..|b| - 1];
      assert (a + b)[..|a + b| - 1] == a + b';
      ExtractConcat(qtype, a, b');
    } else {
      assert a + b == a;
    }
  }

  /** For a single-valued supported type, a record contributes its table
      value exactly when it is of that type. */
  lemma PickSingle(qtype: string, rec: Record)
    requires qtype in QtypeMap && qtype != TypeTXT
    ensures Pick(qtype, rec) == if Tag(rec) == Some(qtype) then [Value(rec)] else []
  {
  }

  /** For every supported type except TXT, the query yields one string per
      record of that type, in the order received, each the record's table
      value; records of other types are skipped. */
  lemma {:induction false} ExtractSingles(qtype: string, rs: seq<Record>)
    requires qtype in QtypeMap && qtype != TypeTXT
    ensures |Extract(qtype, rs)| == |Matching(qtype, rs)|
    ensures forall i :: 0 <= i < |Extract(qtype, rs)| ==> Extract(qtype, rs)[i] == Value(Matching(qtype, rs)[i])
    decreases |rs|
  {
    if |rs| > 0 {
      ExtractSingles(qtype, rs[..|rs| - 1]);
      PickSingle(qtype, rs[|rs| - 1]);
    }
  }

  /** Neither end of `e` is a dot. */
  predicate Undotted(e: string)
  {
    |e| == 0 || (e[0] != '.' && e[|e| - 1] != '.')
  }

  /** The table value of a host-name record has no dot at either end. */
  lemma ValueUndotted(rec: Record)
    requires rec.NSRecord? || rec.MXRecord? || rec.SRVRecord? || rec.CNAMERecord? || rec.PTRRecord?
    ensures Undotted(Value(rec))
  {
  }

  lemma PickTrimmed(qtype: string, rec: Record)
    requires IsHostType(qtype)
    ensures forall e :: e in Pick(qtype, rec) ==> Undotted(e)
  {
    PickSingle(qtype, rec);
    if Tag(rec) == Some(qtype) {
      ValueUndotted(rec);
    }
  }

  /** For the host types, no returned name starts or ends with a dot. */
  lemma {:induction false} ExtractTrimmed(qtype: string, rs: seq<Record>)
    requires IsHostType(qtype)
    ensures forall i :: 0 <= i < |Extract(qtype, rs)| ==> Undotted(Extract(qtype, rs)[i])
    decreases |rs|
  {
    if |rs| > 0 {
      ExtractTrimmed(qtype, rs[..|rs| - 1]);
      PickTrimmed(qtype, rs[|rs| - 1]);
    }
  }

  /** A TXT query yields the segments of the TXT records only: a TXT record
      alone gives all its segments in order, and extracting from the TXT
      records picked out by `Matching` gives the same strings as extracting
      from all the answers. */
  lemma {:induction false} ExtractTXT(rs: seq<Record>)
    ensures forall rec: Record :: rec.TXTRecord? ==> Extract(TypeTXT, [rec]) == rec.txt
    ensures Extract(TypeTXT, Matching(TypeTXT, rs)) == Extract(TypeTXT, rs)
    decreases |rs|
  {
    forall rec: Record | rec.TXTRecord?
      ensures Extract(TypeTXT, [rec]) == rec.txt
    {
      assert [rec][..0] == [];
    }
    if |rs| > 0 {
      var init := rs[..|rs| - 1];
      var last := rs[|rs| - 1];
      ExtractTXT(init);
      var tail := if Tag(last) == Some(TypeTXT) then [last] else [];
      assert Matching(TypeTXT, rs) == Matching(TypeTXT, init) + tail;
      ExtractConcat(TypeTXT, Matching(TypeTXT, init), tail);
      assert Extract(TypeTXT, tail) == Pick(TypeTXT, last) by {
        if tail == [] {
          assert !last.TXTRecord?;
        } else {
          assert tail[..0] == [];
        }
      }
    }
  }

  /** A string is returned for a TXT query exactly when it is a segment of
      one of the TXT records received. */
  lemma {:induction false} ExtractTXTMembers(rs: seq<Record>, e: string)
    ensures e in Extract(TypeTXT, rs) <==> exists j :: 0 <= j < |rs| && rs[j].TXTRecord? && e in rs[j].txt
    decreases |rs|
  {
    if |rs| > 0 {
      var init := rs[..|rs| - 1];
      var last := rs[|rs| - 1];
      ExtractTXTMembers(init, e);
      assert forall j :: 0 <= j < |init| ==> rs[j] == init[j];
      if e in Extract(TypeTXT, rs) && e !in Extract(TypeTXT, init) {
        assert last.TXTRecord? && e in last.txt;
        assert rs[|rs| - 1] == last;
      }
    }
  }

  /** `Query` against the server at `ip`: an empty name is refused first,
      then an unsupported type; only then is the exchange consulted, and a
      transport error comes back as the error with no result. A successful
      exchange yields the extracted strings, an empty list when nothing
      matches. */
  function Query(ip: IP, name: string, qtype: string, exchange: Exchanger): (r: Result<seq<string>, QueryError>)
    ensures |name| == 0 ==> r == Err(EmptyName) && ErrorText(r.error) == "empty name"
    ensures |name| > 0 && qtype !in QtypeMap ==> r == Err(InvalidQueryType) && ErrorText(r.error) == "invalid Query type"
    ensures r.Err? && r.error.Transport? ==>
              |name| > 0 && qtype in QtypeMap &&
              exchange(Request(name, qtype), GetAddr(ip)) == TransportError(r.error.reason)
    ensures r.Ok? ==>
              |name| > 0 && qtype in QtypeMap &&
              exchange(Request(name, qtype), GetAddr(ip)).Answer? &&
              r.value == Extract(qtype, exchange(Request(name, qtype), GetAddr(ip)).records)
    ensures |name| > 0 && qtype in QtypeMap ==>
              match exchange(Request(name, qtype), GetAddr(ip))
              case TransportError(reason) => r == Err(Transport(reason))
              case Answer(records) => r.Ok?
  {
    if |name| == 0 then Err(EmptyName)
    else if qtype !in QtypeMap then Err(InvalidQueryType)
    else
      match exchange(Request(name, qtype), GetAddr(ip))
      case TransportError(reason) => Err(Transport(reason))
      case Answer(records) => Ok(Extract(qtype, records))
  }

  /** An input error does not depend on the exchange: no exchange can change
      it, because none is attempted. */
  lemma InputErrorsPrecedeExchange(ip: IP, name: string, qtype: string, e1: Exchanger, e2: Exchanger)
    requires |name| == 0 || qtype !in QtypeMap
    ensures Query(ip, name, qtype, e1) == Query(ip, name, qtype, e2)
    ensures Query(ip, name, qtype, e1).Err? && !Query(ip, name, qtype, e1).error.Transport?
  {
  }
}
