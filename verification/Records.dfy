/** Resource records, server replies and lookup results. */
module Records {
  import opened Sequences
  import opened Names

  type Byte = b: nat | b < 256
  type U16 = n: nat | n < 0x1_0000
  type U32 = n: nat | n < 0x1_0000_0000

  const TYPE_A: U16 := 1
  const TYPE_NS: U16 := 2
  const TYPE_CNAME: U16 := 5
  const TYPE_SOA: U16 := 6
  const TYPE_AAAA: U16 := 28

  const CLASS_INET: U16 := 1

  const RCODE_SUCCESS: nat := 0
  const RCODE_NAME_ERROR: nat := 3

  /** A type code other than the five the resolver looks inside. */
  type OtherType = t: U16 | t !in {1, 2, 5, 6, 28} witness 16

  datatype Data =
    | A(ip: seq<Byte>)
    | AAAA(ip6: seq<Byte>)
    | NS(host: Name)
    | CNAME(target: Name)
    | SOA(minTtl: U32)
    | Other(code: OtherType)

  datatype RR = RR(owner: Name, ttl: U32, data: Data) {
    /** The type field of the header, which for a record read off the wire decides the RDATA. */
    function Type(): U16 {
      match data
      case A(_) => TYPE_A
      case AAAA(_) => TYPE_AAAA
      case NS(_) => TYPE_NS
      case CNAME(_) => TYPE_CNAME
      case SOA(_) => TYPE_SOA
      case Other(code) => code
    }
  }

  /** The type codes of RFC 1035, section 3.2.2, and RFC 3596, section 2.1. */
  lemma TypeCodes(r: RR)
    ensures r.data.A? <==> r.Type() == 1
    ensures r.data.NS? <==> r.Type() == 2
    ensures r.data.CNAME? <==> r.Type() == 5
    ensures r.data.SOA? <==> r.Type() == 6
    ensures r.data.AAAA? <==> r.Type() == 28
  {
  }

  type Addr = seq<Byte>

  /** An address needs exactly 4 or 16 bytes. */
  function AddrFromSlice(ip: seq<Byte>): Option<Addr> {
    if |ip| == 4 || |ip| == 16 then Some(ip) else None
  }

  datatype NameServer = NameServer(name: Name, addr: Addr)

  /** What a queried server may send back: nothing in it is constrained. */
  datatype Reply = Reply(rcode: nat, answer: seq<RR>, ns: seq<RR>, extra: seq<RR>)

  datatype LookupResult = LookupResult(rcode: nat, answer: seq<RR>, ns: seq<RR>, extra: seq<RR>)

  datatype Outcome<+T, +E> = Ok(value: T) | Err(error: E)

  datatype Error =
    | CacheMissNoServers(name: Name, qtype: U16)
    | Cancelled
    | AllServersFailed(name: Name, qtype: U16)
    | BudgetExceeded(name: Name, qtype: U16)
    | NoProgress(name: Name, qtype: U16, zone: Name)
    | ReferralFailed(name: Name, qtype: U16, zone: Name, cause: Error)
    | HopsExceeded(name: Name, qtype: U16)
    | GlueTooDeep(names: seq<Name>)
    | NoAddress(names: seq<Name>, last: Option<Error>)
    | RestartsExceeded(name: Name, qtype: U16)

  predicate HasNS(rrs: seq<RR>) {
    exists r :: r in rrs && r.data.NS?
  }
}
