/** DNS messages as the resolver sees them after decoding: a header, a
    question list and three resource-record lists. The wire codec is not
    part of this model; a message here is what `DNS.deserialize` yields. */
module Packet {

  /** Record type codes: section 3.2.2 of RFC 1035, and AAAA from section
      2.1 of RFC 3596. */
  const TYPE_A: int := 1
  const TYPE_NS: int := 2
  const TYPE_CNAME: int := 5
  const TYPE_SOA: int := 6
  const TYPE_TXT: int := 16
  const TYPE_AAAA: int := 28

  /** Record data, by the rdata class the decoder gives it. */
  datatype RData =
    | Address(addr: seq<bv8>)   // DNSRdataAddress
    | Name(target: string)      // DNSRdataName
    | Text(text: string)        // DNSRdataText
    | Other(bytes: seq<bv8>)    // any other rdata class (SOA and the rest)

  datatype Record = Record(name: string, rtype: int, ttl: int, data: RData)

  datatype Question = Question(name: string, qtype: int)

  /** The header flag fields of a DNS message. */
  datatype Flags = Flags(
    query: bool,
    opcode: int,
    authoritative: bool,
    truncated: bool,
    recursionDesired: bool,
    recursionAvailable: bool,
    authenticated: bool,
    checkingDisabled: bool,
    rcode: int)

  datatype Message = Message(
    id: int,
    flags: Flags,
    questions: seq<Question>,
    answers: seq<Record>,
    authorities: seq<Record>,
    additional: seq<Record>)

  /** The header of a freshly constructed `DNS` object. */
  const DEFAULT_FLAGS := Flags(false, 0, false, false, false, false, false, false, 0)

  /** A freshly constructed `DNS` object: no records, zero identifier. */
  const EMPTY_MESSAGE := Message(0, DEFAULT_FLAGS, [], [], [], [])

  /** The mutable `DNS` object whose setters the resolver calls. */
  class Dns {
    var id: int
    var query: bool
    var opcode: int
    var authoritative: bool
    var truncated: bool
    var recursionDesired: bool
    var recursionAvailable: bool
    var authenticated: bool
    var checkingDisabled: bool
    var rcode: int
    var questions: seq<Question>
    var answers: seq<Record>
    var authorities: seq<Record>
    var additional: seq<Record>

    /** The message the object currently holds. */
    function Value(): Message
      reads this
    {
      Message(id,
              Flags(query, opcode, authoritative, truncated, recursionDesired,
                    recursionAvailable, authenticated, checkingDisabled, rcode),
              questions, answers, authorities, additional)
    }

    /** `new DNS()`. */
    constructor ()
      ensures Value() == EMPTY_MESSAGE
    {
      id := 0;
      query, opcode, authoritative, truncated := false, 0, false, false;
      recursionDesired, recursionAvailable := false, false;
      authenticated, checkingDisabled, rcode := false, false, 0;
      questions, answers, authorities, additional := [], [], [], [];
    }

    /** The object `DNS.deserialize` returns for a message `m`. */
    constructor Decoded(m: Message)
      ensures Value() == m
    {
      id := m.id;
      query, opcode := m.flags.query, m.flags.opcode;
      authoritative, truncated := m.flags.authoritative, m.flags.truncated;
      recursionDesired, recursionAvailable := m.flags.recursionDesired, m.flags.recursionAvailable;
      authenticated, checkingDisabled := m.flags.authenticated, m.flags.checkingDisabled;
      rcode := m.flags.rcode;
      questions, answers, authorities, additional := m.questions, m.answers, m.authorities, m.additional;
    }
  }
}
