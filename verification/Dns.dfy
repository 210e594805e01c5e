// The parts of DNS messages the plugins look at or change.
module Dns {
  import opened Text

  type uint16 = x: int | 0 <= x < 0x1_0000
  type uint32 = x: int | 0 <= x < 0x1_0000_0000

  const RCODE_SUCCESS: nat := 0
  const RCODE_SERVFAIL: nat := 2
  const RCODE_NXDOMAIN: nat := 3
  const RCODE_REFUSED: nat := 5

  const TYPE_OPT: uint16 := 41

  datatype Question = Question(name: string, qtype: uint16, qclass: uint16)

  /** A resource record; data stands for everything but its type and TTL. */
  datatype Record = Record(rtype: uint16, data: string, ttl: uint32)

  const OPCODE_QUERY: nat := 0

  /** The header bits a reply takes over from its request. */
  datatype Flags = Flags(response: bool, opcode: nat, rd: bool, cd: bool)

  datatype Message = Message(
    id: uint16,
    flags: Flags,
    rcode: nat,
    truncated: bool,
    question: seq<Question>,
    answer: seq<Record>,
    ns: seq<Record>,
    extra: seq<Record>)

  /** A query, with its Recursion Desired, DNSSEC OK and Checking Disabled flags. */
  datatype Request = Request(
    id: uint16,
    opcode: nat,
    question: seq<Question>,
    rd: bool,
    do: bool,
    cd: bool)
  {
    /** The query name, lowercased; the root when there is no question. */
    function Name(): string {
      if question == [] then "." else Lower(question[0].name)
    }

    function QType(): uint16 {
      if question == [] then 0 else question[0].qtype
    }

    function QClass(): uint16 {
      if question == [] then 0 else question[0].qclass
    }
  }

  /** What a request asks, as it spells it; the root, of no type or class, without a question. */
  function FirstQuestion(r: Request): Question {
    if r.question == [] then Question(".", 0, 0) else r.question[0]
  }

  /** Name up to ASCII letter case, type and class. */
  predicate SameQuestion(a: Request, b: Request) {
    && SameText(FirstQuestion(a).name, FirstQuestion(b).name)
    && FirstQuestion(a).qtype == FirstQuestion(b).qtype
    && FirstQuestion(a).qclass == FirstQuestion(b).qclass
  }

  lemma SameQuestionExactly(a: Request, b: Request)
    ensures SameQuestion(a, b) <==> a.Name() == b.Name() && a.QType() == b.QType() && a.QClass() == b.QClass()
  {
    var x, y := FirstQuestion(a).name, FirstQuestion(b).name;
    LowerExactly(x, y);
    assert Lower(".") == ".";
    assert a.Name() == Lower(x) && b.Name() == Lower(y);
  }

  /** A reply's flags: RD and CD are the request's if it is a query, and kept otherwise. */
  function ReplyFlags(f: Flags, r: Request): Flags {
    if r.opcode == OPCODE_QUERY then Flags(true, r.opcode, r.rd, r.cd) else Flags(true, r.opcode, f.rd, f.cd)
  }

  function ReplyQuestion(q: seq<Question>, r: Request): seq<Question> {
    if r.question == [] then q else [r.question[0]]
  }

  /** m readdressed to a request, keeping its response code: dns.Msg.SetRcode. */
  function Retarget(m: Message, r: Request): Message {
    m.(id := r.id, flags := ReplyFlags(m.flags, r), question := ReplyQuestion(m.question, r))
  }

  /** m is a response to this very request. */
  predicate AddressedTo(m: Message, r: Request) {
    && m.id == r.id && m.flags.response && m.flags.opcode == r.opcode
    && (r.opcode == 0 ==> m.flags.rd == r.rd && m.flags.cd == r.cd)
    && (r.question != [] ==> m.question == [r.question[0]])
  }

  /** Readdressing makes any message a response to the request, and leaves exactly those alone. */
  lemma RetargetExactly(m: Message, r: Request)
    ensures AddressedTo(Retarget(m, r), r)
    ensures Retarget(m, r) == m <==> AddressedTo(m, r)
  {
  }

  /** NOERROR and NXDOMAIN answers that are complete can end a race. */
  predicate Useful(m: Message) {
    !m.truncated && (m.rcode == RCODE_SUCCESS || m.rcode == RCODE_NXDOMAIN)
  }

  function Records(m: Message): seq<Record> {
    m.answer + m.ns + m.extra
  }
}
