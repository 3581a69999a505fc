/** What the DNS server answers, as a function of the packet. */
module DnsReply {
  import opened Bytes
  import opened Network
  import opened DnsNames
  import opened DnsFormat
  import Packetiser

  const HEADER_SIZE: nat := 12
  const QNAME_SIZE: nat := 256

  type u32 = n: nat | n < 0x1_0000_0000
  type ipv4 = s: seq<byte> | |s| == 4 witness [0, 0, 0, 0]
  type replyCode = n: nat | n <= 8   // the enumeration DNSReplyCode

  datatype Config = Config(domain: seq<byte>, ip: ipv4, ttl: u32, errCode: replyCode)

  /** Big-endian bytes, as htons and htonl leave them in memory. */
  function Wire32(n: u32): (r: seq<byte>)
    ensures |r| == 4
  {
    [n / 0x100_0000, n / 0x1_0000 % 0x100, n / 0x100 % 0x100, n % 0x100]
  }

  /** The header bits, laid out as in section 4.1.1 of RFC 1035. */
  predicate IsQuery(p: seq<byte>)
    requires |p| >= HEADER_SIZE
  {
    p[2] / 128 == 0
  }

  predicate OneQuestion(p: seq<byte>)
    requires |p| >= HEADER_SIZE
  {
    && p[4] == 0 && p[5] == 1 && p[6] == 0 && p[7] == 0
    && p[8] == 0 && p[9] == 0 && p[10] == 0 && p[11] == 0
  }

  /** What the server takes for granted about a packet: a whole header and, when
      it announces one question, a terminated name that fits the 256-byte name
      field, followed by type and class. */
  predicate WellFormed(p: seq<byte>) {
    && |p| >= HEADER_SIZE
    && (OneQuestion(p) ==>
          && RawName(p, HEADER_SIZE).Some?
          && RawLength(p, HEADER_SIZE) <= QNAME_SIZE
          && HEADER_SIZE + RawLength(p, HEADER_SIZE) + 4 <= |p|)
  }

  function QueryName(p: seq<byte>): seq<Label>
    requires WellFormed(p) && OneQuestion(p)
  {
    RawName(p, HEADER_SIZE).value
  }

  function SetQr(b: byte): byte { b % 128 + 128 }

  predicate Matches(p: seq<byte>, cfg: Config)
    requires WellFormed(p) && OneQuestion(p)
  {
    cfg.domain == [42] || Normalise(Join(QueryName(p))) == cfg.domain
  }

  /** The one answer: a pointer to offset 12, type A, class IN, lifetime, address. */
  function AnswerBytes(cfg: Config): (r: seq<byte>)
    ensures |r| == 16
  {
    [0xC0, 12, 0, 1, 0, 1] + Wire32(cfg.ttl) + [0, 4] + cfg.ip
  }

  /** The address reply: header, question, and one compressed answer. */
  function AddressReply(p: seq<byte>, cfg: Config): (r: seq<byte>)
    requires WellFormed(p) && OneQuestion(p)
    ensures |r| == 32 + RawLength(p, HEADER_SIZE)
  {
    p[..2] + [SetQr(p[2])] + p[3..6] + p[4..6] + p[8..12]
    + p[12..12 + RawLength(p, HEADER_SIZE) + 4]
    + AnswerBytes(cfg)
  }

  /** The error reply: the header alone, with the question count cleared. */
  function CodeReply(p: seq<byte>, cfg: Config): (r: seq<byte>)
    requires |p| >= HEADER_SIZE
    ensures |r| == HEADER_SIZE
  {
    p[..2] + [SetQr(p[2]), p[3] - p[3] % 16 + cfg.errCode, 0, 0] + p[6..12]
  }

  predicate AddressDue(p: seq<byte>, cfg: Config)
    requires WellFormed(p)
  {
    IsQuery(p) && p[2] / 8 % 16 == 0 && OneQuestion(p) && Matches(p, cfg)
  }

  function Reply(p: seq<byte>, cfg: Config): (r: Option<seq<byte>>)
    requires WellFormed(p)
    ensures r.Some? <==> IsQuery(p)
    ensures r.Some? ==> 0 < |r.value| <= 288
  {
    if AddressDue(p, cfg) then Some(AddressReply(p, cfg))
    else if IsQuery(p) then Some(CodeReply(p, cfg))
    else None
  }

  // ---- The address reply read back by the parser of the standard ------------

  /** Names within the limits of section 2.3.4 of RFC 1035. */
  predicate StandardName(labels: seq<Label>) {
    && (forall l :: l in labels ==> 0 < |l| < 64)
    && |EncodeName(labels)| <= 255
  }

  lemma {:induction false} TopBitAboveOpcode(b: nat)
    requires b < 128
    ensures (b + 128) / 128 == 1 && (b + 128) / 8 % 16 == b / 8 % 16
  {
    assert (b + 128) / 8 == b / 8 + 16;
  }

  lemma {:induction false} TopBitAboveFlags(b: nat)
    requires b < 128
    ensures (b + 128) / 4 % 2 == b / 4 % 2 && (b + 128) / 2 % 2 == b / 2 % 2 && (b + 128) % 2 == b % 2
  {
    assert (b + 128) / 4 == b / 4 + 32;
    assert (b + 128) / 2 == b / 2 + 64;
  }

  lemma {:induction false} SetQrIs(b: byte)
    ensures SetQr(b) == if b < 128 then b + 128 else b
  {
  }

  lemma {:induction false} SetQrBits(b: byte)
    ensures var c := SetQr(b);
            && c / 128 == 1 && c / 8 % 16 == b / 8 % 16
            && c / 4 % 2 == b / 4 % 2 && c / 2 % 2 == b / 2 % 2 && c % 2 == b % 2
  {
    hide SetQr;
    SetQrIs(b);
    if b < 128 {
      TopBitAboveOpcode(b);
      TopBitAboveFlags(b);
    }
  }

  lemma {:induction false} Wire32Digits(n: u32)
    ensures var w := Wire32(n);
            w[0] as int * 0x100_0000 + w[1] as int * 0x1_0000 + w[2] as int * 0x100 + w[3] as int == n
  {
    var a, b := n / 0x1_0000, n / 0x100;
    assert n / 0x100_0000 == a / 0x100 && n / 0x1_0000 == b / 0x100;
  }

  lemma {:induction false} Wire32Reads(p: seq<byte>, at: nat, n: u32)
    requires at + 4 <= |p| && p[at..at + 4] == Wire32(n)
    ensures U32(p, at) == n
  {
    hide Wire32;
    Wire32Digits(n);
    var w := p[at..at + 4];
    assert p[at] == w[0] && p[at + 1] == w[1] && p[at + 2] == w[2] && p[at + 3] == w[3];
  }

  /** Where each part of the address reply lies. */
  lemma {:induction false} AddressReplyLayout(p: seq<byte>, cfg: Config)
    requires WellFormed(p) && OneQuestion(p)
    ensures var r, n := AddressReply(p, cfg), RawLength(p, HEADER_SIZE);
            && r[..2] == p[..2] && r[2] == SetQr(p[2]) && r[3..6] == p[3..6]
            && r[6] == 0 && r[7] == 1 && r[8..12] == p[8..12]
            && r[12..12 + n + 4] == p[12..12 + n + 4]
            && r[16 + n..22 + n] == [0xC0, 12, 0, 1, 0, 1]
            && r[22 + n..26 + n] == Wire32(cfg.ttl)
            && r[26 + n..28 + n] == [0, 4]
            && r[28 + n..] == cfg.ip
  {
    hide RawName, EncodeName, Wire32, SetQr;
    var n := RawLength(p, HEADER_SIZE);
    var a := p[..2] + [SetQr(p[2])] + p[3..6] + p[4..6] + p[8..12];
    var q := p[12..12 + n + 4];
    assert |a| == 12 && |a + q| == 16 + n;
  }

  lemma {:induction false} NameInPlace(p: seq<byte>, r: seq<byte>, n: nat, name: seq<byte>)
    requires 16 + n <= |p| && 16 + n <= |r| && r[12..16 + n] == p[12..16 + n]
    requires p[12..12 + n] == name
    ensures r == r[..12] + name + r[12 + n..]
  {
    assert r[12..12 + n] == r[12..16 + n][..n] == p[12..16 + n][..n] == name;
  }

  lemma {:induction false} NameSurvives(p: seq<byte>, cfg: Config)
    requires WellFormed(p) && OneQuestion(p)
    ensures RawName(AddressReply(p, cfg), HEADER_SIZE) == RawName(p, HEADER_SIZE)
  {
    hide AddressReply, RawName, EncodeName, OneQuestion, Wire32, SetQr;
    var r, n := AddressReply(p, cfg), RawLength(p, HEADER_SIZE);
    AddressReplyLayout(p, cfg);
    RawNameIsEncoded(p, HEADER_SIZE);
    NameInPlace(p, r, n, EncodeName(QueryName(p)));
    EncodedIsRawName(r[..12], QueryName(p), r[12 + n..]);
  }

  /** The header of the address reply: the query's own bits, marked a response. */
  lemma {:induction false} AddressReplyHeader(p: seq<byte>, cfg: Config)
    requires WellFormed(p) && OneQuestion(p)
    ensures ParseHeader(AddressReply(p, cfg)) == ParseHeader(p).(qr := 1, ancount := 1)
  {
    AddressReplyLayout(p, cfg);
    SetQrBits(p[2]);
    var r := AddressReply(p, cfg);
    hide AddressReply;
    assert r[0] == r[..2][0] == p[0] && r[1] == r[..2][1] == p[1];
    assert r[3] == r[3..6][0] == p[3] && r[4] == r[3..6][1] == p[4] && r[5] == r[3..6][2] == p[5];
    assert r[8] == r[8..12][0] == p[8] && r[9] == r[8..12][1] == p[9];
    assert r[10] == r[8..12][2] == p[10] && r[11] == r[8..12][3] == p[11];
  }

  lemma {:induction false} QuestionNameParses(r: seq<byte>)
    requires RawName(r, 12).Some? && StandardName(RawName(r, 12).value)
    ensures ParseShortName(r, 12) == Some((RawName(r, 12).value, 12 + RawLength(r, 12)))
  {
    PlainNameParses(r, 12, 12);
  }

  /** The 0xC00C pointer resolves to the name of the question. */
  lemma {:induction false} PointerResolves(r: seq<byte>, at: nat)
    requires at + 1 < |r| && r[at] == 0xC0 && r[at + 1] == 12 && 12 < at
    requires RawName(r, 12).Some? && StandardName(RawName(r, 12).value)
    ensures ParseShortName(r, at) == Some((RawName(r, 12).value, at + 2))
  {
    hide RawName, EncodeName;
    PlainNameParses(r, 12, 12);
    assert ParseName(r, at, at) == Some((RawName(r, 12).value, at + 2));
  }

  /** Every query of the standard form is one the server can read: a header that
      announces one question, a name within the limits, type and class. */
  lemma {:induction false} StandardQueryIsWellFormed(head: seq<byte>, labels: seq<Label>, tail: seq<byte>)
    requires |head| == HEADER_SIZE && OneQuestion(head) && StandardName(labels) && |tail| >= 4
    ensures var p := head + EncodeName(labels) + tail;
            WellFormed(p) && OneQuestion(p) && QueryName(p) == labels
  {
    EncodedIsRawName(head, labels, tail);
  }

  lemma {:induction false} OneQuestionCounts(p: seq<byte>)
    requires |p| >= HEADER_SIZE
    ensures OneQuestion(p) <==>
              var h := ParseHeader(p); h.qdcount == 1 && h.ancount == 0 && h.nscount == 0 && h.arcount == 0
  {
  }

  /** And so is every packet with a whole header that announces anything else. */
  lemma {:induction false} OtherPacketsAreWellFormed(p: seq<byte>)
    requires |p| >= 12
    requires var h := ParseHeader(p); !(h.qdcount == 1 && h.ancount == 0 && h.nscount == 0 && h.arcount == 0)
    ensures WellFormed(p)
  {
    OneQuestionCounts(p);
  }

  lemma {:induction false} QuestionParses(p: seq<byte>, r: seq<byte>, n: nat, labels: seq<Label>)
    requires 16 + n <= |p| && 16 + n <= |r| && r[12..16 + n] == p[12..16 + n]
    requires RawName(r, 12) == Some(labels) && StandardName(labels) && n == |EncodeName(labels)|
    ensures ParseQuestions(r, 12, 1) == Some(([Question(labels, U16(p, 12 + n), U16(p, 14 + n))], 16 + n))
  {
    hide RawName, EncodeName, ParseName, ParseShortName, StandardName;
    QuestionNameParses(r);
    assert ParseShortName(r, 12) == Some((labels, 12 + n));
    forall k | 12 <= k < 16 + n ensures r[k] == p[k] {
      assert r[k] == r[12..16 + n][k - 12];
    }
    var q := Question(labels, U16(p, 12 + n), U16(p, 14 + n));
    assert ParseQuestions(r, 16 + n, 1 - 1) == Some(([], 16 + n));
    assert [q] + [] == [q];
  }

  lemma {:induction false} AnswerParses(r: seq<byte>, n: nat, labels: seq<Label>, cfg: Config)
    requires |r| == 32 + n
    requires r[16 + n..22 + n] == [0xC0, 12, 0, 1, 0, 1]
    requires r[22 + n..26 + n] == Wire32(cfg.ttl) && r[26 + n..28 + n] == [0, 4] && r[28 + n..] == cfg.ip
    requires RawName(r, 12) == Some(labels) && StandardName(labels) && n == |EncodeName(labels)|
    ensures ParseRecords(r, 16 + n, 1) == Some(([Record(labels, 1, 1, cfg.ttl, cfg.ip)], 32 + n))
  {
    hide RawName, EncodeName, ParseName, ParseShortName, StandardName;
    var k := 18 + n;
    var head, len := r[16 + n..22 + n], r[26 + n..28 + n];
    assert r[16 + n] == head[0] && r[17 + n] == head[1] && r[18 + n] == head[2];
    assert r[19 + n] == head[3] && r[20 + n] == head[4] && r[21 + n] == head[5];
    assert r[26 + n] == len[0] && r[27 + n] == len[1];
    PointerResolves(r, 16 + n);
    Wire32Reads(r, 22 + n, cfg.ttl);
    assert r[28 + n..32 + n] == cfg.ip;
    assert U16(r, k + 8) == 4 && U16(r, k) == 1 && U16(r, k + 2) == 1;
    assert ParseRecords(r, 32 + n, 1 - 1) == Some(([], 32 + n));
    var rr := Record(labels, 1, 1, cfg.ttl, cfg.ip);
    assert [rr] + [] == [rr];
  }

  lemma {:induction false} NoRecords(r: seq<byte>, at: nat)
    ensures ParseRecords(r, at, 0) == Some(([], at))
  {
  }

  /** A message is put together from its parts; here with nothing behind the answers. */
  lemma {:induction false} MessageInParts(r: seq<byte>, h: Header, questions: seq<Question>, at: nat,
                                          answers: seq<Record>)
    requires |r| >= 12 && ParseHeader(r) == h && h.nscount == 0 && h.arcount == 0
    requires ParseQuestions(r, 12, h.qdcount) == Some((questions, at))
    requires ParseRecords(r, at, h.ancount) == Some((answers, |r|))
    ensures ParseMessage(r) == Some(Message(h, questions, answers, [], []))
  {
    hide ParseHeader, ParseQuestions, ParseRecords;
    NoRecords(r, |r|);
  }

  /** What the parser of the standard reads in the query itself. */
  lemma {:induction false} QueryParses(p: seq<byte>)
    requires WellFormed(p) && OneQuestion(p) && StandardName(QueryName(p))
    requires |p| == 16 + RawLength(p, HEADER_SIZE)
    ensures var n := RawLength(p, HEADER_SIZE);
            ParseMessage(p) == Some(Message(ParseHeader(p), [Question(QueryName(p), U16(p, 12 + n), U16(p, 14 + n))],
                                            [], [], []))
  {
    hide RawName, EncodeName, ParseHeader, ParseQuestions, ParseRecords, ParseMessage, StandardName, OneQuestion, U16;
    var n := RawLength(p, HEADER_SIZE);
    OneQuestionCounts(p);
    QuestionParses(p, p, n, QueryName(p));
    NoRecords(p, 16 + n);
    MessageInParts(p, ParseHeader(p), [Question(QueryName(p), U16(p, 12 + n), U16(p, 14 + n))], 16 + n, []);
  }

  lemma {:induction false} AddressReplyQuestion(p: seq<byte>, cfg: Config)
    requires WellFormed(p) && OneQuestion(p) && StandardName(QueryName(p))
    ensures var n := RawLength(p, HEADER_SIZE);
            ParseQuestions(AddressReply(p, cfg), 12, 1) ==
            Some(([Question(QueryName(p), U16(p, 12 + n), U16(p, 14 + n))], 16 + n))
  {
    hide AddressReply, RawName, EncodeName, ParseQuestions, StandardName, OneQuestion, U16, Wire32, SetQr;
    AddressReplyLayout(p, cfg);
    NameSurvives(p, cfg);
    QuestionParses(p, AddressReply(p, cfg), RawLength(p, HEADER_SIZE), QueryName(p));
  }

  lemma {:induction false} AddressReplyAnswer(p: seq<byte>, cfg: Config)
    requires WellFormed(p) && OneQuestion(p) && StandardName(QueryName(p))
    ensures var n := RawLength(p, HEADER_SIZE);
            ParseRecords(AddressReply(p, cfg), 16 + n, 1) ==
            Some(([Record(QueryName(p), 1, 1, cfg.ttl, cfg.ip)], 32 + n))
  {
    hide AddressReply, RawName, EncodeName, ParseRecords, StandardName, OneQuestion, Wire32, SetQr;
    AddressReplyLayout(p, cfg);
    NameSurvives(p, cfg);
    AnswerParses(AddressReply(p, cfg), RawLength(p, HEADER_SIZE), QueryName(p), cfg);
  }

  /** The parser of the standard reads the address reply back: the query's ID and
      flags with QR set, the query's question, and one answer that names the
      question by a pointer and carries type A, class IN, the configured
      lifetime and the configured address. Nothing is left over. */
  lemma {:induction false} AddressReplyParses(p: seq<byte>, cfg: Config)
    requires WellFormed(p) && OneQuestion(p) && StandardName(QueryName(p))
    ensures var n, labels := RawLength(p, HEADER_SIZE), QueryName(p);
            ParseMessage(AddressReply(p, cfg)) ==
            Some(Message(ParseHeader(p).(qr := 1, ancount := 1),
                         [Question(labels, U16(p, 12 + n), U16(p, 14 + n))],
                         [Record(labels, 1, 1, cfg.ttl, cfg.ip)], [], []))
    ensures |AddressReply(p, cfg)| <= 287
  {
    hide AddressReply, RawName, EncodeName, ParseHeader, ParseQuestions, ParseRecords, ParseMessage, OneQuestion, U16,
      Wire32, SetQr;
    var r, n, labels := AddressReply(p, cfg), RawLength(p, HEADER_SIZE), QueryName(p);
    assert |r| == 32 + n && n <= 255;
    OneQuestionCounts(p);
    AddressReplyHeader(p, cfg);
    AddressReplyQuestion(p, cfg);
    AddressReplyAnswer(p, cfg);
    MessageInParts(r, ParseHeader(p).(qr := 1, ancount := 1), [Question(labels, U16(p, 12 + n), U16(p, 14 + n))],
                   16 + n, [Record(labels, 1, 1, cfg.ttl, cfg.ip)]);
  }

  /** Said on messages: the reply is the query with the response bit set and the
      one answer added. */
  lemma {:induction false} ReplyEchoesQuery(p: seq<byte>, cfg: Config)
    requires WellFormed(p) && OneQuestion(p) && StandardName(QueryName(p))
    requires |p| == 16 + RawLength(p, HEADER_SIZE)
    ensures ParseMessage(p).Some? && |ParseMessage(p).value.questions| == 1
    ensures var q := ParseMessage(p).value;
            ParseMessage(AddressReply(p, cfg)) ==
            Some(q.(header := q.header.(qr := 1, ancount := 1),
                    answers := [Record(q.questions[0].name, 1, 1, cfg.ttl, cfg.ip)]))
  {
    hide ParseMessage, AddressReply, RawName, EncodeName;
    QueryParses(p);
    AddressReplyParses(p, cfg);
  }

  // ---- The error reply -------------------------------------------------------

  lemma {:induction false} NoRecordsFit(r: seq<byte>, n: nat)
    requires |r| == 12
    ensures ParseRecords(r, 12, n) == if n == 0 then Some(([], 12)) else None
  {
  }

  lemma {:induction false} CodeReplyHeader(p: seq<byte>, cfg: Config)
    requires |p| >= HEADER_SIZE
    ensures ParseHeader(CodeReply(p, cfg)) == ParseHeader(p).(qr := 1, rcode := cfg.errCode, qdcount := 0)
  {
    hide SetQr;
    var r := CodeReply(p, cfg);
    SetQrBits(p[2]);
    assert r[2] == SetQr(p[2]) && r[4] == 0 && r[5] == 0;
    assert r[3] % 16 == cfg.errCode && r[3] / 16 == p[3] / 16 && r[3] / 128 == p[3] / 128;
  }

  /** The error reply is a message of its own, a bare header, exactly when the
      query announced no answer, authority or additional records: only the
      question count is cleared. Then it carries the query's ID and opcode, the
      response bit and the configured code. */
  lemma {:induction false} CodeReplyParsesIff(p: seq<byte>, cfg: Config)
    requires |p| >= HEADER_SIZE
    ensures var h := ParseHeader(p);
            && (ParseMessage(CodeReply(p, cfg)).Some? <==> h.ancount == 0 && h.nscount == 0 && h.arcount == 0)
            && (ParseMessage(CodeReply(p, cfg)).Some? ==>
                  ParseMessage(CodeReply(p, cfg)).value ==
                  Message(h.(qr := 1, rcode := cfg.errCode, qdcount := 0), [], [], [], []))
  {
    hide SetQr, CodeReply, ParseHeader, ParseRecords;
    var r, h := CodeReply(p, cfg), ParseHeader(p);
    CodeReplyHeader(p, cfg);
    assert ParseQuestions(r, 12, 0) == Some(([], 12));
    NoRecordsFit(r, h.ancount);
    NoRecordsFit(r, h.nscount);
    NoRecordsFit(r, h.arcount);
  }

  /** What every reply has in common, and how the two kinds are told apart. */
  lemma {:induction false} ReplyIsResponse(p: seq<byte>, cfg: Config)
    requires WellFormed(p)
    ensures Reply(p, cfg).Some? <==> IsQuery(p)
    ensures IsQuery(p) ==>
              var r := Reply(p, cfg).value;
              && HEADER_SIZE <= |r| <= 288
              && r[..2] == p[..2] && r[2] == p[2] + 128
              && (|r| > HEADER_SIZE <==> AddressDue(p, cfg))
              && (|r| > HEADER_SIZE ==> r[6] == 0 && r[7] == 1 && r[|r| - 4..] == cfg.ip)
              && (|r| == HEADER_SIZE ==> r[3] % 16 == cfg.errCode && r[4] == 0 && r[5] == 0)
  {
    hide RawName, EncodeName, Matches;
    if AddressDue(p, cfg) {
      AddressReplyLayout(p, cfg);
    }
  }

  // ---- Which names are answered ----------------------------------------------

  /** The decision in full, on the bytes of the packet and the configured domain: a
      query gets the address exactly when its opcode is standard, it announces one
      question and nothing else, and the name, in lower case and without any
      "www.", is the domain, or the domain is "*". Every other query gets the error
      reply, and a response gets nothing. */
  lemma {:induction false} ReplyMeans(p: seq<byte>, cfg: Config)
    requires WellFormed(p)
    ensures p[2] / 128 == 1 ==> Reply(p, cfg) == None
    ensures p[2] / 128 == 0 && !OneQuestion(p) ==> Reply(p, cfg) == Some(CodeReply(p, cfg))
    ensures p[2] / 128 == 0 && OneQuestion(p) ==>
              && AddressReply(p, cfg) != CodeReply(p, cfg)
              && var name := RemoveWww(Lower(Join(RawName(p, 12).value)));
                 Reply(p, cfg) == Some(if p[2] / 8 % 16 == 0 && (cfg.domain == [42] || name == cfg.domain)
                                       then AddressReply(p, cfg) else CodeReply(p, cfg))
  {
    hide AddressReply, CodeReply, RawName, EncodeName;
  }

  predicate GetsAddress(p: seq<byte>, cfg: Config)
    requires WellFormed(p)
  {
    OneQuestion(p) && Reply(p, cfg) == Some(AddressReply(p, cfg))
  }

  /** A server started with "*" answers a query with the configured address exactly
      when it is a standard query whose header announces one question and nothing
      else, and not, as promised, for every request. */
  lemma {:induction false} StarAnswersIff(p: seq<byte>, cfg: Config)
    requires WellFormed(p) && cfg.domain == [42] && IsQuery(p)
    ensures GetsAddress(p, cfg) <==> p[2] / 8 % 16 == 0 && OneQuestion(p)
    ensures !GetsAddress(p, cfg) ==> Reply(p, cfg) == Some(CodeReply(p, cfg))
  {
  }

  /** A standard query for the address of "a" that carries the EDNS record of
      section 6.1.2 of RFC 6891 in its additional section. */
  const EDNS_HEADER: seq<byte> := [0, 1, 1, 0, 0, 1, 0, 0, 0, 0, 0, 1]
  const EDNS_REST: seq<byte> := [0, 1, 0, 1] + [0, 0, 41, 16, 0, 0, 0, 0, 0, 0, 0]
  const EDNS_QUERY: seq<byte> := EDNS_HEADER + [1, 97, 0] + EDNS_REST

  lemma {:induction false} RootRecordParses(p: seq<byte>, at: nat)
    requires at + 11 <= |p| && p[at] == 0 && U16(p, at + 9) == 0
    ensures ParseRecords(p, at, 1) ==
            Some(([Record([], U16(p, at + 1), U16(p, at + 3), U32(p, at + 5), [])], at + 11))
  {
    hide U16, U32;
    assert ParseShortName(p, at) == Some(([], at + 1));
    NoRecords(p, at + 11);
    var rr := Record([], U16(p, at + 1), U16(p, at + 3), U32(p, at + 5), []);
    assert p[at + 11..at + 11] == [] && [rr] + [] == [rr];
  }

  lemma {:induction false} EdnsName()
    ensures EncodeName([[97]]) == [1, 97, 0] && RawName(EDNS_QUERY, 12) == Some([[97]])
  {
    assert [[97]][1..] == [];
    assert EncodeName([[97]]) == [1] + [97] + EncodeName([]) == [1, 97, 0];
    hide EncodeName, RawName;
    EncodedIsRawName(EDNS_HEADER, [[97]], EDNS_REST);
  }

  lemma {:induction false} EdnsQuestion()
    ensures WellFormed(EDNS_QUERY)
    ensures ParseQuestions(EDNS_QUERY, 12, 1) == Some(([Question([[97]], 1, 1)], 19))
  {
    hide EncodeName, RawName, ParseQuestions;
    EdnsName();
    QuestionParses(EDNS_QUERY, EDNS_QUERY, 3, [[97]]);
  }

  lemma {:induction false} EdnsQueryParses()
    ensures ParseMessage(EDNS_QUERY) ==
            Some(Message(Header(1, 0, 0, 0, 0, 1, 0, 0, 0, 1, 0, 0, 1), [Question([[97]], 1, 1)],
                         [], [], [Record([], 41, 4096, 0, [])]))
  {
    hide ParseQuestions, ParseRecords;
    EdnsQuestion();
    NoRecords(EDNS_QUERY, 19);
    RootRecordParses(EDNS_QUERY, 19);
  }

  /** It is a message of the standard, yet a server started with "*" answers it
      with the error reply, which is not even a message. */
  lemma {:induction false} StarMissesEdns(cfg: Config)
    requires cfg.domain == [42]
    ensures WellFormed(EDNS_QUERY) && IsQuery(EDNS_QUERY)
    ensures ParseMessage(EDNS_QUERY) ==
            Some(Message(Header(1, 0, 0, 0, 0, 1, 0, 0, 0, 1, 0, 0, 1), [Question([[97]], 1, 1)],
                         [], [], [Record([], 41, 4096, 0, [])]))
    ensures !GetsAddress(EDNS_QUERY, cfg) && Reply(EDNS_QUERY, cfg) == Some(CodeReply(EDNS_QUERY, cfg))
    ensures ParseMessage(CodeReply(EDNS_QUERY, cfg)).None?
  {
    hide ParseMessage, WellFormed, AddressReply, CodeReply;
    EdnsQuestion();
    EdnsQueryParses();
    StarAnswersIff(EDNS_QUERY, cfg);
    CodeReplyParsesIff(EDNS_QUERY, cfg);
  }

  /** A server started with `domainName` answers with the address exactly for the
      names that have the same comparison form; in particular for its own name
      and for that name with "www." in front, in any letter case. */
  lemma {:induction false} OwnNamesMatch(p: seq<byte>, cfg: Config, domainName: seq<byte>,
                                         labels: seq<Label>, www: Label)
    requires WellFormed(p) && OneQuestion(p)
    requires cfg.domain == Normalise(domainName)
    requires labels != [] && Lower(Join(labels)) == Lower(domainName) && Lower(www + [DOT]) == WWW
    requires QueryName(p) == labels || QueryName(p) == [www] + labels
    ensures Matches(p, cfg)
  {
    NormaliseForgets(domainName, labels, www);
  }

  // ---- Steps of the two walks ---------------------------------------------------

  lemma {:induction false} CopiedMore(dst: seq<byte>, n: nat, p: seq<byte>, from: nat, k: nat)
    requires n + k <= |dst| && from + n + k <= |p| && dst[..n] == p[from..from + n]
    ensures Splice(dst, n, p[from + n..from + n + k])[..n + k] == p[from..from + n + k]
  {
    SliceJoin(p, from, from + n, from + n + k);
  }

  /** One label further, the name so far and what is to come are still the whole. */
  lemma {:induction false} WalkJoins(p: seq<byte>, at: nat, before: seq<byte>, whole: seq<byte>)
    requires RawName(p, at).Some? && p[at] != 0 && before + Join(RawName(p, at).value) == whole
    ensures var next := at + 1 + p[at];
            && next < |p| && RawName(p, next).Some?
            && (p[next] == 0 ==> before + p[at + 1..next] == whole)
            && (p[next] != 0 ==> before + p[at + 1..next] + [DOT] + Join(RawName(p, next).value) == whole)
  {
    hide RawName, EncodeName, Join;
    WalkStep(p, at);
    var next := at + 1 + p[at];
    WalkStep(p, next);
    JoinStep(before, p[at + 1..next], RawName(p, next).value);
  }

  /** The same for the copy loop, which counts bytes. */
  lemma {:induction false} WalkCounts(p: seq<byte>, q: nat, n: nat)
    requires RawName(p, HEADER_SIZE + q).Some? && q + RawLength(p, HEADER_SIZE + q) == n
    ensures HEADER_SIZE + q < |p| && q < n
    ensures p[HEADER_SIZE + q] == 0 ==> q + 1 == n
    ensures p[HEADER_SIZE + q] != 0 ==>
              var q' := q + 1 + p[HEADER_SIZE + q] as int;
              && q' < n && HEADER_SIZE + q' < |p| && RawName(p, HEADER_SIZE + q').Some?
              && q' + RawLength(p, HEADER_SIZE + q') == n
  {
    hide RawName, EncodeName;
    WalkStep(p, HEADER_SIZE + q);
    if p[HEADER_SIZE + q] != 0 {
      WalkStep(p, HEADER_SIZE + q + 1 + p[HEADER_SIZE + q]);
    }
  }

  lemma {:induction false} SpliceOne(dst: seq<byte>, n: nat, p: seq<byte>, at: nat)
    requires n < |dst| && at < |p|
    ensures dst[n := p[at]] == Splice(dst, n, p[at..at + 1])
  {
  }

  lemma {:induction false} QuestionIsSlice(p: seq<byte>, name: seq<byte>, k: nat)
    requires HEADER_SIZE <= k && k + 4 <= |p| && name == p[HEADER_SIZE..k]
    ensures name + p[k..k + 2] + p[k + 2..k + 4] == p[HEADER_SIZE..k + 4]
  {
    assert p[HEADER_SIZE..k] + p[k..k + 2] == p[HEADER_SIZE..k + 2];
  }

  lemma {:induction false} SliceGrows(before: seq<byte>, p: seq<byte>, from: nat, to: nat)
    requires from <= to < |p|
    ensures before + p[from..to] + [p[to]] == before + p[from..to + 1]
  {
  }

  lemma {:induction false} NormaliseEmpty()
    ensures Normalise(Join([])) == []
  {
  }

  // ---- Pieces of the replies as they are written -------------------------------

  lemma {:induction false} HeaderInPieces(p: seq<byte>, head: seq<byte>)
    requires |p| >= HEADER_SIZE && |head| == HEADER_SIZE
    requires head[..2] == p[..2] && head[2] == SetQr(p[2]) && head[3..6] == p[3..6]
    requires head[6..8] == p[4..6] && head[8..] == p[8..12]
    ensures head == p[..2] + [SetQr(p[2])] + p[3..6] + p[4..6] + p[8..12]
  {
    assert head == head[..2] + [head[2]] + head[3..6] + head[6..8] + head[8..];
  }

  lemma {:induction false} AddressReplyStart(head: seq<byte>, name: seq<byte>, qType: seq<byte>, qClass: seq<byte>)
    ensures [] + head + name + qType + qClass == head + (name + qType + qClass)
  {
  }

  lemma {:induction false} AnswerInPieces(start: seq<byte>, cfg: Config)
    ensures start + [0xC0] + [12] + [0, 1] + [0, 1] + Wire32(cfg.ttl) + [0, 4] + cfg.ip == start + AnswerBytes(cfg)
  {
    assert start + [0xC0] + [12] + [0, 1] + [0, 1] == start + [0xC0, 12, 0, 1, 0, 1];
  }

  lemma {:induction false} AddressReplyEnd(p: seq<byte>, cfg: Config, start: seq<byte>)
    requires WellFormed(p) && OneQuestion(p)
    requires start == p[..2] + [SetQr(p[2])] + p[3..6] + p[4..6] + p[8..12]
                      + p[12..12 + RawLength(p, HEADER_SIZE) + 4]
    ensures start + AnswerBytes(cfg) == AddressReply(p, cfg)
  {
  }

  lemma {:induction false} CodeReplyInPieces(p: seq<byte>, cfg: Config, head: seq<byte>)
    requires |p| >= HEADER_SIZE && |head| == HEADER_SIZE
    requires head[..2] == p[..2] && head[2] == SetQr(p[2]) && head[3] == p[3] - p[3] % 16 + cfg.errCode
    requires head[4] == 0 && head[5] == 0 && head[6..] == p[6..12]
    ensures [] + head == CodeReply(p, cfg)
  {
    assert head == head[..2] + [head[2], head[3], head[4], head[5]] + head[6..];
  }

  // ---- Runs -------------------------------------------------------------------

  /** The server can read it. */
  predicate Acceptable(d: Datagram) {
    d.data != [] ==> WellFormed(Packetiser.Cut(d.data))
  }

  ghost predicate AllAcceptable(ds: seq<Datagram>) {
    forall d :: d in ds ==> Acceptable(d)
  }

  /** What goes out for a datagram, and what then stays in the transmit buffer.
      The buffer is emptied first only when the sender's port is not 0. */
  function Serve(tx: seq<byte>, d: Datagram, cfg: Config): (r: (seq<Datagram>, seq<byte>))
    requires |tx| <= Packetiser.MTU && Acceptable(d)
    ensures |r.1| <= Packetiser.MTU
  {
    if d.data == [] || Reply(Packetiser.Cut(d.data), cfg).None? then ([], tx)
    else
      var (sent, rest) := Packetiser.WriteAll(if d.port == 0 then tx else [],
                                              Reply(Packetiser.Cut(d.data), cfg).value);
      (Packetiser.Stamp(sent, d.ip, d.port) + [Datagram(rest, d.ip, d.port)], rest)
  }

  lemma {:induction false} ServeIs(tx: seq<byte>, d: Datagram, cfg: Config)
    requires |tx| <= Packetiser.MTU && Acceptable(d) && d.data != []
    ensures var p, base := Packetiser.Cut(d.data), if d.port == 0 then tx else [];
            && |p| >= HEADER_SIZE
            && (!IsQuery(p) ==> Serve(tx, d, cfg) == ([], tx))
            && (IsQuery(p) ==>
                  var reply := if AddressDue(p, cfg) then AddressReply(p, cfg) else CodeReply(p, cfg);
                  forall log: seq<Datagram>, tx', outgoing
                    {:trigger Packetiser.SessionSent(base, reply, d.ip, d.port, log, tx', outgoing)} ::
                    Packetiser.SessionSent(base, reply, d.ip, d.port, log, tx', outgoing) ==>
                      outgoing == log + Serve(tx, d, cfg).0 && tx' == Serve(tx, d, cfg).1)
  {
    hide AddressReply, CodeReply, Matches, RawName, EncodeName, Packetiser.WriteAll, Packetiser.Stamp;
  }

  lemma {:induction false} ServeNothing(tx: seq<byte>, d: Datagram, cfg: Config)
    requires |tx| <= Packetiser.MTU && Acceptable(d)
    ensures d.data == [] ==> Serve(tx, d, cfg) == ([], tx)
  {
  }

  /** The one datagram that ought to go out for a datagram. */
  function Answer(d: Datagram, cfg: Config): (r: seq<Datagram>)
    requires Acceptable(d)
    ensures |r| <= 1
    ensures |r| == 1 <==> d.data != [] && IsQuery(Packetiser.Cut(d.data))
    ensures |r| == 1 ==> r[0].ip == d.ip && r[0].port == d.port && 0 < |r[0].data| <= 288
  {
    if d.data == [] then []
    else
      match Reply(Packetiser.Cut(d.data), cfg)
      case None => []
      case Some(r) => [Datagram(r, d.ip, d.port)]
  }

  lemma {:induction false} ServeInPieces(tx: seq<byte>, d: Datagram, cfg: Config)
    requires |tx| <= Packetiser.MTU && Acceptable(d)
    ensures var a := Answer(d, cfg);
            && (a == [] ==> Serve(tx, d, cfg) == ([], tx))
            && (a != [] ==>
                  var w := Packetiser.WriteAll(if d.port == 0 then tx else [], a[0].data);
                  Serve(tx, d, cfg) == (Packetiser.Stamp(w.0 + [w.1], d.ip, d.port), w.1))
  {
    hide Reply, Packetiser.WriteAll, WellFormed;
    var a := Answer(d, cfg);
    if a != [] {
      var w := Packetiser.WriteAll(if d.port == 0 then tx else [], a[0].data);
      Packetiser.StampSnoc(w.0, w.1, d.ip, d.port);
    }
  }

  /** A datagram gets its own answer, whole and alone, exactly when it comes from
      a nonzero port, or needs no answer, or finds the transmit buffer empty.
      Otherwise what goes out first is already something else. */
  lemma {:induction false} ServeAnswersIff(tx: seq<byte>, d: Datagram, cfg: Config)
    requires |tx| <= Packetiser.MTU && Acceptable(d)
    ensures var sent, answer := Serve(tx, d, cfg).0, Answer(d, cfg);
            && (sent == answer <==> d.port != 0 || tx == [] || answer == [])
            && (sent != answer ==> sent != [] && answer != [] && sent[0] != answer[0])
    ensures if Answer(d, cfg) == [] then Serve(tx, d, cfg).1 == tx else Serve(tx, d, cfg).1 != []
  {
    hide Serve, Answer, Acceptable, Packetiser.WriteAll;
    ServeInPieces(tx, d, cfg);
    var answer := Answer(d, cfg);
    if answer != [] {
      var r, base := answer[0].data, if d.port == 0 then tx else [];
      var w := Packetiser.WriteAll(base, r);
      if base == [] {
        Packetiser.ShortWrite([], r);
        assert [] + r == r && [] + [r] == [r];
        assert Packetiser.Stamp([r], d.ip, d.port) == answer;
      } else {
        Packetiser.MessageSpoilt(base, r);
        Packetiser.LastIsNotEmpty(base, r);
      }
    }
  }

  /** What goes out for a datagram, in full: at most one datagram, to its sender,
      with the reply due, behind the transmit buffer only for port 0. */
  lemma {:induction false} ServeSends(tx: seq<byte>, d: Datagram, cfg: Config)
    requires |tx| <= 1460 && Acceptable(d)
    ensures var p := if |d.data| <= 1460 then d.data else d.data[..1460];
            if d.data == [] || p[2] / 128 == 1 then Serve(tx, d, cfg) == ([], tx)
            else
              var base := if d.port == 0 then tx else [];
              var r := if && OneQuestion(p) && p[2] / 8 % 16 == 0
                          && (cfg.domain == [42] || RemoveWww(Lower(Join(RawName(p, 12).value))) == cfg.domain)
                       then AddressReply(p, cfg) else CodeReply(p, cfg);
              |base| + |r| <= 1460 ==> Serve(tx, d, cfg) == ([Datagram(base + r, d.ip, d.port)], base + r)
  {
    hide AddressReply, CodeReply, RawName, EncodeName, Join, RemoveWww, Lower, OneQuestion, Packetiser.WriteAll;
    if d.data != [] {
      var p, base := Packetiser.Cut(d.data), if d.port == 0 then tx else [];
      ReplyMeans(p, cfg);
      if p[2] / 128 == 0 {
        var r := Reply(p, cfg).value;
        if |base| + |r| <= 1460 {
          Packetiser.ShortWrite(base, r);
          var out := [Datagram(base + r, d.ip, d.port)];
          assert Packetiser.Stamp([], d.ip, d.port) == [] && [] + out == out;
        }
      }
    }
  }

  /** The transmit buffer of an earlier caller, or an earlier answer, is in the way
      of no query from port 0. */
  ghost predicate PortZeroFindsEmpty(tx: seq<byte>, ds: seq<Datagram>, cfg: Config)
    requires AllAcceptable(ds)
  {
    forall i :: 0 <= i < |ds| && ds[i].port == 0 && Answer(ds[i], cfg) != [] ==>
                  tx == [] && forall j :: 0 <= j < i ==> Answer(ds[j], cfg) == []
  }

  /** What goes out for a list of datagrams, and what then stays in the buffer. */
  function ServeAll(tx: seq<byte>, ds: seq<Datagram>, cfg: Config): (r: (seq<Datagram>, seq<byte>))
    requires |tx| <= Packetiser.MTU && AllAcceptable(ds)
    ensures |r.1| <= Packetiser.MTU
    decreases |ds|
  {
    if ds == [] then ([], tx)
    else
      var (sent, tx') := Serve(tx, ds[0], cfg);
      var (more, last) := ServeAll(tx', ds[1..], cfg);
      (sent + more, last)
  }

  function Answers(ds: seq<Datagram>, cfg: Config): seq<Datagram>
    requires AllAcceptable(ds)
    decreases |ds|
  {
    if ds == [] then [] else Answer(ds[0], cfg) + Answers(ds[1..], cfg)
  }

  /** The answer of a datagram in full, and the answers of a list: one after the other. */
  lemma {:induction false} AnswerMeans(d: Datagram, cfg: Config)
    requires Acceptable(d)
    ensures var p := if |d.data| <= 1460 then d.data else d.data[..1460];
            if d.data == [] || p[2] / 128 == 1 then Answer(d, cfg) == []
            else
              var r := if && OneQuestion(p) && p[2] / 8 % 16 == 0
                          && (cfg.domain == [42] || RemoveWww(Lower(Join(RawName(p, 12).value))) == cfg.domain)
                       then AddressReply(p, cfg) else CodeReply(p, cfg);
              Answer(d, cfg) == [Datagram(r, d.ip, d.port)]
  {
    hide AddressReply, CodeReply, RawName, EncodeName, Join, RemoveWww, Lower, OneQuestion;
    if d.data != [] {
      ReplyMeans(Packetiser.Cut(d.data), cfg);
    }
  }

  lemma {:induction false} AnswersAppend(x: seq<Datagram>, y: seq<Datagram>, cfg: Config)
    requires AllAcceptable(x) && AllAcceptable(y)
    ensures AllAcceptable(x + y)
    ensures Answers(x + y, cfg) == Answers(x, cfg) + Answers(y, cfg)
    ensures |x| == 1 ==> Answers(x, cfg) == Answer(x[0], cfg)
    decreases |x|
  {
    hide Answer, Acceptable;
    if x == [] {
      assert x + y == y;
    } else {
      AnswersAppend(x[1..], y, cfg);
      assert (x + y)[1..] == x[1..] + y && (x + y)[0] == x[0];
      assert Answer(x[0], cfg) + (Answers(x[1..], cfg) + Answers(y, cfg)) == Answers(x, cfg) + Answers(y, cfg);
    }
  }

  lemma {:induction false} ServeAllNone(tx: seq<byte>, cfg: Config)
    requires |tx| <= Packetiser.MTU
    ensures ServeAll(tx, [], cfg) == ([], tx)
  {
  }

  lemma {:induction false} ServeAllSnoc(tx: seq<byte>, ds: seq<Datagram>, d: Datagram, cfg: Config)
    requires |tx| <= Packetiser.MTU && AllAcceptable(ds) && Acceptable(d)
    ensures AllAcceptable(ds + [d])
    ensures var before := ServeAll(tx, ds, cfg);
            var last := Serve(before.1, d, cfg);
            ServeAll(tx, ds + [d], cfg) == (before.0 + last.0, last.1)
    decreases |ds|
  {
    hide Serve, Acceptable;
    if ds == [] {
      var sent := Serve(tx, d, cfg).0;
      assert [] + [d] == [d] && [d][1..] == [];
      assert sent + [] == sent == [] + sent;
    } else {
      var (sent, tx') := Serve(tx, ds[0], cfg);
      ServeAllSnoc(tx', ds[1..], d, cfg);
      assert (ds + [d])[1..] == ds[1..] + [d];
      var (more, last) := ServeAll(tx', ds[1..], cfg);
      assert (sent + more) + Serve(last, d, cfg).0 == sent + (more + Serve(last, d, cfg).0);
    }
  }

  lemma {:induction false} SlicesAcceptable(arrived: seq<Datagram>)
    requires AllAcceptable(arrived)
    ensures forall n :: 0 <= n <= |arrived| ==> AllAcceptable(arrived[..n]) && AllAcceptable(arrived[n..])
  {
    hide Acceptable;
  }

  lemma {:induction false} FirstAcceptable(arrived: seq<Datagram>, taken: nat)
    requires AllAcceptable(arrived) && taken <= |arrived|
    ensures arrived[taken..] != [] ==> arrived[taken..][0] == arrived[taken] && Acceptable(arrived[taken])
  {
    hide Acceptable;
  }

  /** The condition, one datagram further. */
  lemma {:induction false} FindsEmptyStep(tx: seq<byte>, ds: seq<Datagram>, cfg: Config)
    requires |tx| <= Packetiser.MTU && AllAcceptable(ds) && ds != []
    ensures var d, first := ds[0], Answer(ds[0], cfg);
            var tx' := Serve(tx, d, cfg).1;
            PortZeroFindsEmpty(tx, ds, cfg) <==>
            (d.port != 0 || tx == [] || first == []) && PortZeroFindsEmpty(tx', ds[1..], cfg)
  {
    hide Serve, Answer, Acceptable;
    ServeAnswersIff(tx, ds[0], cfg);
    var rest, tx' := ds[1..], Serve(tx, ds[0], cfg).1;
    assert forall i :: 0 <= i < |rest| ==> rest[i] == ds[i + 1];
    if PortZeroFindsEmpty(tx, ds, cfg) {
      forall i | 0 <= i < |rest| && rest[i].port == 0 && Answer(rest[i], cfg) != []
        ensures tx' == [] && forall j :: 0 <= j < i ==> Answer(rest[j], cfg) == []
      {
        assert ds[i + 1].port == 0;
      }
    }
    if (ds[0].port != 0 || tx == [] || Answer(ds[0], cfg) == []) && PortZeroFindsEmpty(tx', rest, cfg) {
      forall i | 0 <= i < |ds| && ds[i].port == 0 && Answer(ds[i], cfg) != []
        ensures tx == [] && forall j :: 0 <= j < i ==> Answer(ds[j], cfg) == []
      {
        if i > 0 {
          assert rest[i - 1].port == 0;
          forall j | 0 <= j < i ensures Answer(ds[j], cfg) == [] {
            if j > 0 {
              assert rest[j - 1] == ds[j];
            }
          }
        }
      }
    }
  }

  lemma {:induction false} SameFront<T>(x: seq<T>, y: seq<T>, v: seq<T>, w: seq<T>)
    ensures x == y ==> (x + v == y + w <==> v == w)
    ensures x != [] && y != [] && x[0] != y[0] ==> x + v != y + w
  {
    if x == y && x + v == y + w {
      assert v == (x + v)[|x|..] == (y + w)[|x|..] == w;
    }
    if x != [] && y != [] && x[0] != y[0] {
      assert (x + v)[0] != (y + w)[0];
    }
  }

  lemma {:induction false} NoQueries(tx: seq<byte>, cfg: Config)
    ensures PortZeroFindsEmpty(tx, [], cfg)
  {
  }

  /** Over any run, whatever was left in the transmit buffer, the datagrams sent
      are one answer for each query, in order and to its sender, and none for
      anything else, exactly when every query from port 0 finds the transmit
      buffer empty: it was so at first and no query was answered before. */
  lemma {:induction false} RunAnswersEachQueryOnceIff(tx: seq<byte>, ds: seq<Datagram>, cfg: Config)
    requires |tx| <= Packetiser.MTU && AllAcceptable(ds)
    ensures ServeAll(tx, ds, cfg).0 == Answers(ds, cfg) <==> PortZeroFindsEmpty(tx, ds, cfg)
    decreases |ds|
  {
    hide Serve, Answer, Acceptable, PortZeroFindsEmpty;
    if ds == [] {
      NoQueries(tx, cfg);
    } else {
      var tx' := Serve(tx, ds[0], cfg).1;
      ServeAnswersIff(tx, ds[0], cfg);
      FindsEmptyStep(tx, ds, cfg);
      RunAnswersEachQueryOnceIff(tx', ds[1..], cfg);
      SameFront(Serve(tx, ds[0], cfg).0, Answer(ds[0], cfg), ServeAll(tx', ds[1..], cfg).0, Answers(ds[1..], cfg));
    }
  }

  /** So senders that have a port are always served right. */
  lemma {:induction false} PortsNeverZero(tx: seq<byte>, ds: seq<Datagram>, cfg: Config)
    requires |tx| <= Packetiser.MTU && AllAcceptable(ds) && forall d :: d in ds ==> d.port != 0
    ensures ServeAll(tx, ds, cfg).0 == Answers(ds, cfg)
  {
    RunAnswersEachQueryOnceIff(tx, ds, cfg);
  }

  /** A query from port 0 gets its answer behind what the transmit buffer holds. */
  lemma {:induction false} ServedBehind(tx: seq<byte>, d: Datagram, cfg: Config)
    requires Acceptable(d) && Answer(d, cfg) != [] && d.port == 0
    requires |tx| + |Answer(d, cfg)[0].data| <= Packetiser.MTU
    ensures var all := tx + Answer(d, cfg)[0].data;
            Serve(tx, d, cfg) == ([Datagram(all, d.ip, 0)], all)
  {
    hide Serve, Answer, Acceptable, Packetiser.WriteAll;
    var r := Answer(d, cfg)[0].data;
    ServeInPieces(tx, d, cfg);
    Packetiser.ShortWrite(tx, r);
    assert [] + [tx + r] == [tx + r];
    assert Packetiser.Stamp([tx + r], d.ip, d.port) == [Datagram(tx + r, d.ip, 0)];
  }

  /** Twelve zero bytes: a query without a question, from port 0. */
  function ZeroQuery(ip: nat): Datagram {
    Datagram([0, 0, 0, 0, 0, 0, 0, 0, 0, 0, 0, 0], ip, 0)
  }

  /** Sent twice, it is answered right the first time, and the second time with
      both answers glued together. */
  lemma {:induction false} PortZeroGlues(ip: nat, cfg: Config)
    ensures Acceptable(ZeroQuery(ip))
    ensures var code := CodeReply(ZeroQuery(ip).data, cfg);
            && Answer(ZeroQuery(ip), cfg) == [Datagram(code, ip, 0)]
            && ServeAll([], [ZeroQuery(ip), ZeroQuery(ip)], cfg).0 ==
               [Datagram(code, ip, 0), Datagram(code + code, ip, 0)]
  {
    hide Packetiser.WriteAll, Serve;
    var d := ZeroQuery(ip);
    assert Packetiser.Cut(d.data) == d.data;
    var code := CodeReply(d.data, cfg);
    assert Answer(d, cfg) == [Datagram(code, ip, 0)];
    ServedBehind([], d, cfg);
    ServedBehind(code, d, cfg);
    assert [] + code == code && [d, d][1..] == [d] && [d][1..] == [];
    assert ServeAll(code, [d], cfg).0 == [Datagram(code + code, ip, 0)] + [];
  }
}

/** The class DNSServer. */
module Dns {
  import opened Bytes
  import opened Network
  import opened DnsNames
  import opened DnsReply
  import opened Udp
  import opened CircularBuffer
  import Packetiser

  class DNSServer {
    const udp: WiFiUDP
    var port: port
    var domain: seq<byte>
    var resolveIp: ipv4
    var ttl: u32
    var errReplyCode: replyCode
    var curPacketSize: int
    var buf: array?<byte>
    const header: array<byte>
    const qName: array<byte>
    var qNameLength: nat
    var qType: seq<byte>
    var qClass: seq<byte>

    ghost function Settings(): Config
      reads this
    {
      Config(domain, resolveIp, ttl, errReplyCode)
    }

    /** Between calls a started server holds no packet: the last one was drained. */
    ghost predicate Valid()
      reads this, udp, udp.tx, udp.rx, if udp.rx == null then {} else {udp.rx.buf}
    {
      && header.Length == HEADER_SIZE && qName.Length == QNAME_SIZE
      && header != qName && udp.tx != header && udp.tx != qName
     
      && udp.Valid() && udp.tx != null && udp.rx == null && buf == null
    }

    constructor (net: Net)
      ensures udp.net == net && udp.rx == null && udp.tx == null && buf == null
      ensures ttl == 60 && errReplyCode == 3
      ensures header.Length == HEADER_SIZE && qName.Length == QNAME_SIZE && header != qName
      ensures udp.Valid()
    {
      udp := new WiFiUDP(net);
      port := 0;
      domain := [];
      resolveIp := [0, 0, 0, 0];
      ttl := 60;
      errReplyCode := 3;
      curPacketSize := 0;
      buf := null;
      header := new byte[HEADER_SIZE];
      qName := new byte[QNAME_SIZE];
      qNameLength := 0;
      qType := [];
      qClass := [];
    }

    method Start(p: port, domainName: seq<byte>, ip: ipv4) returns (ok: bool)
      requires header.Length == HEADER_SIZE && qName.Length == QNAME_SIZE && header != qName
      modifies this, udp, udp.net`results
      ensures domain == RemoveWww(Lower(domainName)) && resolveIp == ip && port == udp.serverPort == p
      ensures Settings() == Config(RemoveWww(Lower(domainName)), ip, old(ttl), old(errReplyCode))
      ensures ttl == old(ttl) && errReplyCode == old(errReplyCode)
      ensures ok <==> udp.udpServer != -1
      ensures ok ==> Valid() && udp.TxBytes() == []
    {
      port := p;
      buf := null;
      domain := domainName;
      resolveIp := ip;
      domain := Normalise(domain);
      var begun := udp.Begin(p);
      return begun == 1;
    }

    method SetErrorReplyCode(code: replyCode)
      modifies this`errReplyCode
      ensures Settings() == old(Settings()).(errCode := code) && (Valid() <==> old(Valid()))
    {
      errReplyCode := code;
    }

    method SetTTL(seconds: u32)
      modifies this`ttl
      ensures Settings() == old(Settings()).(ttl := seconds) && (Valid() <==> old(Valid()))
    {
      ttl := seconds;
    }

    method RequestIncludesOnlyOneQuestion() returns (one: bool)
      requires header.Length == HEADER_SIZE
      ensures one == OneQuestion(header[..])
    {
      return header[4] as int * 0x100 + header[5] as int == 1
        && header[6] == 0 && header[7] == 0
        && header[8] == 0 && header[9] == 0
        && header[10] == 0 && header[11] == 0;
    }

    /** One memcpy of the loop: `k` more bytes of the packet. */
    method CopyPiece(packet: array<byte>, k: nat)
      requires packet != qName && qNameLength + k <= qName.Length && HEADER_SIZE + qNameLength + k <= packet.Length
      requires qName[..qNameLength] == packet[..][HEADER_SIZE..HEADER_SIZE + qNameLength]
      modifies this`qNameLength, qName
      ensures qNameLength == old(qNameLength) + k
      ensures qName[..qNameLength] == packet[..][HEADER_SIZE..HEADER_SIZE + qNameLength]
    {
      hide Splice;
      CopiedMore(qName[..], qNameLength, packet[..], HEADER_SIZE, k);
      Memcpy(qName, qNameLength, packet, HEADER_SIZE + qNameLength, k);
      qNameLength := qNameLength + k;
    }

    /** The copy loop: label after label, up to the zero byte. */
    method CopyLabels(packet: array<byte>)
      requires qName.Length == QNAME_SIZE && packet != qName && packet.Length >= HEADER_SIZE
      requires RawName(packet[..], HEADER_SIZE).Some? && RawLength(packet[..], HEADER_SIZE) <= QNAME_SIZE
      modifies this`qNameLength, qName
      ensures qNameLength + 1 == RawLength(packet[..], HEADER_SIZE)
      ensures HEADER_SIZE + qNameLength < packet.Length && packet[HEADER_SIZE + qNameLength] == 0
      ensures qName[..qNameLength] == packet[..][HEADER_SIZE..HEADER_SIZE + qNameLength]
    {
      hide RawName, EncodeName, Splice, RawLength;
      ghost var p, n := packet[..], RawLength(packet[..], HEADER_SIZE);
      WalkCounts(p, 0, n);
      qNameLength := 0;
      while packet[HEADER_SIZE + qNameLength] != 0
        invariant packet[..] == p && RawName(p, HEADER_SIZE + qNameLength).Some?
        invariant HEADER_SIZE + qNameLength < |p|
        invariant qNameLength + RawLength(p, HEADER_SIZE + qNameLength) == n
        invariant qName[..qNameLength] == p[HEADER_SIZE..HEADER_SIZE + qNameLength]
        decreases n - qNameLength
      {
        WalkCounts(p, qNameLength, n);
        CopyPiece(packet, packet[HEADER_SIZE + qNameLength] as int + 1);
      }
      WalkCounts(p, qNameLength, n);
    }

    /** The question name ends up byte for byte, with its zero byte, in `qName`. */
    method CopyName(packet: array<byte>)
      requires qName.Length == QNAME_SIZE && packet != qName && packet.Length >= HEADER_SIZE
      requires RawName(packet[..], HEADER_SIZE).Some? && RawLength(packet[..], HEADER_SIZE) <= QNAME_SIZE
      modifies this`qNameLength, qName
      ensures qNameLength == RawLength(packet[..], HEADER_SIZE) && HEADER_SIZE + qNameLength <= packet.Length
      ensures qName[..qNameLength] == EncodeName(RawName(packet[..], HEADER_SIZE).value)
      ensures qName[..qNameLength] == packet[..][HEADER_SIZE..HEADER_SIZE + qNameLength]
    {
      hide RawName, EncodeName, Splice;
      ghost var p := packet[..];
      RawNameIsEncoded(p, HEADER_SIZE);
      CopyLabels(packet);
      CopiedMore(qName[..], qNameLength, p, HEADER_SIZE, 1);
      SpliceOne(qName[..], qNameLength, p, HEADER_SIZE + qNameLength);
      qName[qNameLength] := 0;
      qNameLength := qNameLength + 1;
    }

    /** Name, type and class of the question, copied out of the packet. */
    method CopyQuestion(packet: array<byte>)
      requires header.Length == HEADER_SIZE && qName.Length == QNAME_SIZE && packet != qName
      requires WellFormed(packet[..]) && OneQuestion(packet[..])
      modifies this`qNameLength, this`qType, this`qClass, qName
      ensures qNameLength == RawLength(packet[..], HEADER_SIZE)
      ensures qName[..qNameLength] == EncodeName(QueryName(packet[..]))
      ensures qName[..qNameLength] + qType + qClass == packet[..][HEADER_SIZE..HEADER_SIZE + qNameLength + 4]
    {
      hide RawName, EncodeName;
      ghost var p := packet[..];
      CopyName(packet);
      var k := HEADER_SIZE + qNameLength;
      qType := packet[k..k + 2];
      qClass := packet[k + 2..k + 4];
      assert packet[..] == p && qType == p[k..k + 2] && qClass == p[k + 2..k + 4];
      QuestionIsSlice(p, qName[..qNameLength], k);
    }

    /** The inner loop of the other walk: the bytes of one label. */
    method AppendLabel(start: seq<byte>, at: nat, labelLength: nat) returns (name: seq<byte>)
      requires buf != null && at + labelLength < buf.Length
      ensures name == start + buf[..][at + 1..at + 1 + labelLength]
    {
      name := start;
      for i := 0 to labelLength
        invariant name == start + buf[..][at + 1..at + 1 + i]
      {
        name := name + [buf[at + 1 + i]];
        SliceGrows(start, buf[..], at + 1, at + 1 + i);
      }
    }

    /** The other walk over the name: the dotted name, in its comparison form. */
    method GetDomainNameWithoutWwwPrefix() returns (name: seq<byte>)
      requires buf != null ==> buf.Length >= HEADER_SIZE && RawName(buf[..], HEADER_SIZE).Some?
      ensures buf == null ==> name == []
      ensures buf != null ==> name == Normalise(Join(RawName(buf[..], HEADER_SIZE).value))
    {
      hide RawName, EncodeName, Normalise, Join, RawLength;
      name := [];
      if buf == null {
        return;
      }
      ghost var p := buf[..];
      ghost var whole := Join(RawName(p, HEADER_SIZE).value);
      WalkStep(p, HEADER_SIZE);
      if buf[HEADER_SIZE] == 0 {
        NormaliseEmpty();
        return;
      }
      var pos := 0;
      while true
        invariant buf[..] == p && HEADER_SIZE + pos < |p| && p[HEADER_SIZE + pos] != 0
        invariant RawName(p, HEADER_SIZE + pos).Some?
        invariant name + Join(RawName(p, HEADER_SIZE + pos).value) == whole
        decreases |p| - pos
      {
        WalkJoins(p, HEADER_SIZE + pos, name, whole);
        var labelLength := buf[HEADER_SIZE + pos] as int;
        name := AppendLabel(name, HEADER_SIZE + pos, labelLength);
        pos := pos + labelLength + 1;
        if buf[HEADER_SIZE + pos] == 0 {
          name := Normalise(name);
          return;
        } else {
          name := name + [DOT];
        }
      }
    }

    /** The bytes that a reply to the current sender is appended to. */
    ghost function Base(): (r: seq<byte>)
      requires udp.Valid()
      reads this, udp, udp.tx, udp.rx, if udp.rx == null then {} else {udp.rx.buf}
      ensures |r| <= Packetiser.MTU
    {
      if udp.remotePort == 0 then udp.TxBytes() else []
    }

    /** One write of an open session. */
    method Put(data: seq<byte>, ghost base: seq<byte>, ghost written: seq<byte>, ghost log: seq<Datagram>)
      returns (ghost all: seq<byte>)
      requires udp.Valid() && udp.tx != null && |base| <= Packetiser.MTU
      requires Packetiser.InSession(base, written, udp.remoteIp, udp.remotePort, log, udp.TxBytes(), udp.net.outgoing)
      modifies udp`txLen, udp.tx, udp.net`outgoing, udp.net`results
      ensures udp.Valid() && all == written + data
      ensures Packetiser.InSession(base, all, udp.remoteIp, udp.remotePort, log, udp.TxBytes(), udp.net.outgoing)
    {
      Packetiser.SessionGoesOn(base, written, data, udp.remoteIp, udp.remotePort, log, udp.TxBytes(), udp.net.outgoing);
      var _ := udp.WriteBuffer(data);
      all := written + data;
    }

    method PutByte(data: byte, ghost base: seq<byte>, ghost written: seq<byte>, ghost log: seq<Datagram>)
      returns (ghost all: seq<byte>)
      requires udp.Valid() && udp.tx != null && |base| <= Packetiser.MTU
      requires Packetiser.InSession(base, written, udp.remoteIp, udp.remotePort, log, udp.TxBytes(), udp.net.outgoing)
      modifies udp`txLen, udp.tx, udp.net`outgoing, udp.net`results
      ensures udp.Valid() && all == written + [data]
      ensures Packetiser.InSession(base, all, udp.remoteIp, udp.remotePort, log, udp.TxBytes(), udp.net.outgoing)
    {
      Packetiser.SessionGoesOn(base, written, [data], udp.remoteIp, udp.remotePort, log,
                               udp.TxBytes(), udp.net.outgoing);
      var _ := udp.Write(data);
      all := written + [data];
    }

    /** The header and the question, from the server's copies of them. */
    method PutQuestion(ghost base: seq<byte>, ghost log: seq<Datagram>) returns (ghost all: seq<byte>)
      requires udp.Valid() && udp.tx != null && |base| <= Packetiser.MTU
      requires udp.tx != header && udp.tx != qName && qNameLength <= qName.Length
      requires Packetiser.InSession(base, [], udp.remoteIp, udp.remotePort, log, udp.TxBytes(), udp.net.outgoing)
      modifies udp`txLen, udp.tx, udp.net`outgoing, udp.net`results
      ensures udp.Valid() && all == [] + header[..] + qName[..qNameLength] + qType + qClass
      ensures Packetiser.InSession(base, all, udp.remoteIp, udp.remotePort, log, udp.TxBytes(), udp.net.outgoing)
    {
      hide Packetiser.WriteAll, Packetiser.Stamp, Packetiser.InSession, Ring;
      all := Put(header[..], base, [], log);
      all := Put(qName[..qNameLength], base, all, log);
      all := Put(qType, base, all, log);
      all := Put(qClass, base, all, log);
    }

    /** The answer part of the reply: the compressed name and the address record. */
    method PutAnswer(ghost base: seq<byte>, ghost written: seq<byte>, ghost log: seq<Datagram>)
      returns (ghost all: seq<byte>)
      requires udp.Valid() && udp.tx != null && |base| <= Packetiser.MTU
      requires Packetiser.InSession(base, written, udp.remoteIp, udp.remotePort, log, udp.TxBytes(), udp.net.outgoing)
      modifies udp`txLen, udp.tx, udp.net`outgoing, udp.net`results
      ensures udp.Valid() && all == written + AnswerBytes(Settings())
      ensures Packetiser.InSession(base, all, udp.remoteIp, udp.remotePort, log, udp.TxBytes(), udp.net.outgoing)
    {
      hide Packetiser.WriteAll, Packetiser.Stamp, Packetiser.InSession, Ring, Wire32, AnswerBytes;
      all := PutByte(0xC0, base, written, log);
      all := PutByte(12, base, all, log);
      all := Put([0, 1], base, all, log);
      all := Put([0, 1], base, all, log);
      all := Put(Wire32(ttl), base, all, log);
      all := Put([0, 4], base, all, log);
      all := Put(resolveIp, base, all, log);
      AnswerInPieces(written, Settings());
    }

    /** The header of the reply: response bit set, as many answers as questions. */
    method MarkAsAnswered(ghost p: seq<byte>)
      requires header.Length == HEADER_SIZE && |p| >= HEADER_SIZE && header[..] == p[..HEADER_SIZE]
      modifies header
      ensures header[..] == p[..2] + [SetQr(p[2])] + p[3..6] + p[4..6] + p[8..12]
    {
      header[2] := SetQr(header[2]);
      header[6], header[7] := header[4], header[5];
      HeaderInPieces(p, header[..]);
    }

    /** replyWithIP: the whole session puts out the address reply. */
    method ReplyWithIP(ghost p: seq<byte>)
      requires header.Length == HEADER_SIZE && qName.Length == QNAME_SIZE && header != qName
      requires udp.Valid() && udp.tx != null && udp.tx != header && udp.tx != qName && udp.rx == null
      requires |p| >= HEADER_SIZE && WellFormed(p) && OneQuestion(p) && header[..] == p[..HEADER_SIZE]
      requires qNameLength == RawLength(p, HEADER_SIZE) <= QNAME_SIZE
      requires qName[..qNameLength] + qType + qClass == p[HEADER_SIZE..HEADER_SIZE + qNameLength + 4]
      modifies header, udp`tx, udp`txLen, udp`udpServer, udp`remoteIp, udp`remotePort, udp.tx
      modifies udp.net`outgoing, udp.net`results
      ensures udp.Valid() && udp.tx == old(udp.tx)
      ensures Packetiser.SessionSent(old(Base()), AddressReply(p, Settings()), old(udp.remoteIp), old(udp.remotePort),
                                     old(udp.net.outgoing), udp.TxBytes(), udp.net.outgoing)
    {
      hide Packetiser.WriteAll, Packetiser.Stamp, EncodeName, RawName, Ring,
        AddressReply, AnswerBytes, WellFormed, OneQuestion;
      ghost var base, log := Base(), udp.net.outgoing;
      var _ := udp.BeginPacketTo(udp.remoteIp, udp.remotePort);
      Packetiser.SessionOpens(base, udp.remoteIp, udp.remotePort, log);

      MarkAsAnswered(p);
      AddressReplyStart(header[..], qName[..qNameLength], qType, qClass);
      ghost var start := PutQuestion(base, log);
      ghost var _ := PutAnswer(base, start, log);
      AddressReplyEnd(p, Settings(), start);
      var _ := udp.EndPacket();
    }

    /** replyWithCustomCode. */
    method ReplyWithCustomCode(ghost p: seq<byte>)
      requires header.Length == HEADER_SIZE
      requires udp.Valid() && udp.tx != null && udp.tx != header && udp.rx == null
      requires |p| >= HEADER_SIZE && header[..] == p[..HEADER_SIZE]
      modifies header, udp`tx, udp`txLen, udp`udpServer, udp`remoteIp, udp`remotePort, udp.tx
      modifies udp.net`outgoing, udp.net`results
      ensures udp.Valid() && udp.tx == old(udp.tx)
      ensures Packetiser.SessionSent(old(Base()), CodeReply(p, Settings()), old(udp.remoteIp), old(udp.remotePort),
                                     old(udp.net.outgoing), udp.TxBytes(), udp.net.outgoing)
    {
      hide Packetiser.WriteAll, Packetiser.Stamp, Ring, CodeReply;
      ghost var base, log := Base(), udp.net.outgoing;
      header[2] := SetQr(header[2]);
      header[3] := header[3] - header[3] % 16 + errReplyCode;
      header[4], header[5] := 0, 0;
      CodeReplyInPieces(p, Settings(), header[..]);
      var _ := udp.BeginPacketTo(udp.remoteIp, udp.remotePort);
      Packetiser.SessionOpens(base, udp.remoteIp, udp.remotePort, log);
      ghost var w := Put(header[..], base, [], log);
      var _ := udp.EndPacket();
    }

    /** The receiving half of processNextRequest: the datagram is read whole into
        `buf`, which leaves the socket's queue empty, and its header is copied. */
    method TakePacket() returns (taken: bool)
      requires Valid()
      requires udp.net.incoming != [] ==> Acceptable(udp.net.incoming[0])
      modifies this`curPacketSize, this`buf, header
      modifies udp`rx, udp`remoteIp, udp`remotePort, udp.net`incoming, udp.net`receives, udp.net`results
      ensures udp.net.receives == old(udp.net.receives) + [udp.net.incoming != old(udp.net.incoming)]
      ensures udp.Valid() && udp.rx == null && udp.TxBytes() == old(udp.TxBytes())
      ensures taken <==> buf != null
      ensures udp.net.incoming == old(udp.net.incoming) ==> !taken
      ensures udp.net.incoming != old(udp.net.incoming) ==>
                && old(udp.net.incoming) != [] && udp.net.incoming == old(udp.net.incoming)[1..]
                && var d := old(udp.net.incoming)[0];
                   && (taken <==> d.data != [])
                   && udp.remoteIp == d.ip && udp.remotePort == d.port
                   && (taken ==> && fresh(buf)
                                 && buf[..] == (if |d.data| <= 1460 then d.data else d.data[..1460])
                                 && WellFormed(buf[..]) && header[..] == buf[..][..HEADER_SIZE])
    {
      hide Ring, Splice, RawName, EncodeName;
      curPacketSize := udp.ParsePacket();
      if curPacketSize <= 0 {
        return false;   // for a negative size the allocation fails
      }
      ghost var p := udp.Queue();
      var packet := new byte[curPacketSize];
      var _ := udp.ReadBuffer(packet, curPacketSize);
      assert packet[..] == p;
      SpliceAll(header[..], p[0..HEADER_SIZE]);
      Memcpy(header, 0, packet, 0, HEADER_SIZE);
      buf := packet;
      return true;
    }

    /** The deciding part: copies the question and compares the name. */
    method IsForUs() returns (answer: bool)
      requires header.Length == HEADER_SIZE && qName.Length == QNAME_SIZE && header != qName
      requires buf != null && buf != qName && WellFormed(buf[..]) && header[..] == buf[..][..HEADER_SIZE]
      modifies this`qNameLength, this`qType, this`qClass, qName
      ensures answer == AddressDue(buf[..], Settings())
      ensures OneQuestion(buf[..]) ==>
                && qNameLength == RawLength(buf[..], HEADER_SIZE) <= QNAME_SIZE
                && qName[..qNameLength] + qType + qClass == buf[..][HEADER_SIZE..HEADER_SIZE + qNameLength + 4]
    {
      hide RawName, EncodeName, Normalise, Join;
      var one := RequestIncludesOnlyOneQuestion();
      if one {
        CopyQuestion(buf);
      }
      if header[2] / 128 == 0 && header[2] / 8 % 16 == 0 && one {
        if domain == [42] {
          return true;
        }
        var name := GetDomainNameWithoutWwwPrefix();
        return name == domain;
      }
      return false;
    }

    /** The answering half: the reply due for the packet held goes out. */
    method AnswerPacket(ghost d: Datagram)
      requires header.Length == HEADER_SIZE && qName.Length == QNAME_SIZE && header != qName
      requires udp.Valid() && udp.tx != null && udp.tx != header && udp.tx != qName && udp.rx == null
      requires Acceptable(d) && d.data != [] && udp.remoteIp == d.ip && udp.remotePort == d.port
      requires buf != null && buf != qName && buf != header && buf != udp.tx
      requires buf[..] == (if |d.data| <= 1460 then d.data else d.data[..1460])
      requires header[..] == buf[..][..HEADER_SIZE]
      modifies this`qNameLength, this`qType, this`qClass, header, qName
      modifies udp`tx, udp`txLen, udp`udpServer, udp`remoteIp, udp`remotePort, udp.tx, udp.net`outgoing, udp.net`results
      ensures udp.Valid() && udp.tx == old(udp.tx)
      ensures var r := Serve(old(udp.TxBytes()), d, Settings());
              udp.net.outgoing == old(udp.net.outgoing) + r.0 && udp.TxBytes() == r.1
    {
      hide Packetiser.WriteAll, Packetiser.Stamp, RawName, EncodeName, Ring, OneQuestion,
        AddressReply, CodeReply, Matches, Serve;
      ghost var p := buf[..];
      var answer := IsForUs();
      ServeIs(udp.TxBytes(), d, Settings());
      if answer {
        ReplyWithIP(p);
      } else if header[2] / 128 == 0 {
        ReplyWithCustomCode(p);
      }
    }

    /** processNextRequest: takes at most one datagram, drains it, and sends what
        `Serve` says it should. */
    method ProcessNextRequest()
      requires Valid()
      requires udp.net.incoming != [] ==> Acceptable(udp.net.incoming[0])
      modifies this, header, qName, udp, udp.tx, udp.net
      ensures Valid() && Settings() == old(Settings()) && udp.tx == old(udp.tx)
      ensures udp.net.receives == old(udp.net.receives) + [udp.net.incoming != old(udp.net.incoming)]
      ensures udp.net.incoming == old(udp.net.incoming) ==>
                udp.net.outgoing == old(udp.net.outgoing) && udp.TxBytes() == old(udp.TxBytes())
      ensures udp.net.incoming != old(udp.net.incoming) ==>
                && old(udp.net.incoming) != [] && udp.net.incoming == old(udp.net.incoming)[1..]
                && var r := Serve(old(udp.TxBytes()), old(udp.net.incoming)[0], Settings());
                   udp.net.outgoing == old(udp.net.outgoing) + r.0 && udp.TxBytes() == r.1
      ensures udp.net.incoming != old(udp.net.incoming) ==>
                var d := old(udp.net.incoming)[0];
                var p := if |d.data| <= 1460 then d.data else d.data[..1460];
                if d.data == [] || p[2] / 128 == 1 then udp.net.outgoing == old(udp.net.outgoing)
                else
                  var base := if d.port == 0 then old(udp.TxBytes()) else [];
                  var r := if && OneQuestion(p) && p[2] / 8 % 16 == 0
                              && (domain == [42] || RemoveWww(Lower(Join(RawName(p, 12).value))) == domain)
                           then AddressReply(p, Settings()) else CodeReply(p, Settings());
                  |base| + |r| <= 1460 ==>
                    && udp.net.outgoing == old(udp.net.outgoing) + [Datagram(base + r, d.ip, d.port)]
                    && udp.TxBytes() == base + r
    {
      hide Ring, WellFormed, Serve, AddressReply, CodeReply, OneQuestion, RawName, EncodeName, Join, RemoveWww, Lower;
      if udp.net.incoming != [] {
        ServeSends(udp.TxBytes(), udp.net.incoming[0], Settings());
      }
      var taken := TakePacket();
      if taken {
        AnswerPacket(old(udp.net.incoming)[0]);
        buf := null;
      } else if old(udp.net.incoming) != [] {
        ServeNothing(udp.TxBytes(), old(udp.net.incoming)[0], Settings());
      }
    }

    /** loop() of the sketch: however often the server is polled, what went out is
        what is due for the datagrams taken, one after the other; and that is one
        answer per query, in order and to its sender, and nothing else, exactly
        when no query from port 0 finds bytes in the transmit buffer. */
    method Loop(calls: nat) returns (ghost taken: nat)
      requires Valid() && AllAcceptable(udp.net.incoming)
      modifies this, header, qName, udp, udp.tx, udp.net
      ensures Valid() && taken <= |old(udp.net.incoming)|
      ensures |udp.net.receives| == |old(udp.net.receives)| + calls
      ensures udp.net.incoming == old(udp.net.incoming)[taken..]
      ensures AllAcceptable(old(udp.net.incoming)[..taken])
      ensures var ds, tx, cfg := old(udp.net.incoming)[..taken], old(udp.TxBytes()), old(Settings());
              && udp.net.outgoing == old(udp.net.outgoing) + ServeAll(tx, ds, cfg).0
              && udp.TxBytes() == ServeAll(tx, ds, cfg).1
              && (udp.net.outgoing == old(udp.net.outgoing) + Answers(ds, cfg) <==> PortZeroFindsEmpty(tx, ds, cfg))
    {
      hide Packetiser.WriteAll, Packetiser.Stamp, RawName, EncodeName, Ring, Acceptable, AllAcceptable, Answer, Serve,
        Answers, PortZeroFindsEmpty, WellFormed, OneQuestion, AddressReply, CodeReply, Join, RemoveWww, Lower, ServeAll;
      taken := 0;
      ghost var arrived, cfg, tx, log := udp.net.incoming, Settings(), udp.TxBytes(), udp.net.outgoing;
      SlicesAcceptable(arrived);
      ServeAllNone(tx, cfg);
      assert arrived[..0] == [];
      for i := 0 to calls
        invariant Valid() && Settings() == cfg && udp.tx == old(udp.tx)
        invariant |udp.net.receives| == |old(udp.net.receives)| + i
        invariant taken <= |arrived| && udp.net.incoming == arrived[taken..]
        invariant AllAcceptable(arrived[..taken])
        invariant udp.net.outgoing == log + ServeAll(tx, arrived[..taken], cfg).0
        invariant udp.TxBytes() == ServeAll(tx, arrived[..taken], cfg).1
      {
        ghost var before := udp.net.incoming;
        FirstAcceptable(arrived, taken);
        ProcessNextRequest();
        if udp.net.incoming != before {
          ServeAllSnoc(tx, arrived[..taken], arrived[taken], cfg);
          assert arrived[..taken + 1] == arrived[..taken] + [arrived[taken]];
          taken := taken + 1;
        }
      }
      RunAnswersEachQueryOnceIff(tx, arrived[..taken], cfg);
      SameFront(log, log, ServeAll(tx, arrived[..taken], cfg).0, Answers(arrived[..taken], cfg));
    }
  }
}
