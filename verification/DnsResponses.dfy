/** Bootstrap responses: the parser over arbitrary octets, against messages laid out as in RFC 1035. */
module DnsResponses {
  import opened Wrappers
  import opened DnsNames

  datatype Address = V4(octets: seq<byte>) | V6(octets: seq<byte>)

  datatype ResponseError =
    | InvalidResponse | NoUsableRecord | BadQuestion | QuestionPastEnd | BadAnswer | AnswerPastEnd | DataPastEnd
    | NoAddress

  // -------------------------------------------------------------------- the parser

  function U16At(packet: seq<byte>, offset: nat): (n: nat)
    requires offset + 2 <= |packet|
    ensures n < 65536
  {
    var high: int, low: int := packet[offset], packet[offset + 1];
    high * 256 + low
  }

  function SkipQuestion(packet: seq<byte>, offset: nat): (next: Result<nat, ResponseError>)
    ensures next.Ok? ==> offset < next.value <= |packet|
  {
    match SkipName(packet, offset)
    case None => Err(BadQuestion)
    case Some(fields) => if fields + 4 > |packet| then Err(QuestionPastEnd) else Ok(fields + 4)
  }

  function SkipQuestions(packet: seq<byte>, offset: nat, count: nat): (next: Result<nat, ResponseError>)
    requires offset <= |packet|
    ensures next.Ok? ==> offset <= next.value <= |packet|
    decreases count
  {
    if count == 0 then Ok(offset)
    else
      match SkipQuestion(packet, offset)
      case Err(error) => Err(error)
      case Ok(next) => SkipQuestions(packet, next, count - 1)
  }

  /** The address in a record of the asked type, class IN and the right length. */
  function AddressIn(rtype: nat, class_: nat, data: seq<byte>, qtype: nat): seq<Address> {
    if class_ != 1 || rtype != qtype then []
    else if qtype == 1 && |data| == 4 then [V4(data)]
    else if qtype == 28 && |data| == 16 then [V6(data)]
    else []
  }

  /** One answer: its addresses and the offset behind it. */
  function ReadAnswer(packet: seq<byte>, offset: nat, qtype: nat): (r: Result<(seq<Address>, nat), ResponseError>)
    ensures r.Ok? ==> offset < r.value.1 <= |packet|
  {
    match SkipName(packet, offset)
    case None => Err(BadAnswer)
    case Some(fields) =>
      if fields + 10 > |packet| then Err(AnswerPastEnd)
      else
        var end := fields + 10 + U16At(packet, fields + 8);
        if end > |packet| then Err(DataPastEnd)
        else Ok((AddressIn(U16At(packet, fields), U16At(packet, fields + 2), packet[fields + 10..end], qtype), end))
  }

  function ReadAnswers(packet: seq<byte>, offset: nat, count: nat, qtype: nat): Result<seq<Address>, ResponseError>
    decreases count
  {
    if count == 0 then Ok([])
    else
      match ReadAnswer(packet, offset, qtype)
      case Err(error) => Err(error)
      case Ok((addresses, next)) => Prepend(addresses, ReadAnswers(packet, next, count - 1, qtype))
  }

  function Prepend(addresses: seq<Address>, rest: Result<seq<Address>, ResponseError>):
      Result<seq<Address>, ResponseError> {
    match rest
    case Ok(more) => Ok(addresses + more)
    case Err(_) => rest
  }

  function ReadBody(packet: seq<byte>, qtype: nat): Result<seq<Address>, ResponseError>
    requires |packet| >= 12
  {
    match SkipQuestions(packet, 12, U16At(packet, 4))
    case Err(error) => Err(error)
    case Ok(offset) => ReadAnswers(packet, offset, U16At(packet, 6), qtype)
  }

  function ParseResponse(response: seq<byte>, query: seq<byte>, qtype: nat): Result<seq<Address>, ResponseError> {
    if |response| < 12 || |query| < 2 || response[0..2] != query[0..2] then Err(InvalidResponse)
    else if response[3] % 16 != 0 then Err(NoUsableRecord)
    else
      match ReadBody(response, qtype)
      case Err(error) => Err(error)
      case Ok(addresses) => if addresses == [] then Err(NoAddress) else Ok(addresses)
  }

  lemma PrependTwice(a: seq<Address>, b: seq<Address>, rest: Result<seq<Address>, ResponseError>)
    ensures Prepend(a, Prepend(b, rest)) == Prepend(a + b, rest)
    ensures Prepend([], rest) == rest
  {
    if rest.Ok? {
      assert a + (b + rest.value) == a + b + rest.value && [] + rest.value == rest.value;
    }
  }

  /** The loop over the questions. */
  method PassQuestions(response: seq<byte>, count: nat) returns (r: Result<nat, ResponseError>)
    requires |response| >= 12
    ensures r == SkipQuestions(response, 12, count)
  {
    var offset: nat := 12;
    for i := 0 to count
      invariant offset <= |response|
      invariant SkipQuestions(response, 12, count) == SkipQuestions(response, offset, count - i)
    {
      var fields := SkipDnsName(response, offset);
      if fields.None? {
        return Err(BadQuestion);
      }
      if fields.value + 4 > |response| {
        return Err(QuestionPastEnd);
      }
      offset := fields.value + 4;
    }
    r := Ok(offset);
  }

  /** What one answer adds to the addresses. */
  method PickAddress(rtype: nat, class_: nat, data: seq<byte>, qtype: nat) returns (found: seq<Address>)
    ensures found == AddressIn(rtype, class_, data, qtype)
  {
    found := [];
    if class_ == 1 && rtype == qtype {
      if qtype == 1 && |data| == 4 {
        found := found + [V4(data)];
      }
      if qtype == 28 && |data| == 16 {
        found := found + [V6(data)];
      }
    }
  }

  method OneAnswer(response: seq<byte>, offset: nat, qtype: nat) returns (r: Result<(seq<Address>, nat), ResponseError>)
    ensures r == ReadAnswer(response, offset, qtype)
  {
    var header := SkipDnsName(response, offset);
    if header.None? {
      return Err(BadAnswer);
    }
    var fields := header.value;
    if fields + 10 > |response| {
      return Err(AnswerPastEnd);
    }
    var end: nat := fields + 10 + U16At(response, fields + 8);
    if end > |response| {
      return Err(DataPastEnd);
    }
    var found := PickAddress(U16At(response, fields), U16At(response, fields + 2), response[fields + 10..end], qtype);
    r := Ok((found, end));
  }

  lemma NextAnswer(packet: seq<byte>, offset: nat, count: nat, qtype: nat, ips: seq<Address>)
    requires count > 0
    ensures match ReadAnswer(packet, offset, qtype)
            case Err(error) => Prepend(ips, ReadAnswers(packet, offset, count, qtype)) == Err(error)
            case Ok((found, next)) =>
              Prepend(ips, ReadAnswers(packet, offset, count, qtype))
              == Prepend(ips + found, ReadAnswers(packet, next, count - 1, qtype))
  {
    match ReadAnswer(packet, offset, qtype)
    case Err(_) =>
    case Ok((found, next)) => PrependTwice(ips, found, ReadAnswers(packet, next, count - 1, qtype));
  }

  /** The loop over the answers. */
  method CollectAnswers(response: seq<byte>, start: nat, count: nat, qtype: nat)
    returns (r: Result<seq<Address>, ResponseError>)
    ensures r == ReadAnswers(response, start, count, qtype)
  {
    var offset: nat := start;
    var ips: seq<Address> := [];
    PrependTwice([], [], ReadAnswers(response, start, count, qtype));
    for i := 0 to count
      invariant ReadAnswers(response, start, count, qtype)
             == Prepend(ips, ReadAnswers(response, offset, count - i, qtype))
    {
      NextAnswer(response, offset, count - i, qtype, ips);
      var answer := OneAnswer(response, offset, qtype);
      if answer.Err? {
        return Err(answer.error);
      }
      ips := ips + answer.value.0;
      offset := answer.value.1;
    }
    assert ips + [] == ips;
    r := Ok(ips);
  }

  /** The bootstrap parser over arbitrary octets: it ends, and never reads past them. */
  method ParseBootstrapIpResponse(response: seq<byte>, query: seq<byte>, qtype: nat)
    returns (r: Result<seq<Address>, ResponseError>)
    ensures r == ParseResponse(response, query, qtype)
  {
    if |response| < 12 || |query| < 2 || response[0..2] != query[0..2] {
      return Err(InvalidResponse);
    }
    if response[3] % 16 != 0 {
      return Err(NoUsableRecord);
    }
    var offset := PassQuestions(response, U16At(response, 4));
    if offset.Err? {
      return Err(offset.error);
    }
    r := CollectAnswers(response, offset.value, U16At(response, 6), qtype);
    if r == Ok([]) {
      r := Err(NoAddress);
    }
  }

  // --------------------------------------------- messages as RFC 1035 lays them out

  /** Section 4.1.2: a name, a type and a class. */
  datatype Question = Question(name: Name, fields: seq<byte>)

  /** Section 4.1.3. */
  datatype Record = Record(name: Name, rtype: nat, class_: nat, ttl: seq<byte>, data: seq<byte>)

  /** Sections 4.1.1 to 4.1.4; `others` are the counts of the later sections and `rest` these sections themselves. */
  datatype Message = Message(id: seq<byte>, flags: seq<byte>, others: seq<byte>, questions: seq<Question>,
                             answers: seq<Record>, rest: seq<byte>)

  predicate WellFormedQuestion(q: Question) {
    WellFormedName(q.name) && |q.fields| == 4
  }

  predicate WellFormedRecord(a: Record) {
    WellFormedName(a.name) && a.rtype < 65536 && a.class_ < 65536 && |a.ttl| == 4 && |a.data| < 65536
  }

  predicate WellFormedQuestions(qs: seq<Question>) {
    forall i :: 0 <= i < |qs| ==> WellFormedQuestion(qs[i])
  }

  predicate WellFormedRecords(records: seq<Record>) {
    forall i :: 0 <= i < |records| ==> WellFormedRecord(records[i])
  }

  predicate WellFormedMessage(m: Message) {
    && |m.id| == 2 && |m.flags| == 2 && |m.others| == 4
    && |m.questions| < 65536 && |m.answers| < 65536
    && WellFormedQuestions(m.questions) && WellFormedRecords(m.answers)
  }

  function QuestionOctets(q: Question): seq<byte>
    requires WellFormedQuestion(q)
  {
    NameOctets(q.name) + q.fields
  }

  function RecordFields(a: Record): (fields: seq<byte>)
    requires WellFormedRecord(a)
    ensures |fields| == 10
  {
    U16Octets(a.rtype) + U16Octets(a.class_) + a.ttl + U16Octets(|a.data|)
  }

  function RecordOctets(a: Record): seq<byte>
    requires WellFormedRecord(a)
  {
    NameOctets(a.name) + (RecordFields(a) + a.data)
  }

  function QuestionsOctets(qs: seq<Question>): seq<byte>
    requires WellFormedQuestions(qs)
  {
    if qs == [] then [] else QuestionOctets(qs[0]) + QuestionsOctets(qs[1..])
  }

  function RecordsOctets(records: seq<Record>): seq<byte>
    requires WellFormedRecords(records)
  {
    if records == [] then [] else RecordOctets(records[0]) + RecordsOctets(records[1..])
  }

  function HeaderOctets(m: Message): (header: seq<byte>)
    requires WellFormedMessage(m)
    ensures |header| == 12
  {
    m.id + m.flags + U16Octets(|m.questions|) + U16Octets(|m.answers|) + m.others
  }

  function MessageOctets(m: Message): seq<byte>
    requires WellFormedMessage(m)
  {
    HeaderOctets(m) + QuestionsOctets(m.questions) + (RecordsOctets(m.answers) + m.rest)
  }

  // Where the fields stand in the octets, most significant octet first.

  /** Sections 4.1.2 and 4.1.3 of RFC 1035, behind the name of a record. */
  lemma RecordLayout(a: Record)
    requires WellFormedRecord(a)
    ensures var f := RecordFields(a);
            && f[0] as int * 256 + f[1] as int == a.rtype && f[2] as int * 256 + f[3] as int == a.class_
            && f[4..8] == a.ttl && f[8] as int * 256 + f[9] as int == |a.data|
  {
  }

  /** Section 4.1.1 of RFC 1035: ID, flags with the RCODE in the low bits of the second octet, and the four counts. */
  lemma HeaderLayout(m: Message)
    requires WellFormedMessage(m)
    ensures var h := HeaderOctets(m);
            && h[0..2] == m.id && h[2..4] == m.flags && h[8..12] == m.others
            && h[4] as int * 256 + h[5] as int == |m.questions| && h[6] as int * 256 + h[7] as int == |m.answers|
  {
  }

  /** The data of the records of a type, class IN and a length, in order. */
  function DataOf(records: seq<Record>, rtype: nat, length: nat): (data: seq<seq<byte>>)
    ensures |data| <= |records| && forall i :: 0 <= i < |data| ==> |data[i]| == length
  {
    if records == [] then []
    else if records[0].rtype == rtype && records[0].class_ == 1 && |records[0].data| == length then
      [records[0].data] + DataOf(records[1..], rtype, length)
    else DataOf(records[1..], rtype, length)
  }

  function AllV4(data: seq<seq<byte>>): (addresses: seq<Address>)
    ensures |addresses| == |data| && forall i :: 0 <= i < |data| ==> addresses[i] == V4(data[i])
  {
    if data == [] then [] else [V4(data[0])] + AllV4(data[1..])
  }

  function AllV6(data: seq<seq<byte>>): (addresses: seq<Address>)
    ensures |addresses| == |data| && forall i :: 0 <= i < |data| ==> addresses[i] == V6(data[i])
  {
    if data == [] then [] else [V6(data[0])] + AllV6(data[1..])
  }

  /** What records hold for a type: the four octets of each A record (section 3.4.1 of RFC 1035), the sixteen of each
      AAAA record (section 2.2 of RFC 3596), nothing for any other type. */
  function AddressesOf(records: seq<Record>, qtype: nat): seq<Address> {
    if qtype == 1 then AllV4(DataOf(records, 1, 4))
    else if qtype == 28 then AllV6(DataOf(records, 28, 16))
    else []
  }

  lemma DataFirst(a: Record, rest: seq<Record>, records: seq<Record>, rtype: nat, length: nat)
    requires records != [] && records[0] == a && records[1..] == rest
    ensures DataOf(records, rtype, length)
         == (if a.rtype == rtype && a.class_ == 1 && |a.data| == length then [a.data] else [])
            + DataOf(rest, rtype, length)
  {
  }

  lemma AllV4First(first: seq<byte>, rest: seq<seq<byte>>)
    ensures AllV4([first] + rest) == [V4(first)] + AllV4(rest)
  {
    assert ([first] + rest)[1..] == rest;
  }

  lemma AllV6First(first: seq<byte>, rest: seq<seq<byte>>)
    ensures AllV6([first] + rest) == [V6(first)] + AllV6(rest)
  {
    assert ([first] + rest)[1..] == rest;
  }

  /** What the parser takes from the first record and what the others hold. */
  lemma AddressesFirst(a: Record, rest: seq<Record>, records: seq<Record>, qtype: nat)
    requires records != [] && records[0] == a && records[1..] == rest
    ensures AddressesOf(records, qtype) == AddressIn(a.rtype, a.class_, a.data, qtype) + AddressesOf(rest, qtype)
  {
    if qtype == 1 {
      DataFirst(a, rest, records, 1, 4);
      AllV4First(a.data, DataOf(rest, 1, 4));
    } else if qtype == 28 {
      DataFirst(a, rest, records, 28, 16);
      AllV6First(a.data, DataOf(rest, 28, 16));
    }
  }

  // Laid out questions and records read back.

  lemma QuestionSkipped(pre: seq<byte>, q: Question, post: seq<byte>)
    requires WellFormedQuestion(q)
    ensures SkipQuestion(pre + QuestionOctets(q) + post, |pre|) == Ok(|pre| + |QuestionOctets(q)|)
  {
    NameSkipped(pre, q.name, q.fields + post);
    assert pre + QuestionOctets(q) + post == pre + NameOctets(q.name) + (q.fields + post);
  }

  lemma Regroup(pre: seq<byte>, a: seq<byte>, b: seq<byte>, post: seq<byte>)
    ensures pre + (a + b) + post == pre + a + (b + post)
    ensures pre + (a + b) + post == (pre + a) + b + post
  {
  }

  lemma {:induction false} QuestionsSkipped(pre: seq<byte>, qs: seq<Question>, post: seq<byte>)
    requires WellFormedQuestions(qs)
    ensures SkipQuestions(pre + QuestionsOctets(qs) + post, |pre|, |qs|) == Ok(|pre| + |QuestionsOctets(qs)|)
    decreases |qs|
  {
    if qs != [] {
      var first, rest := QuestionOctets(qs[0]), QuestionsOctets(qs[1..]);
      QuestionSkipped(pre, qs[0], rest + post);
      QuestionsSkipped(pre + first, qs[1..], post);
      Regroup(pre, first, rest, post);
    }
  }

  lemma U16ReadsBack(packet: seq<byte>, offset: nat, n: nat)
    requires n < 65536 && offset + 2 <= |packet| && packet[offset..offset + 2] == U16Octets(n)
    ensures U16At(packet, offset) == n
  {
    assert packet[offset] == packet[offset..offset + 2][0] && packet[offset + 1] == packet[offset..offset + 2][1];
  }

  lemma FieldsReadBack(pre: seq<byte>, a: Record, post: seq<byte>)
    requires WellFormedRecord(a)
    ensures var packet, at := pre + RecordFields(a) + post, |pre|;
            U16At(packet, at) == a.rtype && U16At(packet, at + 2) == a.class_ && U16At(packet, at + 8) == |a.data|
  {
    var packet, at := pre + RecordFields(a) + post, |pre|;
    assert packet[at..at + 2] == U16Octets(a.rtype);
    U16ReadsBack(packet, at, a.rtype);
    assert packet[at + 2..at + 4] == U16Octets(a.class_);
    U16ReadsBack(packet, at + 2, a.class_);
    assert packet[at + 8..at + 10] == U16Octets(|a.data|);
    U16ReadsBack(packet, at + 8, |a.data|);
  }

  lemma RecordRead(pre: seq<byte>, a: Record, post: seq<byte>, qtype: nat)
    requires WellFormedRecord(a)
    ensures ReadAnswer(pre + RecordOctets(a) + post, |pre|, qtype)
         == Ok((AddressIn(a.rtype, a.class_, a.data, qtype), |pre| + |RecordOctets(a)|))
  {
    var name, fields := NameOctets(a.name), RecordFields(a);
    var packet := pre + RecordOctets(a) + post;
    NameSkipped(pre, a.name, fields + a.data + post);
    assert packet == pre + name + (fields + a.data + post);
    FieldsReadBack(pre + name, a, a.data + post);
    assert packet == (pre + name) + fields + (a.data + post);
    var at := |pre| + |name| + 10;
    assert packet[at..at + |a.data|] == a.data;
  }

  /** Octets that stand in a packet at an offset. */
  predicate At(packet: seq<byte>, offset: nat, octets: seq<byte>) {
    offset + |octets| <= |packet| && packet[offset..offset + |octets|] == octets
  }

  lemma AtParts(packet: seq<byte>, offset: nat, a: seq<byte>, b: seq<byte>)
    requires At(packet, offset, a + b)
    ensures At(packet, offset, a) && At(packet, offset + |a|, b)
  {
    var both := packet[offset..offset + |a + b|];
    assert both[..|a|] == a && both[|a|..] == b;
  }

  lemma RecordReadAt(packet: seq<byte>, offset: nat, a: Record, qtype: nat)
    requires WellFormedRecord(a) && At(packet, offset, RecordOctets(a))
    ensures ReadAnswer(packet, offset, qtype)
         == Ok((AddressIn(a.rtype, a.class_, a.data, qtype), offset + |RecordOctets(a)|))
  {
    var octets := RecordOctets(a);
    RecordRead(packet[..offset], a, packet[offset + |octets|..], qtype);
    assert packet == packet[..offset] + octets + packet[offset + |octets|..];
  }

  /** Answers read from an offset, and what they hold. */
  predicate Reads(packet: seq<byte>, offset: nat, count: nat, qtype: nat, found: seq<Address>) {
    ReadAnswers(packet, offset, count, qtype) == Ok(found)
  }

  predicate ReadsOne(packet: seq<byte>, offset: nat, qtype: nat, found: seq<Address>, next: nat) {
    ReadAnswer(packet, offset, qtype) == Ok((found, next))
  }

  lemma AnswersStep(packet: seq<byte>, offset: nat, next: nat, count: nat, qtype: nat, found: seq<Address>,
                    more: seq<Address>, all: seq<Address>)
    requires ReadsOne(packet, offset, qtype, found, next)
    requires Reads(packet, next, count, qtype, more) && all == found + more
    ensures Reads(packet, offset, count + 1, qtype, all)
  {
  }

  lemma RecordsCons(a: Record, rest: seq<Record>, qtype: nat)
    requires WellFormedRecord(a) && WellFormedRecords(rest)
    ensures WellFormedRecords([a] + rest)
    ensures RecordsOctets([a] + rest) == RecordOctets(a) + RecordsOctets(rest)
    ensures AddressesOf([a] + rest, qtype) == AddressIn(a.rtype, a.class_, a.data, qtype) + AddressesOf(rest, qtype)
  {
    assert ([a] + rest)[1..] == rest;
    AddressesFirst(a, rest, [a] + rest, qtype);
  }

  lemma {:induction false} RecordsRead(packet: seq<byte>, offset: nat, records: seq<Record>, qtype: nat)
    returns (found: seq<Address>)
    requires WellFormedRecords(records) && At(packet, offset, RecordsOctets(records))
    ensures found == AddressesOf(records, qtype) && Reads(packet, offset, |records|, qtype, found)
    decreases |records|
  {
    if records == [] {
      found := [];
    } else {
      var a, rest := records[0], records[1..];
      AddressesFirst(a, rest, records, qtype);
      RecordsFirst(a, rest, records);
      var first, next := RecordsReadStep(packet, offset, a, rest, qtype);
      var more := RecordsRead(packet, next, rest, qtype);
      found := first + more;
      AnswersStep(packet, offset, next, |rest|, qtype, first, more, found);
    }
  }

  lemma RecordsFirst(a: Record, rest: seq<Record>, records: seq<Record>)
    requires WellFormedRecords(records) && records != [] && records[0] == a && records[1..] == rest
    ensures RecordsOctets(records) == RecordOctets(a) + RecordsOctets(rest)
  {
  }

  lemma RecordsReadStep(packet: seq<byte>, offset: nat, a: Record, rest: seq<Record>, qtype: nat)
    returns (first: seq<Address>, next: nat)
    requires WellFormedRecord(a) && WellFormedRecords(rest)
    requires At(packet, offset, RecordOctets(a) + RecordsOctets(rest))
    ensures first == AddressIn(a.rtype, a.class_, a.data, qtype)
    ensures At(packet, next, RecordsOctets(rest)) && ReadsOne(packet, offset, qtype, first, next)
  {
    first, next := AddressIn(a.rtype, a.class_, a.data, qtype), offset + |RecordOctets(a)|;
    AtParts(packet, offset, RecordOctets(a), RecordsOctets(rest));
    RecordReadAt(packet, offset, a, qtype);
  }

  lemma HeaderReadsBack(m: Message)
    requires WellFormedMessage(m)
    ensures var packet := MessageOctets(m);
            |packet| >= 12 && packet[0..2] == m.id && packet[3] == m.flags[1]
            && U16At(packet, 4) == |m.questions| && U16At(packet, 6) == |m.answers|
  {
    var packet := MessageOctets(m);
    assert packet[..12] == HeaderOctets(m);
    assert packet[4..6] == U16Octets(|m.questions|);
    U16ReadsBack(packet, 4, |m.questions|);
    assert packet[6..8] == U16Octets(|m.answers|);
    U16ReadsBack(packet, 6, |m.answers|);
  }

  lemma BodySteps(packet: seq<byte>, questions: nat, offset: nat, answers: nat, qtype: nat, found: seq<Address>)
    requires |packet| >= 12 && U16At(packet, 4) == questions && U16At(packet, 6) == answers
    requires SkipQuestions(packet, 12, questions) == Ok(offset) && Reads(packet, offset, answers, qtype, found)
    ensures ReadBody(packet, qtype) == Ok(found)
  {
  }

  lemma InMiddle(header: seq<byte>, a: seq<byte>, b: seq<byte>, rest: seq<byte>)
    ensures At(header + a + (b + rest), |header| + |a|, b)
  {
  }

  lemma BodyParts(m: Message) returns (next: nat)
    requires WellFormedMessage(m)
    ensures SkipQuestions(MessageOctets(m), 12, |m.questions|) == Ok(next)
    ensures At(MessageOctets(m), next, RecordsOctets(m.answers))
  {
    next := 12 + |QuestionsOctets(m.questions)|;
    QuestionsSkipped(HeaderOctets(m), m.questions, RecordsOctets(m.answers) + m.rest);
    InMiddle(HeaderOctets(m), QuestionsOctets(m.questions), RecordsOctets(m.answers), m.rest);
  }

  lemma BodyReadsBack(m: Message, qtype: nat)
    requires WellFormedMessage(m)
    ensures |MessageOctets(m)| >= 12 && ReadBody(MessageOctets(m), qtype) == Ok(AddressesOf(m.answers, qtype))
  {
    HeaderReadsBack(m);
    var next := BodyParts(m);
    var found := RecordsRead(MessageOctets(m), next, m.answers, qtype);
    BodySteps(MessageOctets(m), |m.questions|, next, |m.answers|, qtype, found);
  }

  /** For any message in that layout with the query's ID and RCODE 0, exactly the addresses its answers hold, in order,
      or an error when they hold none. */
  lemma MessageParses(m: Message, query: seq<byte>, qtype: nat)
    requires WellFormedMessage(m) && |query| >= 2 && m.id == query[0..2] && m.flags[1] % 16 == 0
    ensures ParseResponse(MessageOctets(m), query, qtype)
         == if AddressesOf(m.answers, qtype) == [] then Err(NoAddress) else Ok(AddressesOf(m.answers, qtype))
  {
    HeaderReadsBack(m);
    BodyReadsBack(m, qtype);
  }

  // Accepted octets are a message in that layout.

  lemma {:induction false} SkippedAreQuestions(packet: seq<byte>, offset: nat, count: nat) returns (qs: seq<Question>)
    requires offset <= |packet| && SkipQuestions(packet, offset, count).Ok?
    ensures |qs| == count && WellFormedQuestions(qs)
    ensures QuestionsOctets(qs) == packet[offset..SkipQuestions(packet, offset, count).value]
    decreases count
  {
    if count == 0 {
      qs := [];
    } else {
      var next := SkipQuestion(packet, offset).value;
      var name := SkippedIsName(packet, offset);
      var q := Question(name, packet[next - 4..next]);
      var rest := SkippedAreQuestions(packet, next, count - 1);
      assert QuestionOctets(q) == packet[offset..next];
      qs := [q] + rest;
      assert qs[1..] == rest;
    }
  }

  lemma U16Exact(packet: seq<byte>, offset: nat)
    requires offset + 2 <= |packet|
    ensures U16Octets(U16At(packet, offset)) == packet[offset..offset + 2]
  {
  }

  lemma FieldsExact(packet: seq<byte>, at: nat, a: Record)
    requires at + 10 <= |packet| && WellFormedRecord(a)
    requires a.rtype == U16At(packet, at) && a.class_ == U16At(packet, at + 2) && a.ttl == packet[at + 4..at + 8]
    requires |a.data| == U16At(packet, at + 8)
    ensures RecordFields(a) == packet[at..at + 10]
  {
    U16Exact(packet, at);
    U16Exact(packet, at + 2);
    U16Exact(packet, at + 8);
  }

  lemma ReadIsRecord(packet: seq<byte>, offset: nat, qtype: nat) returns (a: Record)
    requires ReadAnswer(packet, offset, qtype).Ok?
    ensures WellFormedRecord(a) && RecordOctets(a) == packet[offset..ReadAnswer(packet, offset, qtype).value.1]
    ensures AddressIn(a.rtype, a.class_, a.data, qtype) == ReadAnswer(packet, offset, qtype).value.0
  {
    var name := SkippedIsName(packet, offset);
    var at := SkipName(packet, offset).value;
    var end := ReadAnswer(packet, offset, qtype).value.1;
    a := Record(name, U16At(packet, at), U16At(packet, at + 2), packet[at + 4..at + 8], packet[at + 10..end]);
    FieldsExact(packet, at, a);
    ThreeSlices(packet, offset, at, at + 10, end);
  }

  lemma ThreeSlices(packet: seq<byte>, i: nat, j: nat, k: nat, l: nat)
    requires i <= j <= k <= l <= |packet|
    ensures packet[i..l] == packet[i..j] + (packet[j..k] + packet[k..l])
  {
  }

  lemma TwoSlices(packet: seq<byte>, i: nat, j: nat, k: nat)
    requires i <= j <= k <= |packet|
    ensures packet[i..k] == packet[i..j] + packet[j..k]
  {
  }

  lemma {:induction false} ReadAreRecords(packet: seq<byte>, offset: nat, count: nat, qtype: nat)
    returns (records: seq<Record>, end: nat)
    requires offset <= |packet| && ReadAnswers(packet, offset, count, qtype).Ok?
    ensures |records| == count && WellFormedRecords(records) && offset <= end <= |packet|
    ensures RecordsOctets(records) == packet[offset..end]
    ensures Ok(AddressesOf(records, qtype)) == ReadAnswers(packet, offset, count, qtype)
    decreases count
  {
    if count == 0 {
      records, end := [], offset;
    } else {
      var next := ReadAnswer(packet, offset, qtype).value.1;
      var a := ReadIsRecord(packet, offset, qtype);
      var rest;
      rest, end := ReadAreRecords(packet, next, count - 1, qtype);
      records := [a] + rest;
      RecordsCons(a, rest, qtype);
      TwoSlices(packet, offset, next, end);
    }
  }

  /** A message that octets are the layout of, carrying given addresses. */
  ghost predicate LaidOut(response: seq<byte>, m: Message, addresses: seq<Address>, qtype: nat) {
    WellFormedMessage(m) && MessageOctets(m) == response && AddressesOf(m.answers, qtype) == addresses
  }

  lemma HeaderExact(response: seq<byte>, m: Message)
    requires |response| >= 12 && WellFormedMessage(m)
    requires m.id == response[0..2] && m.flags == response[2..4] && m.others == response[8..12]
    requires |m.questions| == U16At(response, 4) && |m.answers| == U16At(response, 6)
    ensures HeaderOctets(m) == response[..12]
  {
    U16Exact(response, 4);
    U16Exact(response, 6);
  }

  lemma FourSlices(packet: seq<byte>, i: nat, j: nat, k: nat)
    requires i <= j <= k <= |packet|
    ensures packet == packet[..i] + packet[i..j] + (packet[j..k] + packet[k..])
  {
  }

  lemma BodyIsMessage(response: seq<byte>, qtype: nat) returns (m: Message)
    requires |response| >= 12 && ReadBody(response, qtype).Ok?
    ensures LaidOut(response, m, ReadBody(response, qtype).value, qtype)
  {
    var qs := SkippedAreQuestions(response, 12, U16At(response, 4));
    var next := SkipQuestions(response, 12, U16At(response, 4)).value;
    var records, end := ReadAreRecords(response, next, U16At(response, 6), qtype);
    m := Message(response[0..2], response[2..4], response[8..12], qs, records, response[end..]);
    HeaderExact(response, m);
    FourSlices(response, 12, next, end);
  }

  /** The parser accepts exactly the octets that are such a message with an address in it. */
  lemma ParserExact(response: seq<byte>, query: seq<byte>, qtype: nat, addresses: seq<Address>)
    ensures ParseResponse(response, query, qtype) == Ok(addresses) <==>
            (|query| >= 2 && addresses != []
             && exists m :: LaidOut(response, m, addresses, qtype) && m.id == query[0..2] && m.flags[1] % 16 == 0)
  {
    if ParseResponse(response, query, qtype) == Ok(addresses) {
      var m := BodyIsMessage(response, qtype);
      HeaderReadsBack(m);
    }
    if |query| >= 2 && addresses != []
       && exists m :: LaidOut(response, m, addresses, qtype) && m.id == query[0..2] && m.flags[1] % 16 == 0
    {
      var m :| LaidOut(response, m, addresses, qtype) && m.id == query[0..2] && m.flags[1] % 16 == 0;
      MessageParses(m, query, qtype);
    }
  }
}
