/** The sections of a message as dns_packet.cpp reads and writes them:
    what `copy_question`, `copy_answer_section` and the constructor's
    parse produce from a buffer, what `get_packet_vector` emits, the
    answers `create_answer_section` synthesises, and the round trips that
    connect writing and reading. */
module Wire {
  import opened Bytes
  import opened Names
  import opened Header
  import opened Questions
  import opened Answers

  // Reading

  /** The rest of a question once its name has been read and the cursor
      stands at `end`: exactly two octets of type and two of class. */
  function QuestionAfterName(buf: seq<byte>, name: seq<byte>, end: nat): (r: Option<(Question, nat)>)
    ensures r.Some? ==> r.value.0.domainName == name && r.value.1 == end + 4 <= |buf|
  {
    if end + 4 > |buf| then None
    else Some((Question(name, buf[end..end + 2], buf[end + 2..end + 4]), end + 4))
  }

  /** `copy_question` with the cursor at `p`. */
  function QuestionAt(buf: seq<byte>, p: nat): (r: Option<(Question, nat)>)
    ensures r.Some? ==> p < r.value.1 <= |buf|
  {
    match ScanName(buf, p)
    case None => None
    case Some((name, end)) => QuestionAfterName(buf, name, end)
  }

  /** The rest of a record once its name has been read and the cursor
      stands at `end`: ten fixed octets (type, class, TTL, length) and then
      exactly as many data octets as the length field says. */
  function RecordAfterName(buf: seq<byte>, name: seq<byte>, end: nat): (r: Option<(Answer, nat)>)
    ensures r.Some? ==> var a := r.value.0;
                        && a.domainName == name
                        && |a.data| == Be16(a.length[0], a.length[1])
                        && r.value.1 == end + 10 + |a.data| <= |buf|
  {
    if end + 10 > |buf| then None
    else
      var dataLength := Be16(buf[end + 8], buf[end + 9]);
      if end + 10 + dataLength > |buf| then None
      else
        var a := Answer(name, buf[end..end + 2], buf[end + 2..end + 4], buf[end + 4..end + 8],
                        buf[end + 8..end + 10], buf[end + 10..end + 10 + dataLength]);
        Some((a, end + 10 + dataLength))
  }

  /** One record of `copy_answer_section` with the cursor at `p`. */
  function AnswerAt(buf: seq<byte>, p: nat): (r: Option<(Answer, nat)>)
    ensures r.Some? ==> p < r.value.1 <= |buf|
    ensures r.Some? ==> |r.value.0.data| == Be16(r.value.0.length[0], r.value.0.length[1])
  {
    match ScanName(buf, p)
    case None => None
    case Some((name, end)) => RecordAfterName(buf, name, end)
  }

  /** `copy_question_section`: `n` questions read one after the other
      from `p`, each starting where the previous one left the cursor. */
  function QuestionsAt(buf: seq<byte>, p: nat, n: nat): (r: Option<(seq<Question>, nat)>)
    ensures r.Some? ==> |r.value.0| == n
    decreases n, 1
  {
    if n == 0 then Some(([], p)) else QuestionThenRest(buf, p, n)
  }

  /** One question at `p`, then `n - 1` more from where it ends. */
  function QuestionThenRest(buf: seq<byte>, p: nat, n: nat): (r: Option<(seq<Question>, nat)>)
    requires n > 0
    ensures r.Some? ==> |r.value.0| == n
    decreases n, 0
  {
    match QuestionAt(buf, p)
    case None => None
    case Some((q, next)) =>
      match QuestionsAt(buf, next, n - 1)
      case None => None
      case Some((rest, end)) => Some(([q] + rest, end))
  }

  /** `copy_answer_section`: `n` records read one after the other from
      `p`. */
  function AnswersAt(buf: seq<byte>, p: nat, n: nat): (r: Option<(seq<Answer>, nat)>)
    ensures r.Some? ==> |r.value.0| == n
    decreases n, 1
  {
    if n == 0 then Some(([], p)) else AnswerThenRest(buf, p, n)
  }

  /** One record at `p`, then `n - 1` more from where it ends. */
  function AnswerThenRest(buf: seq<byte>, p: nat, n: nat): (r: Option<(seq<Answer>, nat)>)
    requires n > 0
    ensures r.Some? ==> |r.value.0| == n
    decreases n, 0
  {
    match AnswerAt(buf, p)
    case None => None
    case Some((a, next)) =>
      match AnswersAt(buf, next, n - 1)
      case None => None
      case Some((rest, end)) => Some(([a] + rest, end))
  }

  /** A message as the packet object holds it after parsing. */
  datatype Message = Message(header: seq<byte>, questions: seq<Question>, answers: seq<Answer>)

  /** The `DNSPacket(char buf[512])` parse: the header verbatim, QDCOUNT
      questions from octet 12, then ANCOUNT records; the authority and
      additional sections are not read. Also gives the final cursor. */
  function ParsePacket(buf: seq<byte>): (r: Option<(Message, nat)>)
    ensures r.Some? ==> var m := r.value.0;
                        && |buf| >= HEADER_BYTE_SIZE && m.header == buf[..HEADER_BYTE_SIZE]
                        && |m.questions| == QdCount(buf) && |m.answers| == AnCount(buf)
  {
    if |buf| < HEADER_BYTE_SIZE then None
    else
      match QuestionsAt(buf, HEADER_BYTE_SIZE, QdCount(buf))
      case None => None
      case Some((qs, afterQuestions)) =>
        match AnswersAt(buf, afterQuestions, AnCount(buf))
        case None => None
        case Some((answers, end)) =>
          Some((Message(buf[..HEADER_BYTE_SIZE], qs, answers), end))
  }

  // Writing

  /** The question section as `get_packet_vector` emits it: each
      question's octets in order. */
  function QuestionSectionBytes(qs: seq<Question>): seq<byte>
  {
    if qs == [] then [] else QuestionBytes(qs[0]) + QuestionSectionBytes(qs[1..])
  }

  /** The answer section as `get_packet_vector` emits it. */
  function AnswerSectionBytes(answers: seq<Answer>): seq<byte>
  {
    if answers == [] then [] else AnswerBytes(answers[0]) + AnswerSectionBytes(answers[1..])
  }

  /** `get_packet_vector`: header, questions, answers, nothing else. */
  function PacketBytes(header: seq<byte>, qs: seq<Question>, answers: seq<Answer>): seq<byte>
  {
    header + QuestionSectionBytes(qs) + AnswerSectionBytes(answers)
  }

  /** The records a parser recovers from a written answer section. */
  function SwappedTtls(answers: seq<Answer>): (r: seq<Answer>)
    ensures |r| == |answers|
  {
    if answers == [] then [] else [WithSwappedTtl(answers[0])] + SwappedTtls(answers[1..])
  }

  /** A record whose length field matches its data and whose name the
      parser reads back unchanged. */
  predicate WellFormedAnswer(a: Answer)
  {
    PlainName(a.domainName) && Be16(a.length[0], a.length[1]) == |a.data|
  }

  /** Writing one more question appends its octets to the section. */
  lemma {:induction false} QuestionSectionAppend(qs: seq<Question>, q: Question)
    ensures QuestionSectionBytes(qs + [q]) == QuestionSectionBytes(qs) + QuestionBytes(q)
    decreases |qs|
  {
    if qs == [] {
      assert [] + [q] == [q] && [q][1..] == [];
    } else {
      assert (qs + [q])[0] == qs[0] && (qs + [q])[1..] == qs[1..] + [q];
      QuestionSectionAppend(qs[1..], q);
    }
  }

  /** Writing one more record appends its octets to the section. */
  lemma {:induction false} AnswerSectionAppend(answers: seq<Answer>, a: Answer)
    ensures AnswerSectionBytes(answers + [a]) == AnswerSectionBytes(answers) + AnswerBytes(a)
    decreases |answers|
  {
    if answers == [] {
      assert [] + [a] == [a] && [a][1..] == [];
    } else {
      assert (answers + [a])[0] == answers[0] && (answers + [a])[1..] == answers[1..] + [a];
      AnswerSectionAppend(answers[1..], a);
    }
  }

  // Round trips of single entries

  /** A question written at `p` is read back unchanged, and reading moves
      the cursor past exactly the octets written. */
  lemma {:induction false} QuestionRoundTrip(buf: seq<byte>, p: nat, q: Question)
    requires PlainName(q.domainName) && At(buf, p, QuestionBytes(q))
    ensures QuestionAt(buf, p) == Some((q, p + |QuestionBytes(q)|))
  {
    var end := p + |q.domainName|;
    AtConcat(buf, p, q.domainName + q.qtype, q.qclass);
    AtConcat(buf, p, q.domainName, q.qtype);
    PlainNameScan(buf, p, q.domainName);
    AtSlice(buf, end, q.qtype);
    AtSlice(buf, end + 2, q.qclass);
  }

  /** A well-formed record written at `p` is read back with every field
      unchanged except the TTL, whose first two octets come back
      exchanged; the cursor moves past exactly the octets written. */
  lemma {:induction false} AnswerRoundTrip(buf: seq<byte>, p: nat, a: Answer)
    requires WellFormedAnswer(a) && At(buf, p, AnswerBytes(a))
    ensures AnswerAt(buf, p) == Some((WithSwappedTtl(a), p + |AnswerBytes(a)|))
  {
    var end := p + |a.domainName|;
    AnswerParts(buf, p, a);
    AnswerAtParts(buf, p, a.domainName, end);
  }

  /** The name of a written record is scanned back and the rest of it is
      read back from where the name ends. */
  lemma {:induction false} AnswerParts(buf: seq<byte>, p: nat, a: Answer)
    requires WellFormedAnswer(a) && At(buf, p, AnswerBytes(a))
    ensures ScanName(buf, p) == Some((a.domainName, p + |a.domainName|))
    ensures RecordAfterName(buf, a.domainName, p + |a.domainName|)
            == Some((WithSwappedTtl(a), p + |AnswerBytes(a)|))
  {
    AnswerSplit(buf, p, a);
    PlainNameScan(buf, p, a.domainName);
    RecordRoundTrip(buf, p + |a.domainName|, a);
  }

  /** Reading a record is scanning its name, then reading the rest. */
  lemma {:induction false} AnswerAtParts(buf: seq<byte>, p: nat, name: seq<byte>, end: nat)
    requires ScanName(buf, p) == Some((name, end))
    ensures AnswerAt(buf, p) == RecordAfterName(buf, name, end)
  {
  }

  /** Name, fixed fields and data of a written record lie one after the
      other. */
  lemma {:induction false} AnswerSplit(buf: seq<byte>, p: nat, a: Answer)
    requires At(buf, p, AnswerBytes(a))
    ensures At(buf, p, a.domainName)
    ensures At(buf, p + |a.domainName|, FixedFields(a))
    ensures At(buf, p + |a.domainName| + 10, a.data)
  {
    AtConcat(buf, p, a.domainName + FixedFields(a), a.data);
    AtConcat(buf, p, a.domainName, FixedFields(a));
  }

  /** The fixed fields and data of a written record are read back, the TTL
      with its first two octets exchanged. */
  lemma {:induction false} RecordRoundTrip(buf: seq<byte>, end: nat, a: Answer)
    requires Be16(a.length[0], a.length[1]) == |a.data|
    requires At(buf, end, FixedFields(a)) && At(buf, end + 10, a.data)
    ensures RecordAfterName(buf, a.domainName, end) == Some((WithSwappedTtl(a), end + 10 + |a.data|))
  {
    FixedAnswerFields(buf, end, a);
    AtSlice(buf, end + 10, a.data);
  }

  /** The ten fixed octets of a written record, field by field, as the
      reader slices them. */
  lemma {:induction false} FixedAnswerFields(buf: seq<byte>, end: nat, a: Answer)
    requires At(buf, end, FixedFields(a))
    ensures buf[end..end + 2] == a.atype && buf[end + 2..end + 4] == a.aclass
    ensures buf[end + 4..end + 8] == SwapTtl(a.ttl) && buf[end + 8..end + 10] == a.length
    ensures buf[end + 8] == a.length[0] && buf[end + 9] == a.length[1]
  {
    var f := FixedFields(a);
    assert buf[end] == f[0] && buf[end + 1] == f[1] && buf[end + 2] == f[2] && buf[end + 3] == f[3];
    assert buf[end + 4] == f[4] && buf[end + 5] == f[5] && buf[end + 6] == f[6] && buf[end + 7] == f[7];
    assert buf[end + 8] == f[8] && buf[end + 9] == f[9];
    AtSlice(buf, end, a.atype);
    AtSlice(buf, end + 2, a.aclass);
    AtSlice(buf, end + 4, SwapTtl(a.ttl));
    AtSlice(buf, end + 8, a.length);
  }

  // Round trips of whole sections

  /** Each question of `qs` has a plain name and is written in turn from
      `p` on. */
  predicate QuestionsWritten(buf: seq<byte>, p: nat, qs: seq<Question>)
    decreases |qs|
  {
    qs == [] ||
    (&& PlainName(qs[0].domainName) && At(buf, p, QuestionBytes(qs[0]))
     && QuestionsWritten(buf, p + |QuestionBytes(qs[0])|, qs[1..]))
  }

  /** A question section of plain names written at `p` holds its questions
      one after the other. */
  lemma {:induction false} QuestionSectionWritten(buf: seq<byte>, p: nat, qs: seq<Question>)
    requires forall i | 0 <= i < |qs| :: PlainName(qs[i].domainName)
    requires At(buf, p, QuestionSectionBytes(qs))
    ensures QuestionsWritten(buf, p, qs)
    decreases |qs|
  {
    if qs != [] {
      AtConcat(buf, p, QuestionBytes(qs[0]), QuestionSectionBytes(qs[1..]));
      QuestionSectionWritten(buf, p + |QuestionBytes(qs[0])|, qs[1..]);
    }
  }

  /** Questions written one after the other are read back unchanged, and
      reading ends exactly where the last one ends. */
  lemma {:induction false} QuestionsReadBack(buf: seq<byte>, p: nat, qs: seq<Question>)
    requires QuestionsWritten(buf, p, qs)
    ensures QuestionsAt(buf, p, |qs|) == Some((qs, p + |QuestionSectionBytes(qs)|))
    decreases |qs|
  {
    if qs != [] {
      var next := p + |QuestionBytes(qs[0])|;
      assert p + |QuestionSectionBytes(qs)| == next + |QuestionSectionBytes(qs[1..])|;
      QuestionsReadBack(buf, next, qs[1..]);
      FirstThenRestQuestions(buf, p, qs, next + |QuestionSectionBytes(qs[1..])|);
    }
  }

  /** A question written at `p`, then the rest read back from where it
      ends, is the whole section read back. */
  lemma {:induction false} FirstThenRestQuestions(buf: seq<byte>, p: nat, qs: seq<Question>, end: nat)
    requires qs != [] && PlainName(qs[0].domainName) && At(buf, p, QuestionBytes(qs[0]))
    requires QuestionsAt(buf, p + |QuestionBytes(qs[0])|, |qs| - 1) == Some((qs[1..], end))
    ensures QuestionsAt(buf, p, |qs|) == Some((qs, end))
  {
    QuestionRoundTrip(buf, p, qs[0]);
    QuestionsAtCons(buf, p, |qs|, qs[0], p + |QuestionBytes(qs[0])|, qs[1..], end);
    assert [qs[0]] + qs[1..] == qs;
  }

  /** Reading `n > 0` questions is reading one, then `n - 1` more from
      where it ends. */
  lemma {:induction false} QuestionsAtCons(buf: seq<byte>, p: nat, n: nat, q: Question, next: nat,
                                           rest: seq<Question>, end: nat)
    requires n > 0 && QuestionAt(buf, p) == Some((q, next))
    requires QuestionsAt(buf, next, n - 1) == Some((rest, end))
    ensures QuestionsAt(buf, p, n) == Some(([q] + rest, end))
  {
  }

  /** A question section of plain names written at `p` is read back
      unchanged, and reading ends exactly where the section ends. */
  lemma {:induction false} QuestionsRoundTrip(buf: seq<byte>, p: nat, qs: seq<Question>)
    requires forall i | 0 <= i < |qs| :: PlainName(qs[i].domainName)
    requires At(buf, p, QuestionSectionBytes(qs))
    ensures QuestionsAt(buf, p, |qs|) == Some((qs, p + |QuestionSectionBytes(qs)|))
  {
    QuestionSectionWritten(buf, p, qs);
    QuestionsReadBack(buf, p, qs);
  }

  /** Each record of `answers` is well formed and written in turn from `p`
      on. */
  predicate AnswersWritten(buf: seq<byte>, p: nat, answers: seq<Answer>)
    decreases |answers|
  {
    answers == [] ||
    (&& WellFormedAnswer(answers[0]) && At(buf, p, AnswerBytes(answers[0]))
     && AnswersWritten(buf, p + |AnswerBytes(answers[0])|, answers[1..]))
  }

  /** An answer section of well-formed records written at `p` holds its
      records one after the other. */
  lemma {:induction false} AnswerSectionWritten(buf: seq<byte>, p: nat, answers: seq<Answer>)
    requires forall i | 0 <= i < |answers| :: WellFormedAnswer(answers[i])
    requires At(buf, p, AnswerSectionBytes(answers))
    ensures AnswersWritten(buf, p, answers)
    decreases |answers|
  {
    if answers != [] {
      AtConcat(buf, p, AnswerBytes(answers[0]), AnswerSectionBytes(answers[1..]));
      AnswerSectionWritten(buf, p + |AnswerBytes(answers[0])|, answers[1..]);
    }
  }

  /** Records written one after the other are read back with each TTL's
      first two octets exchanged, and reading ends exactly where the last
      one ends. */
  lemma {:induction false} AnswersReadBack(buf: seq<byte>, p: nat, answers: seq<Answer>)
    requires AnswersWritten(buf, p, answers)
    ensures AnswersAt(buf, p, |answers|) == Some((SwappedTtls(answers), p + |AnswerSectionBytes(answers)|))
    decreases |answers|
  {
    if answers != [] {
      var next := p + |AnswerBytes(answers[0])|;
      assert p + |AnswerSectionBytes(answers)| == next + |AnswerSectionBytes(answers[1..])|;
      AnswersReadBack(buf, next, answers[1..]);
      FirstThenRestReadBack(buf, p, answers, next + |AnswerSectionBytes(answers[1..])|);
    }
  }

  /** A record written at `p`, then the rest read back from where it ends,
      is the whole section read back. */
  lemma {:induction false} FirstThenRestReadBack(buf: seq<byte>, p: nat, answers: seq<Answer>, end: nat)
    requires answers != [] && WellFormedAnswer(answers[0]) && At(buf, p, AnswerBytes(answers[0]))
    requires AnswersAt(buf, p + |AnswerBytes(answers[0])|, |answers| - 1) == Some((SwappedTtls(answers[1..]), end))
    ensures AnswersAt(buf, p, |answers|) == Some((SwappedTtls(answers), end))
  {
    AnswerRoundTrip(buf, p, answers[0]);
    AnswersReadStep(buf, p, answers, p + |AnswerBytes(answers[0])|, end);
  }

  /** The first record read back, then the rest as they are read back from
      where it ends, is the whole section read back. */
  lemma {:induction false} AnswersReadStep(buf: seq<byte>, p: nat, answers: seq<Answer>, next: nat, end: nat)
    requires answers != []
    requires AnswerAt(buf, p) == Some((WithSwappedTtl(answers[0]), next))
    requires AnswersAt(buf, next, |answers| - 1) == Some((SwappedTtls(answers[1..]), end))
    ensures AnswersAt(buf, p, |answers|) == Some((SwappedTtls(answers), end))
  {
    AnswersAtCons(buf, p, |answers|, WithSwappedTtl(answers[0]), next, SwappedTtls(answers[1..]), end);
  }

  /** Reading `n > 0` records is reading one, then `n - 1` more from where
      it ends. */
  lemma {:induction false} AnswersAtCons(buf: seq<byte>, p: nat, n: nat, a: Answer, next: nat, rest: seq<Answer>, end: nat)
    requires n > 0 && AnswerAt(buf, p) == Some((a, next))
    requires AnswersAt(buf, next, n - 1) == Some((rest, end))
    ensures AnswersAt(buf, p, n) == Some(([a] + rest, end))
  {
  }

  /** An answer section of well-formed records written at `p` is read back
      with each TTL's first two octets exchanged, and reading ends exactly
      where the section ends. */
  lemma {:induction false} AnswersRoundTrip(buf: seq<byte>, p: nat, answers: seq<Answer>)
    requires forall i | 0 <= i < |answers| :: WellFormedAnswer(answers[i])
    requires At(buf, p, AnswerSectionBytes(answers))
    ensures AnswersAt(buf, p, |answers|) == Some((SwappedTtls(answers), p + |AnswerSectionBytes(answers)|))
  {
    AnswerSectionWritten(buf, p, answers);
    AnswersReadBack(buf, p, answers);
  }

  /** A buffer holding, after its header, as many questions and records as
      the header counts parses to them. */
  lemma {:induction false} ParsePacketOfSections(buf: seq<byte>, header: seq<byte>, n: nat, m: nat,
                                                 qs: seq<Question>, afterQuestions: nat,
                                                 answers: seq<Answer>, end: nat)
    requires |buf| >= HEADER_BYTE_SIZE && buf[..HEADER_BYTE_SIZE] == header
    requires QdCount(buf) == n && AnCount(buf) == m
    requires QuestionsAt(buf, HEADER_BYTE_SIZE, n) == Some((qs, afterQuestions))
    requires AnswersAt(buf, afterQuestions, m) == Some((answers, end))
    ensures ParsePacket(buf) == Some((Message(header, qs, answers), end))
  {
  }

  /** A successful read of `n > 0` questions read one question, then
      `n - 1` more from where it ended. */
  lemma {:induction false} QuestionsAtFirst(buf: seq<byte>, p: nat, n: nat)
    requires n > 0 && QuestionsAt(buf, p, n).Some?
    ensures QuestionAt(buf, p).Some?
    ensures var next := QuestionAt(buf, p).value.1;
            && QuestionsAt(buf, next, n - 1).Some?
            && QuestionsAt(buf, p, n).value
               == ([QuestionAt(buf, p).value.0] + QuestionsAt(buf, next, n - 1).value.0,
                   QuestionsAt(buf, next, n - 1).value.1)
  {
  }

  /** A successful read of `n > 0` records read one record, then `n - 1`
      more from where it ended. */
  lemma {:induction false} AnswersAtFirst(buf: seq<byte>, p: nat, n: nat)
    requires n > 0 && AnswersAt(buf, p, n).Some?
    ensures AnswerAt(buf, p).Some?
    ensures var next := AnswerAt(buf, p).value.1;
            && AnswersAt(buf, next, n - 1).Some?
            && AnswersAt(buf, p, n).value
               == ([AnswerAt(buf, p).value.0] + AnswersAt(buf, next, n - 1).value.0,
                   AnswersAt(buf, next, n - 1).value.1)
  {
  }

  /** Progress through `copy_question_section` started at `start` for `n`
      questions: the questions read so far, then the `k` still to be read
      from the cursor `p`, are the section. */
  predicate QuestionsReadSoFar(buf: seq<byte>, start: nat, n: nat, p: nat, k: nat, read: seq<Question>)
  {
    && QuestionsAt(buf, p, k).Some?
    && QuestionsAt(buf, start, n) == Some((read + QuestionsAt(buf, p, k).value.0, QuestionsAt(buf, p, k).value.1))
  }

  /** Reading one more question keeps the progress. */
  lemma {:induction false} QuestionsAdvance(buf: seq<byte>, start: nat, n: nat, p: nat, k: nat, read: seq<Question>)
    requires k > 0 && QuestionsReadSoFar(buf, start, n, p, k, read)
    ensures QuestionAt(buf, p).Some?
    ensures var (q, next) := QuestionAt(buf, p).value;
            QuestionsReadSoFar(buf, start, n, next, k - 1, read + [q])
  {
    QuestionsAtFirst(buf, p, k);
    var (q, next) := QuestionAt(buf, p).value;
    var rest := QuestionsAt(buf, next, k - 1).value.0;
    assert read + ([q] + rest) == (read + [q]) + rest;
  }

  /** Progress through `copy_answer_section` started at `start` for `n`
      records: the records read so far, then the `k` still to be read from
      the cursor `p`, are the section. */
  predicate AnswersReadSoFar(buf: seq<byte>, start: nat, n: nat, p: nat, k: nat, read: seq<Answer>)
  {
    && AnswersAt(buf, p, k).Some?
    && AnswersAt(buf, start, n) == Some((read + AnswersAt(buf, p, k).value.0, AnswersAt(buf, p, k).value.1))
  }

  /** Reading one more record keeps the progress. */
  lemma {:induction false} AnswersAdvance(buf: seq<byte>, start: nat, n: nat, p: nat, k: nat, read: seq<Answer>)
    requires k > 0 && AnswersReadSoFar(buf, start, n, p, k, read)
    ensures AnswerAt(buf, p).Some?
    ensures var (a, next) := AnswerAt(buf, p).value;
            AnswersReadSoFar(buf, start, n, next, k - 1, read + [a])
  {
    AnswersAtFirst(buf, p, k);
    var (a, next) := AnswerAt(buf, p).value;
    var rest := AnswersAt(buf, next, k - 1).value.0;
    assert read + ([a] + rest) == (read + [a]) + rest;
  }

  /** A record read at `p` is its name, then the ten fixed octets sliced
      into type, class, TTL and length, then as many data octets as the
      length octets say. */
  lemma {:induction false} AnswerAtFields(buf: seq<byte>, p: nat)
    requires AnswerAt(buf, p).Some?
    ensures ScanName(buf, p).Some?
    ensures var (name, end) := ScanName(buf, p).value;
            var (a, next) := AnswerAt(buf, p).value;
            && end + 10 <= |buf| && next == end + 10 + Be16(buf[end + 8], buf[end + 9]) <= |buf|
            && a == Answer(name, buf[end..end + 2], buf[end + 2..end + 4], buf[end + 4..end + 8],
                           buf[end + 8..end + 10], buf[end + 10..next])
  {
  }

  /** A message whose counts match its sections, whose names are plain and
      whose length fields match the data survives serialisation and
      parsing, whatever follows it in the buffer; only each TTL comes back
      with its first two octets exchanged. */
  lemma {:induction false} PacketRoundTrip(header: seq<byte>, qs: seq<Question>, answers: seq<Answer>, trailing: seq<byte>)
    requires |header| == HEADER_BYTE_SIZE
    requires QdCount(header) == |qs| && AnCount(header) == |answers|
    requires forall i | 0 <= i < |qs| :: PlainName(qs[i].domainName)
    requires forall i | 0 <= i < |answers| :: WellFormedAnswer(answers[i])
    ensures var bytes := PacketBytes(header, qs, answers);
            ParsePacket(bytes + trailing) == Some((Message(header, qs, SwappedTtls(answers)), |bytes|))
  {
    PacketLayout(header, qs, answers, trailing);
    SectionsParse(PacketBytes(header, qs, answers) + trailing, header, qs, answers,
                  |PacketBytes(header, qs, answers)|);
  }

  /** A buffer holding a header whose counts match the sections that
      follow it parses to that header and those sections. */
  lemma {:induction false} SectionsParse(buf: seq<byte>, header: seq<byte>, qs: seq<Question>,
                                         answers: seq<Answer>, end: nat)
    requires |header| == HEADER_BYTE_SIZE
    requires QdCount(header) == |qs| && AnCount(header) == |answers|
    requires forall i | 0 <= i < |qs| :: PlainName(qs[i].domainName)
    requires forall i | 0 <= i < |answers| :: WellFormedAnswer(answers[i])
    requires At(buf, 0, header) && At(buf, HEADER_BYTE_SIZE, QuestionSectionBytes(qs))
    requires At(buf, HEADER_BYTE_SIZE + |QuestionSectionBytes(qs)|, AnswerSectionBytes(answers))
    requires end == HEADER_BYTE_SIZE + |QuestionSectionBytes(qs)| + |AnswerSectionBytes(answers)|
    ensures ParsePacket(buf) == Some((Message(header, qs, SwappedTtls(answers)), end))
  {
    var afterQuestions := HEADER_BYTE_SIZE + |QuestionSectionBytes(qs)|;
    HeaderCounts(buf, header);
    QuestionsRoundTrip(buf, HEADER_BYTE_SIZE, qs);
    AnswersRoundTrip(buf, afterQuestions, answers);
    ParsePacketOfSections(buf, header, |qs|, |answers|, qs, afterQuestions, SwappedTtls(answers), end);
  }

  /** Header, question section and answer section of a serialised message
      lie one after the other. */
  lemma {:induction false} PacketLayout(header: seq<byte>, qs: seq<Question>, answers: seq<Answer>,
                                        trailing: seq<byte>)
    requires |header| == HEADER_BYTE_SIZE
    ensures var buf := PacketBytes(header, qs, answers) + trailing;
            var afterQuestions := HEADER_BYTE_SIZE + |QuestionSectionBytes(qs)|;
            && At(buf, 0, header) && At(buf, HEADER_BYTE_SIZE, QuestionSectionBytes(qs))
            && At(buf, afterQuestions, AnswerSectionBytes(answers))
            && |PacketBytes(header, qs, answers)| == afterQuestions + |AnswerSectionBytes(answers)|
  {
    var questions, records := QuestionSectionBytes(qs), AnswerSectionBytes(answers);
    var buf := PacketBytes(header, qs, answers) + trailing;
    assert buf == header + questions + records + trailing;
    AtConcat(buf, 0, header + questions + records, trailing);
    AtConcat(buf, 0, header + questions, records);
    AtConcat(buf, 0, header, questions);
  }

  /** A buffer that starts with a header has that header's counts. */
  lemma {:induction false} HeaderCounts(buf: seq<byte>, header: seq<byte>)
    requires |header| == HEADER_BYTE_SIZE && At(buf, 0, header)
    ensures buf[..HEADER_BYTE_SIZE] == header
    ensures QdCount(buf) == QdCount(header) && AnCount(buf) == AnCount(header)
  {
    assert buf[..HEADER_BYTE_SIZE] == buf[0..0 + |header|];
    assert buf[4] == header[4] && buf[5] == header[5] && buf[6] == header[6] && buf[7] == header[7];
  }

  // Synthesised answers

  /** The answer `create_answer_section` makes for a question: its name,
      type A (1), class IN (1), TTL 60, length 4 and data 8.8.8.8. */
  function SynthesizedAnswer(q: Question): Answer
  {
    Answer(q.domainName, [0x00, 0x01], [0x00, 0x01], [0x00, 0x00, 0x00, 0x3C], [0x00, 0x04],
           [0x08, 0x08, 0x08, 0x08])
  }

  /** One synthesised answer per question, in question order. */
  function SynthesizedAnswers(qs: seq<Question>): (r: seq<Answer>)
    ensures |r| == |qs|
  {
    if qs == [] then [] else [SynthesizedAnswer(qs[0])] + SynthesizedAnswers(qs[1..])
  }

  /** One more question gets one more synthesised answer, at the end. */
  lemma {:induction false} SynthesizedAnswersAppend(qs: seq<Question>, q: Question)
    ensures SynthesizedAnswers(qs + [q]) == SynthesizedAnswers(qs) + [SynthesizedAnswer(q)]
    decreases |qs|
  {
    if qs == [] {
      assert [] + [q] == [q] && [q][1..] == [];
    } else {
      assert (qs + [q])[0] == qs[0] && (qs + [q])[1..] == qs[1..] + [q];
      SynthesizedAnswersAppend(qs[1..], q);
    }
  }

  /** Every synthesised record carries its question's name, an A record for
      8.8.8.8 with a TTL of 60 seconds, and a length field that matches
      its data; its TTL octets are unchanged by the serialiser's swap. */
  lemma {:induction false} SynthesizedAnswerFacts(q: Question)
    ensures var a := SynthesizedAnswer(q);
            && a.domainName == q.domainName
            && Be16(a.atype[0], a.atype[1]) == 1 && Be16(a.aclass[0], a.aclass[1]) == 1
            && Be16(a.ttl[0], a.ttl[1]) * 0x1_0000 + Be16(a.ttl[2], a.ttl[3]) == 60
            && Be16(a.length[0], a.length[1]) == |a.data| == 4
            && a.data == [0x08, 0x08, 0x08, 0x08]
            && WithSwappedTtl(a) == a
  {
    var a := SynthesizedAnswer(q);
    assert SwapTtl(a.ttl) == a.ttl;
  }

  /** Synthesised answers for plain names are well formed, and the TTL swap
      leaves the whole section unchanged. */
  lemma {:induction false} SynthesizedAnswersFacts(qs: seq<Question>)
    requires forall i | 0 <= i < |qs| :: PlainName(qs[i].domainName)
    ensures forall i | 0 <= i < |qs| :: WellFormedAnswer(SynthesizedAnswers(qs)[i])
    ensures SwappedTtls(SynthesizedAnswers(qs)) == SynthesizedAnswers(qs)
    decreases |qs|
  {
    if qs != [] {
      SynthesizedAnswerFacts(qs[0]);
      SynthesizedAnswersFacts(qs[1..]);
      var answers := SynthesizedAnswers(qs);
      assert answers[1..] == SynthesizedAnswers(qs[1..]);
    }
  }

  /** Synthesised answers for plain names survive serialisation and
      parsing unchanged, TTL included. */
  lemma {:induction false} SynthesizedAnswersRoundTrip(buf: seq<byte>, p: nat, qs: seq<Question>)
    requires forall i | 0 <= i < |qs| :: PlainName(qs[i].domainName)
    requires At(buf, p, AnswerSectionBytes(SynthesizedAnswers(qs)))
    ensures var answers := SynthesizedAnswers(qs);
            AnswersAt(buf, p, |qs|) == Some((answers, p + |AnswerSectionBytes(answers)|))
  {
    SynthesizedAnswersFacts(qs);
    AnswersRoundTrip(buf, p, SynthesizedAnswers(qs));
  }

  // The standalone response

  /** The 512 octets `mutate_for_response` copies out of the serialised
      query. The source copies them whether or not the vector is that long;
      `stale` stands for whatever memory follows the vector's end. */
  function ResponseBuffer(queryBytes: seq<byte>, stale: seq<byte>): (r: seq<byte>)
    requires |queryBytes| + |stale| >= BUFFER_SIZE
    ensures |r| == BUFFER_SIZE
  {
    (queryBytes + stale)[..BUFFER_SIZE]
  }

  /** A query the standalone builder re-reads faithfully: its QDCOUNT is
      its number of questions, every name is plain, and the header and
      question section fit in the 512-octet buffer. */
  predicate ReparsableQuery(header: seq<byte>, qs: seq<Question>)
  {
    && |header| == HEADER_BYTE_SIZE && QdCount(header) == |qs|
    && (forall i | 0 <= i < |qs| :: PlainName(qs[i].domainName))
    && HEADER_BYTE_SIZE + |QuestionSectionBytes(qs)| <= BUFFER_SIZE
  }

  /** Re-reading the serialised query in `mutate_for_response` recovers its
      header octets and exactly its questions, whatever its answer section
      holds and whatever memory follows it. */
  lemma {:induction false} ReparseRecoversQuestions(header: seq<byte>, qs: seq<Question>, answers: seq<Answer>, stale: seq<byte>)
    requires ReparsableQuery(header, qs)
    requires |PacketBytes(header, qs, answers)| + |stale| >= BUFFER_SIZE
    ensures var buf := ResponseBuffer(PacketBytes(header, qs, answers), stale);
            && buf[..HEADER_BYTE_SIZE] == header
            && QuestionsAt(buf, HEADER_BYTE_SIZE, QdCount(buf))
               == Some((qs, HEADER_BYTE_SIZE + |QuestionSectionBytes(qs)|))
  {
    var questions := QuestionSectionBytes(qs);
    var buf := ResponseBuffer(PacketBytes(header, qs, answers), stale);
    assert At(buf, 0, header) && At(buf, HEADER_BYTE_SIZE, questions) by {
      var whole := PacketBytes(header, qs, answers) + stale;
      assert whole == header + questions + (AnswerSectionBytes(answers) + stale);
      assert buf == whole[..BUFFER_SIZE];
      assert buf[..HEADER_BYTE_SIZE + |questions|] == header + questions;
      AtConcat(buf, 0, header, questions);
    }
    HeaderCounts(buf, header);
    QuestionsRoundTrip(buf, HEADER_BYTE_SIZE, qs);
  }

  /** The standalone response to such a query is itself a message: it
      parses back to the response header, the query's questions and one
      synthesised record per question, whatever follows it. */
  lemma {:induction false} ResponseRoundTrip(header: seq<byte>, qs: seq<Question>, trailing: seq<byte>)
    requires ReparsableQuery(header, qs)
    ensures var h := ResponseHeader(header);
            var bytes := PacketBytes(h, qs, SynthesizedAnswers(qs));
            ParsePacket(bytes + trailing) == Some((Message(h, qs, SynthesizedAnswers(qs)), |bytes|))
  {
    SynthesizedAnswersFacts(qs);
    PacketRoundTrip(ResponseHeader(header), qs, SynthesizedAnswers(qs), trailing);
  }
}
