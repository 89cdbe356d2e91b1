/** The `DNSPacket` class of dns_packet.cpp: a 512-octet receive buffer
    read through a cursor, the 12-octet header, and the question and answer
    vectors. Every method is proved against the functions of `Wire`,
    `Header`, `Names` and `Forwarding`: the parser methods against the
    readers, the builders against the header and answer constructions, and
    `GetPacketVector` against the serialiser.

    The source checks no read against the end of the buffer. A method that
    reads is given the precondition that its reader function succeeds,
    which is exactly the statement that every read stays inside the 512
    octets. */
module Packet {
  import opened Bytes
  import opened Names
  import opened Header
  import opened Questions
  import opened Answers
  import opened Wire
  import opened Forwarding

  class DNSPacket {
    const buffer: array<byte>
    var bufferPointer: nat
    const header: array<byte>
    var questionCount: nat
    var questionVector: seq<Question>
    var answerCount: nat
    var answerVector: seq<Answer>

    /** The two arrays have the sizes the declarations give them. */
    predicate Valid()
    {
      buffer.Length == BUFFER_SIZE && header.Length == HEADER_BYTE_SIZE
    }

    /** `DNSPacket()`: an empty packet with the cursor at 0. The source
        leaves the arrays and the counts uninitialised; here they start at
        zero. */
    constructor Empty()
      ensures Valid() && fresh(buffer) && fresh(header)
      ensures bufferPointer == 0 && questionVector == [] && answerVector == []
    {
      buffer := new byte[BUFFER_SIZE];
      header := new byte[HEADER_BYTE_SIZE];
      bufferPointer := 0;
      questionCount := 0;
      questionVector := [];
      answerCount := 0;
      answerVector := [];
    }

    /** `DNSPacket(char buf[512])`: copies the buffer and parses it. */
    constructor (buf: ReceiveBuffer)
      requires ParsePacket(buf).Some?
      ensures Valid() && fresh(buffer) && fresh(header)
      ensures var (m, end) := ParsePacket(buf).value;
              && buffer[..] == buf && header[..] == m.header
              && questionCount == QdCount(buf) && questionVector == m.questions
              && answerCount == AnCount(buf) && answerVector == m.answers
              && bufferPointer == end
    {
      buffer := new byte[BUFFER_SIZE];
      header := new byte[HEADER_BYTE_SIZE];
      bufferPointer := 0;
      questionVector := [];
      answerVector := [];
      new;
      CopyDnsPacket(buf);
    }

    /** `copy_dns_packet`: the buffer, then the header, the question
        section and the answer section, read in that order. */
    method CopyDnsPacket(buf: ReceiveBuffer)
      requires Valid() && ParsePacket(buf).Some?
      modifies buffer, header, this`bufferPointer, this`questionCount, this`questionVector,
               this`answerCount, this`answerVector
      ensures var (m, end) := ParsePacket(buf).value;
              && buffer[..] == buf && header[..] == m.header
              && questionCount == QdCount(buf) && questionVector == old(questionVector) + m.questions
              && answerCount == AnCount(buf) && answerVector == old(answerVector) + m.answers
              && bufferPointer == end
    {
      CopyBuffer(buf);
      CopyHeader();
      assert QdCount(header[..]) == QdCount(buf) && AnCount(header[..]) == AnCount(buf);
      CopyQuestionSection();
      CopyAnswerSection();
    }

    /** `copy_buffer`: all 512 octets, one by one. */
    method CopyBuffer(buf: ReceiveBuffer)
      requires Valid()
      modifies buffer
      ensures buffer[..] == buf
    {
      for i := 0 to BUFFER_SIZE
        invariant buffer[..i] == buf[..i]
      {
        buffer[i] := buf[i];
      }
    }

    /** `copy_header`: octets 0 to 11 verbatim; the cursor moves to 12. */
    method CopyHeader()
      requires Valid()
      modifies header, this`bufferPointer
      ensures header[..] == buffer[..HEADER_BYTE_SIZE]
      ensures bufferPointer == HEADER_BYTE_SIZE
    {
      for i := 0 to HEADER_BYTE_SIZE
        invariant header[..i] == buffer[..i]
      {
        header[i] := buffer[i];
      }
      bufferPointer := HEADER_BYTE_SIZE;
    }

    /** `create_header`: the response header built from the query header at
        the front of the buffer; the cursor moves to 12. */
    method CreateHeader()
      requires Valid()
      modifies header, this`bufferPointer
      ensures header[..] == ResponseHeader(buffer[..])
      ensures QdCount(header[..]) == QdCount(buffer[..])
      ensures bufferPointer == HEADER_BYTE_SIZE
    {
      header[0] := buffer[0];
      header[1] := buffer[1];
      var qrIndicator: byte := 0x80;                 // 1 << 7
      var opcode := buffer[2] / 0x08 % 0x10 * 0x08;  // (0x0F << 3) & buffer[2]
      var authAnswer: byte := 0x00;
      var truncation: byte := 0x00;
      var recursionDesired := buffer[2] % 0x02;      // 0x01 & buffer[2]
      header[2] := qrIndicator + opcode + authAnswer + truncation + recursionDesired;
      var responseCode: byte := if opcode == 0x00 then 0x00 else 0x04;
      header[3] := responseCode;
      header[4] := buffer[4];
      header[5] := buffer[5];
      header[6] := buffer[4];
      header[7] := buffer[5];
      header[8] := 0x00;
      header[9] := 0x00;
      header[10] := 0x00;
      header[11] := 0x00;
      bufferPointer := 12;
    }

    /** `copy_question_section`: QDCOUNT from header octets 4 and 5, then
        that many questions read from the cursor and appended in order. */
    method CopyQuestionSection()
      requires Valid() && QuestionsAt(buffer[..], bufferPointer, QdCount(header[..])).Some?
      modifies this`bufferPointer, this`questionCount, this`questionVector
      ensures questionCount == QdCount(header[..])
      ensures var (qs, end) := QuestionsAt(buffer[..], old(bufferPointer), questionCount).value;
              questionVector == old(questionVector) + qs && bufferPointer == end
    {
      ghost var buf := buffer[..];
      ghost var start := bufferPointer;
      questionCount := Be16(header[4], header[5]);
      ghost var read: seq<Question> := [];
      assert QuestionsReadSoFar(buf, start, questionCount, start, questionCount, read) by {
        assert read + QuestionsAt(buf, start, questionCount).value.0 == QuestionsAt(buf, start, questionCount).value.0;
      }
      for i := 0 to questionCount
        invariant buffer[..] == buf
        invariant questionCount == QdCount(header[..])
        invariant questionVector == old(questionVector) + read
        invariant QuestionsReadSoFar(buf, start, questionCount, bufferPointer, questionCount - i, read)
      {
        QuestionsAdvance(buf, start, questionCount, bufferPointer, questionCount - i, read);
        ghost var q := QuestionAt(buf, bufferPointer).value.0;
        CopyQuestion();
        read := read + [q];
      }
      assert QuestionsAt(buf, bufferPointer, 0) == Some(([], bufferPointer));
      assert read + [] == read;
    }

    /** `copy_question`: a name, then two octets of type and two of class;
        the question is appended and the cursor left after it. */
    method CopyQuestion()
      requires Valid() && QuestionAt(buffer[..], bufferPointer).Some?
      modifies this`bufferPointer, this`questionVector
      ensures var (q, end) := QuestionAt(buffer[..], old(bufferPointer)).value;
              questionVector == old(questionVector) + [q] && bufferPointer == end
    {
      var domainVector := CopyDomainName();
      var qtype := CopyOctets(2);
      var qclass := CopyOctets(2);
      var question := Question(domainVector, qtype, qclass);
      questionVector := questionVector + [question];
    }

    /** The loops that read a fixed-size field (`type`, `ques_class`,
        `ans_class`, `ttl`, `length`) or the record data: `count` octets
        from the cursor, the cursor moving past each. */
    method CopyOctets(count: nat) returns (octets: seq<byte>)
      requires Valid() && bufferPointer + count <= BUFFER_SIZE
      modifies this`bufferPointer
      ensures octets == buffer[old(bufferPointer)..old(bufferPointer) + count]
      ensures bufferPointer == old(bufferPointer) + count
    {
      octets := [];
      for i := 0 to count
        invariant bufferPointer == old(bufferPointer) + i
        invariant octets == buffer[old(bufferPointer)..bufferPointer]
      {
        octets := octets + [buffer[bufferPointer]];
        bufferPointer := bufferPointer + 1;
      }
    }

    /** `copy_answer_section`: ANCOUNT from header octets 6 and 7, then that
        many records read from the cursor and appended in order. */
    method CopyAnswerSection()
      requires Valid() && AnswersAt(buffer[..], bufferPointer, AnCount(header[..])).Some?
      modifies this`bufferPointer, this`answerCount, this`answerVector
      ensures answerCount == AnCount(header[..])
      ensures var (answers, end) := AnswersAt(buffer[..], old(bufferPointer), answerCount).value;
              answerVector == old(answerVector) + answers && bufferPointer == end
    {
      ghost var buf := buffer[..];
      ghost var start := bufferPointer;
      answerCount := Be16(header[6], header[7]);
      ghost var read: seq<Answer> := [];
      assert AnswersReadSoFar(buf, start, answerCount, start, answerCount, read) by {
        assert read + AnswersAt(buf, start, answerCount).value.0 == AnswersAt(buf, start, answerCount).value.0;
      }
      for i := 0 to answerCount
        invariant buffer[..] == buf
        invariant answerCount == AnCount(header[..])
        invariant answerVector == old(answerVector) + read
        invariant AnswersReadSoFar(buf, start, answerCount, bufferPointer, answerCount - i, read)
      {
        AnswersAdvance(buf, start, answerCount, bufferPointer, answerCount - i, read);
        ghost var a := AnswerAt(buf, bufferPointer).value.0;
        CopyAnswer();
        read := read + [a];
      }
      assert AnswersAt(buf, bufferPointer, 0) == Some(([], bufferPointer));
      assert read + [] == read;
    }

    /** One pass of the `copy_answer_section` loop: a name, type, class,
        TTL and length, then as many data octets as the length octets say;
        the record is appended and the cursor left after it. */
    method CopyAnswer()
      requires Valid() && AnswerAt(buffer[..], bufferPointer).Some?
      modifies this`bufferPointer, this`answerVector
      ensures var (a, end) := AnswerAt(buffer[..], old(bufferPointer)).value;
              answerVector == old(answerVector) + [a] && bufferPointer == end
    {
      ghost var buf := buffer[..];
      AnswerAtFields(buf, bufferPointer);
      ghost var end := ScanName(buf, bufferPointer).value.1;
      var domainName := CopyDomainName();
      var atype := CopyOctets(2);
      var ansClass := CopyOctets(2);
      var ttl := CopyOctets(4);
      var length := CopyOctets(2);
      assert length == buf[end + 8..end + 10];
      var dataLength := Be16(length[0], length[1]);
      var data := CopyOctets(dataLength);
      var answer := Answer(domainName, atype, ansClass, ttl, length, data);
      answerVector := answerVector + [answer];
    }

    /** `copy_domain_name`: octets from the cursor up to a zero octet; a
        pointer octet and the octet after it are replaced by the bytes
        `copy_pointer` copies, and reading goes on after them. */
    method CopyDomainName() returns (domainVector: seq<byte>)
      requires Valid() && ScanName(buffer[..], bufferPointer).Some?
      modifies this`bufferPointer
      ensures ScanName(buffer[..], old(bufferPointer)) == Some((domainVector, bufferPointer))
    {
      ghost var buf := buffer[..];
      ghost var start := bufferPointer;
      domainVector := [];
      var bufferItem := buffer[bufferPointer];
      assert ScannedSoFar(buf, start, bufferPointer, domainVector) by {
        assert domainVector + ScanName(buf, start).value.0 == ScanName(buf, start).value.0;
      }
      while bufferItem != 0x00
        invariant buffer[..] == buf
        invariant ScannedSoFar(buf, start, bufferPointer, domainVector)
        invariant bufferPointer < |buf| && bufferItem == buf[bufferPointer]
        decreases |buf| - bufferPointer
      {
        if bufferItem >= 0xC0 {                      // (bufferItem & 0xC0) ^ 0xC0 == 0
          ScanAdvancePointer(buf, start, bufferPointer, domainVector);
          var pointerOffset := bufferItem % 0x40;    // bufferItem & 0x3F
          var nextOffset := buffer[bufferPointer + 1];
          var pointerLoc := Be16(pointerOffset, nextOffset);
          assert pointerLoc == PointerTarget(buf[bufferPointer], buf[bufferPointer + 1]);
          domainVector := CopyPointer(domainVector, pointerLoc);
          bufferPointer := bufferPointer + 2;
        } else {
          ScanAdvancePlain(buf, start, bufferPointer, domainVector);
          domainVector := domainVector + [bufferItem];
          bufferPointer := bufferPointer + 1;
        }
        bufferItem := buffer[bufferPointer];
      }
      ScanFinish(buf, start, bufferPointer, domainVector);
      domainVector := domainVector + [bufferItem];
      bufferPointer := bufferPointer + 1;
    }

    /** `copy_pointer`: appends the octets from `pointerLoc` through the
        next zero octet to the caller's name. */
    method CopyPointer(domainVector: seq<byte>, pointerLoc: nat) returns (extended: seq<byte>)
      requires Valid() && PointedBytes(buffer[..], pointerLoc).Some?
      ensures extended == domainVector + PointedBytes(buffer[..], pointerLoc).value
    {
      ghost var buf := buffer[..];
      extended := domainVector;
      var loc := pointerLoc;
      var bufferItem := buffer[loc];
      while bufferItem != 0x00
        invariant PointedBytes(buf, loc).Some?
        invariant loc < |buf| && bufferItem == buf[loc]
        invariant extended + PointedBytes(buf, loc).value == domainVector + PointedBytes(buf, pointerLoc).value
        decreases |buf| - loc
      {
        assert PointedBytes(buf, loc).value == [bufferItem] + PointedBytes(buf, loc + 1).value;
        assert (extended + [bufferItem]) + PointedBytes(buf, loc + 1).value
               == extended + ([bufferItem] + PointedBytes(buf, loc + 1).value);
        extended := extended + [bufferItem];
        loc := loc + 1;
        bufferItem := buffer[loc];
      }
      extended := extended + [bufferItem];
    }

    /** `get_packet_vector`: the header octets, every question and every
        record, serialised in that order. */
    method GetPacketVector() returns (returnPacket: seq<byte>)
      requires Valid()
      ensures returnPacket == PacketBytes(header[..], questionVector, answerVector)
    {
      returnPacket := [];
      for i := 0 to HEADER_BYTE_SIZE
        invariant returnPacket == header[..i]
      {
        returnPacket := returnPacket + [header[i]];
      }
      ghost var headerPart := returnPacket;
      assert questionVector[..0] == [] && headerPart + [] == headerPart;
      for i := 0 to |questionVector|
        invariant returnPacket == headerPart + QuestionSectionBytes(questionVector[..i])
      {
        var question := questionVector[i];
        QuestionSectionAppend(questionVector[..i], question);
        assert questionVector[..i + 1] == questionVector[..i] + [question];
        assert (headerPart + QuestionSectionBytes(questionVector[..i])) + QuestionBytes(question)
               == headerPart + (QuestionSectionBytes(questionVector[..i]) + QuestionBytes(question));
        returnPacket := AddQuestionIntoReturnPacket(question, returnPacket);
      }
      assert questionVector[..|questionVector|] == questionVector;
      ghost var questionPart := returnPacket;
      assert answerVector[..0] == [] && questionPart + [] == questionPart;
      for i := 0 to |answerVector|
        invariant returnPacket == questionPart + AnswerSectionBytes(answerVector[..i])
      {
        var answer := answerVector[i];
        AnswerSectionAppend(answerVector[..i], answer);
        assert answerVector[..i + 1] == answerVector[..i] + [answer];
        assert (questionPart + AnswerSectionBytes(answerVector[..i])) + AnswerBytes(answer)
               == questionPart + (AnswerSectionBytes(answerVector[..i]) + AnswerBytes(answer));
        returnPacket := AddAnswerIntoReturnPacket(answer, returnPacket);
      }
      assert answerVector[..|answerVector|] == answerVector;
    }

    /** `get_answer_section`: a copy of the answer vector. */
    method GetAnswerSection() returns (answers: seq<Answer>)
      ensures answers == answerVector
    {
      answers := answerVector;
    }

    /** `create_question_packet`: a query header built from the one at the
        front of the buffer, then the question. */
    method CreateQuestionPacket(question: Question) returns (returnPacket: seq<byte>)
      requires Valid()
      ensures returnPacket == QuestionPacket(buffer[..], question)
    {
      var opcode := buffer[2] / 0x08 % 0x10 * 0x08;  // (0x0F << 3) & buffer[2]
      var recursionDesired := buffer[2] % 0x02;      // 0x01 & buffer[2]
      returnPacket := [buffer[0], buffer[1]];
      returnPacket := returnPacket + [opcode + recursionDesired];
      returnPacket := returnPacket + [0x00];
      returnPacket := returnPacket + [0x00, 0x01];
      returnPacket := returnPacket + [0x00, 0x00];
      returnPacket := returnPacket + [0x00, 0x00];
      returnPacket := returnPacket + [0x00, 0x00];
      assert returnPacket == QueryHeader(buffer[..]);
      returnPacket := AddQuestionIntoReturnPacket(question, returnPacket);
    }

    /** `create_answer_section`: for each of the first QDCOUNT questions, an
        A record for its name with TTL 60 and data 8.8.8.8. */
    method CreateAnswerSection()
      requires questionCount <= |questionVector|
      modifies this`answerVector
      ensures answerVector == old(answerVector) + SynthesizedAnswers(questionVector[..questionCount])
    {
      assert questionVector[..0] == [];
      for i := 0 to questionCount
        invariant answerVector == old(answerVector) + SynthesizedAnswers(questionVector[..i])
      {
        var domainName := questionVector[i].domainName;
        var atype: Bytes2 := [0x00, 0x01];
        var ansClass: Bytes2 := [0x00, 0x01];
        var ttl: Bytes4 := [0x00, 0x00, 0x00, 0x3C];
        var length: Bytes2 := [0x00, 0x04];
        var data: seq<byte> := [];
        for j := 0 to 4
          invariant data == seq(j, _ => 0x08)
        {
          data := data + [0x08];
        }
        assert data == [0x08, 0x08, 0x08, 0x08];
        var answer := Answer(domainName, atype, ansClass, ttl, length, data);
        SynthesizedAnswersAppend(questionVector[..i], questionVector[i]);
        assert questionVector[..i + 1] == questionVector[..i] + [questionVector[i]];
        answerVector := answerVector + [answer];
      }
    }

    /** `create_answer_section_with_forwarding_address`: each of the first
        QDCOUNT questions is sent upstream in a query of its own, and every
        record of each reply is appended. A question whose socket cannot be
        created or whose query cannot be sent is skipped; the first receive
        failure ends the loop. The outcomes stand for the socket calls, one
        per question. */
    method CreateAnswerSectionWithForwardingAddress(outcomes: seq<UpstreamOutcome>)
      returns (queries: seq<seq<byte>>)
      requires Valid() && questionCount <= |questionVector| && |outcomes| == questionCount
      requires ForwardedAnswers(outcomes).Some?
      modifies this`answerVector
      ensures answerVector == old(answerVector) + ForwardedAnswers(outcomes).value
      ensures queries == ForwardedQueries(buffer[..], questionVector[..questionCount], outcomes)
    {
      ghost var query := buffer[..];
      ghost var qs := questionVector[..questionCount];
      ghost var collected: seq<Answer> := [];
      queries := [];
      ForwardStart(query, qs, outcomes);
      for i := 0 to questionCount
        invariant buffer[..] == query
        invariant ForwardedSoFar(query, qs, outcomes, i, collected, queries)
        invariant answerVector == old(answerVector) + collected
      {
        var outcome := outcomes[i];
        assert qs[i] == questionVector[i];
        if outcome.SocketFailed? {
          ForwardSocketFailed(query, qs, outcomes, i, collected, queries);
          continue;
        }
        var question := questionVector[i];
        var packet := CreateQuestionPacket(question);
        if outcome.SendFailed? {
          ForwardSendFailed(query, qs, outcomes, i, collected, queries);
          queries := queries + [packet];
          continue;
        }
        if outcome.ReceiveFailed? {
          ForwardReceiveFailed(query, qs, outcomes, i, collected, queries);
          queries := queries + [packet];
          return;
        }
        ForwardReceived(query, qs, outcomes, i, collected, queries);
        queries := queries + [packet];
        AppendReplyAnswers(outcome.reply);
        collected := collected + ParsePacket(outcome.reply).value.0.answers;
      }
      ForwardFinish(query, qs, outcomes, collected, queries);
    }

    /** The part of the `create_answer_section_with_forwarding_address` loop
        that handles a received reply: the reply is parsed as a packet of
        its own and each of its records is appended. */
    method AppendReplyAnswers(reply: ReceiveBuffer)
      requires ParsePacket(reply).Some?
      modifies this`answerVector
      ensures answerVector == old(answerVector) + ParsePacket(reply).value.0.answers
    {
      var serverResponsePacket := new DNSPacket(reply);
      var serverResponseAnswerSection := serverResponsePacket.GetAnswerSection();
      if |serverResponseAnswerSection| >= 1 {
        for j := 0 to |serverResponseAnswerSection|
          invariant answerVector == old(answerVector) + serverResponseAnswerSection[..j]
        {
          assert serverResponseAnswerSection[..j + 1]
                 == serverResponseAnswerSection[..j] + [serverResponseAnswerSection[j]];
          answerVector := answerVector + [serverResponseAnswerSection[j]];
        }
        assert serverResponseAnswerSection[..|serverResponseAnswerSection|] == serverResponseAnswerSection;
      } else {
        assert serverResponseAnswerSection == [];
        assert answerVector + [] == answerVector;
      }
    }

    /** The 512-octet copy `mutate_for_response` makes of the serialised
        query: octet `i` of the vector while there is one, and past the
        vector's end whatever memory follows it, here `stale`. */
    static method ReadIntoBuffer(bufferVector: seq<byte>, stale: seq<byte>) returns (localBuffer: array<byte>)
      requires |bufferVector| + |stale| >= BUFFER_SIZE
      ensures fresh(localBuffer) && localBuffer[..] == ResponseBuffer(bufferVector, stale)
    {
      localBuffer := new byte[BUFFER_SIZE];
      for i := 0 to BUFFER_SIZE
        invariant localBuffer[..i] == (bufferVector + stale)[..i]
      {
        localBuffer[i] := if i < |bufferVector| then bufferVector[i] else stale[i - |bufferVector|];
      }
    }

    /** The steps `mutate_for_response` and `mutate_for_forward_response`
        share once the query is in a 512-octet buffer: the cursor is reset,
        the buffer copied, the response header built from the query header
        and the questions read. */
    method ReadQuery(buf: ReceiveBuffer)
      requires Valid() && QuestionsAt(buf, HEADER_BYTE_SIZE, QdCount(buf)).Some?
      modifies buffer, header, this`bufferPointer, this`questionCount, this`questionVector
      ensures var (qs, end) := QuestionsAt(buf, HEADER_BYTE_SIZE, QdCount(buf)).value;
              && buffer[..] == buf && header[..] == ResponseHeader(buf)
              && questionCount == QdCount(buf) && questionVector == old(questionVector) + qs
              && bufferPointer == end
    {
      bufferPointer := 0;
      CopyBuffer(buf);
      CreateHeader();
      CopyQuestionSection();
    }

    /** `mutate_for_response`: the query packet is serialised and copied
        into this packet's buffer, which is then read as a query: the
        response header is built from it, its questions are read, and one
        synthesised record is made per question. `packet` is read before
        anything is written. */
    method MutateForResponse(packet: DNSPacket, stale: seq<byte>)
      requires Valid() && packet.Valid()
      requires |PacketBytes(packet.header[..], packet.questionVector, packet.answerVector)| + |stale| >= BUFFER_SIZE
      requires var buf := ResponseBuffer(PacketBytes(packet.header[..], packet.questionVector, packet.answerVector), stale);
               QuestionsAt(buf, HEADER_BYTE_SIZE, QdCount(buf)).Some?
      modifies buffer, header, this`bufferPointer, this`questionCount, this`questionVector, this`answerVector
      ensures var buf := ResponseBuffer(old(PacketBytes(packet.header[..], packet.questionVector, packet.answerVector)), stale);
              var (qs, end) := QuestionsAt(buf, HEADER_BYTE_SIZE, QdCount(buf)).value;
              && buffer[..] == buf && header[..] == ResponseHeader(buf)
              && questionCount == QdCount(buf) && questionVector == old(questionVector) + qs
              && answerVector == old(answerVector) + SynthesizedAnswers(questionVector[..questionCount])
              && bufferPointer == end
    {
      var bufferVector := packet.GetPacketVector();
      var localBuffer := ReadIntoBuffer(bufferVector, stale);
      ReadQuery(localBuffer[..]);
      CreateAnswerSection();
    }

    /** `mutate_for_forward_response`: as `mutate_for_response`, except
        that the answers come from the upstream server, one outcome per
        question. Also gives the queries sent upstream. */
    method MutateForForwardResponse(packet: DNSPacket, stale: seq<byte>, outcomes: seq<UpstreamOutcome>)
      returns (queries: seq<seq<byte>>)
      requires Valid() && packet.Valid()
      requires |PacketBytes(packet.header[..], packet.questionVector, packet.answerVector)| + |stale| >= BUFFER_SIZE
      requires var buf := ResponseBuffer(PacketBytes(packet.header[..], packet.questionVector, packet.answerVector), stale);
               && QuestionsAt(buf, HEADER_BYTE_SIZE, QdCount(buf)).Some?
               && |outcomes| == QdCount(buf)
      requires ForwardedAnswers(outcomes).Some?
      modifies buffer, header, this`bufferPointer, this`questionCount, this`questionVector, this`answerVector
      ensures var buf := ResponseBuffer(old(PacketBytes(packet.header[..], packet.questionVector, packet.answerVector)), stale);
              var (qs, end) := QuestionsAt(buf, HEADER_BYTE_SIZE, QdCount(buf)).value;
              && buffer[..] == buf && header[..] == ResponseHeader(buf)
              && questionCount == QdCount(buf) && questionVector == old(questionVector) + qs
              && answerVector == old(answerVector) + ForwardedAnswers(outcomes).value
              && queries == ForwardedQueries(buf, questionVector[..questionCount], outcomes)
              && bufferPointer == end
    {
      var bufferVector := packet.GetPacketVector();
      var localBuffer := ReadIntoBuffer(bufferVector, stale);
      ReadQuery(localBuffer[..]);
      queries := CreateAnswerSectionWithForwardingAddress(outcomes);
    }

    /** `respond_to_packet`: a fresh packet mutated into the response to
        `packet`. For a query the builder re-reads faithfully, the response
        carries the response header for the query's header, exactly the
        query's questions and one synthesised record per question. */
    static method RespondToPacket(packet: DNSPacket, stale: seq<byte>) returns (responsePacket: DNSPacket)
      requires packet.Valid()
      requires |PacketBytes(packet.header[..], packet.questionVector, packet.answerVector)| + |stale| >= BUFFER_SIZE
      requires var buf := ResponseBuffer(PacketBytes(packet.header[..], packet.questionVector, packet.answerVector), stale);
               QuestionsAt(buf, HEADER_BYTE_SIZE, QdCount(buf)).Some?
      ensures fresh(responsePacket) && responsePacket.Valid()
      ensures var buf := ResponseBuffer(PacketBytes(packet.header[..], packet.questionVector, packet.answerVector), stale);
              var qs := QuestionsAt(buf, HEADER_BYTE_SIZE, QdCount(buf)).value.0;
              && responsePacket.header[..] == ResponseHeader(buf)
              && responsePacket.questionVector == qs
              && responsePacket.answerVector == SynthesizedAnswers(qs)
      ensures ReparsableQuery(packet.header[..], packet.questionVector) ==>
              && responsePacket.header[..] == ResponseHeader(packet.header[..])
              && responsePacket.questionVector == packet.questionVector
              && responsePacket.answerVector == SynthesizedAnswers(packet.questionVector)
    {
      responsePacket := new DNSPacket.Empty();
      responsePacket.MutateForResponse(packet, stale);
      ghost var buf := ResponseBuffer(PacketBytes(packet.header[..], packet.questionVector, packet.answerVector), stale);
      ghost var qs := QuestionsAt(buf, HEADER_BYTE_SIZE, QdCount(buf)).value.0;
      assert [] + qs == qs && qs[..|qs|] == qs;
      if ReparsableQuery(packet.header[..], packet.questionVector) {
        ReparseRecoversQuestions(packet.header[..], packet.questionVector, packet.answerVector, stale);
        BuiltHeadersOfPrefix(buf);
      }
    }

    /** `forward_packet`: a fresh packet mutated into the forwarded response
        to `packet`; also gives the queries sent upstream. For a query the
        builder re-reads faithfully, it carries the response header for the
        query's header and exactly the query's questions, and the queries
        are built from that header and those questions. */
    static method ForwardPacket(packet: DNSPacket, stale: seq<byte>, outcomes: seq<UpstreamOutcome>)
      returns (responsePacket: DNSPacket, queries: seq<seq<byte>>)
      requires packet.Valid()
      requires |PacketBytes(packet.header[..], packet.questionVector, packet.answerVector)| + |stale| >= BUFFER_SIZE
      requires var buf := ResponseBuffer(PacketBytes(packet.header[..], packet.questionVector, packet.answerVector), stale);
               && QuestionsAt(buf, HEADER_BYTE_SIZE, QdCount(buf)).Some?
               && |outcomes| == QdCount(buf)
      requires ForwardedAnswers(outcomes).Some?
      ensures fresh(responsePacket) && responsePacket.Valid()
      ensures var buf := ResponseBuffer(PacketBytes(packet.header[..], packet.questionVector, packet.answerVector), stale);
              var qs := QuestionsAt(buf, HEADER_BYTE_SIZE, QdCount(buf)).value.0;
              && responsePacket.header[..] == ResponseHeader(buf)
              && responsePacket.questionVector == qs
              && responsePacket.answerVector == ForwardedAnswers(outcomes).value
              && queries == ForwardedQueries(buf, qs, outcomes)
      ensures ReparsableQuery(packet.header[..], packet.questionVector) ==>
              && responsePacket.header[..] == ResponseHeader(packet.header[..])
              && responsePacket.questionVector == packet.questionVector
              && queries == ForwardedQueries(packet.header[..], packet.questionVector, outcomes)
    {
      responsePacket := new DNSPacket.Empty();
      queries := responsePacket.MutateForForwardResponse(packet, stale, outcomes);
      ghost var buf := ResponseBuffer(PacketBytes(packet.header[..], packet.questionVector, packet.answerVector), stale);
      ghost var qs := QuestionsAt(buf, HEADER_BYTE_SIZE, QdCount(buf)).value.0;
      assert [] + qs == qs && qs[..|qs|] == qs;
      assert [] + ForwardedAnswers(outcomes).value == ForwardedAnswers(outcomes).value;
      if ReparsableQuery(packet.header[..], packet.questionVector) {
        ReparseRecoversQuestions(packet.header[..], packet.questionVector, packet.answerVector, stale);
        BuiltHeadersOfPrefix(buf);
        ForwardedQueriesOfPrefix(buf, qs, outcomes);
      }
    }
  }
}
