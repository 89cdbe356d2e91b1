/** A question entry (question.cpp). Questions are held by value in the
    packet's `std::vector<Question>` and never change after construction,
    so the class becomes a datatype: its constructor stores the name, type
    and class unchanged, and `get_domain_name` is the `domainName` field. */
module Questions {
  import opened Bytes

  /** The name is kept as the wire bytes the parser produced, including the
      terminating zero; type and class are two octets each. */
  datatype Question = Question(domainName: seq<byte>, qtype: Bytes2, qclass: Bytes2)

  /** The octets `add_question_into_return_packet` emits for `q`. */
  function QuestionBytes(q: Question): (r: seq<byte>)
    ensures |r| == |q.domainName| + 4
  {
    q.domainName + q.qtype + q.qclass
  }

  /** `add_question_into_return_packet`: pushes the name octet by octet,
      then the type and the class, to the back of the caller's vector. */
  method AddQuestionIntoReturnPacket(q: Question, returnPacket: seq<byte>) returns (packet: seq<byte>)
    ensures packet == returnPacket + QuestionBytes(q)
    ensures |packet| == |returnPacket| + |q.domainName| + 4
    ensures packet[..|returnPacket|] == returnPacket
  {
    packet := returnPacket;
    for i := 0 to |q.domainName|
      invariant packet == returnPacket + q.domainName[..i]
    {
      packet := packet + [q.domainName[i]];
    }
    packet := packet + [q.qtype[0]];
    packet := packet + [q.qtype[1]];
    packet := packet + [q.qclass[0]];
    packet := packet + [q.qclass[1]];
    assert q.qtype == [q.qtype[0], q.qtype[1]];
    assert q.qclass == [q.qclass[0], q.qclass[1]];
  }
}
