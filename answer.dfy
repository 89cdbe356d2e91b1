/** A resource record of the answer section (answer.cpp). Like questions,
    answers are held by value and never change after construction, so the
    class becomes a datatype whose constructor stores all six fields
    unchanged. */
module Answers {
  import opened Bytes

  /** Name as wire bytes, type, class, TTL, the stored RDLENGTH field and
      the RDATA octets. The length field is kept as given and is not
      recomputed from `data`. */
  datatype Answer = Answer(
    domainName: seq<byte>,
    atype: Bytes2,
    aclass: Bytes2,
    ttl: Bytes4,
    length: Bytes2,
    data: seq<byte>)

  /** The TTL octets in the order `add_answer_into_return_packet` emits
      them: the first two are exchanged. */
  function SwapTtl(t: Bytes4): (r: Bytes4)
    ensures r[2..] == t[2..]
    ensures r[0] == t[1] && r[1] == t[0]
  {
    [t[1], t[0], t[2], t[3]]
  }

  /** The ten octets between name and data: type, class, the TTL with its
      first two octets exchanged, and the stored length. */
  function FixedFields(a: Answer): (r: seq<byte>)
    ensures |r| == 10
  {
    [a.atype[0], a.atype[1], a.aclass[0], a.aclass[1],
     a.ttl[1], a.ttl[0], a.ttl[2], a.ttl[3], a.length[0], a.length[1]]
  }

  /** The octets `add_answer_into_return_packet` emits for `a`. */
  function AnswerBytes(a: Answer): (r: seq<byte>)
    ensures |r| == |a.domainName| + 10 + |a.data|
  {
    a.domainName + FixedFields(a) + a.data
  }

  /** The record a parser recovers from `AnswerBytes(a)`: `a` with its
      TTL octets 0 and 1 exchanged. */
  function WithSwappedTtl(a: Answer): Answer
  {
    a.(ttl := SwapTtl(a.ttl))
  }

  /** Exchanging the TTL octets twice gives them back; once leaves them
      unchanged exactly when the first two are equal. */
  lemma {:induction false} SwapTtlProperties(t: Bytes4)
    ensures SwapTtl(SwapTtl(t)) == t
    ensures SwapTtl(t) == t <==> t[0] == t[1]
  {
    assert SwapTtl(SwapTtl(t)) == [t[0], t[1], t[2], t[3]];
    assert t == [t[0], t[1], t[2], t[3]];
  }

  /** `add_answer_into_return_packet`: pushes the name, type, class, the
      TTL as `ttl[1], ttl[0], ttl[2], ttl[3]`, the stored length and the
      data to the back of the caller's vector. */
  method AddAnswerIntoReturnPacket(a: Answer, returnPacket: seq<byte>) returns (packet: seq<byte>)
    ensures packet == returnPacket + AnswerBytes(a)
    ensures |packet| == |returnPacket| + |a.domainName| + 10 + |a.data|
    ensures packet[..|returnPacket|] == returnPacket
  {
    packet := returnPacket;
    for i := 0 to |a.domainName|
      invariant packet == returnPacket + a.domainName[..i]
    {
      packet := packet + [a.domainName[i]];
    }
    packet := packet + [a.atype[0]];
    packet := packet + [a.atype[1]];
    packet := packet + [a.aclass[0]];
    packet := packet + [a.aclass[1]];
    packet := packet + [a.ttl[1]];
    packet := packet + [a.ttl[0]];
    packet := packet + [a.ttl[2]];
    packet := packet + [a.ttl[3]];
    packet := packet + [a.length[0]];
    packet := packet + [a.length[1]];
    ghost var fixedPart := packet;
    assert fixedPart == returnPacket + a.domainName + FixedFields(a);
    for j := 0 to |a.data|
      invariant packet == fixedPart + a.data[..j]
    {
      packet := packet + [a.data[j]];
    }
    assert a.data[..|a.data|] == a.data;
  }
}
