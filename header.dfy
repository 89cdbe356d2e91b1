/** The 12-octet message header: its fields as laid out in section 4.1.1 of
    RFC 1035, and the two headers the engine builds, the response header of
    `create_header` and the upstream query header of
    `create_question_packet`. */
module Header {
  import opened Bytes

  // Field views of a header (or of any buffer that starts with one). A shift
  // and mask such as `(h[2] >> 3) & 0x0F` is written `h[2] / 0x08 % 0x10`.

  function Id(h: seq<byte>): nat
    requires |h| >= HEADER_BYTE_SIZE
  {
    Be16(h[0], h[1])
  }

  function Qr(h: seq<byte>): byte
    requires |h| >= HEADER_BYTE_SIZE
  {
    h[2] / 0x80
  }

  function Opcode(h: seq<byte>): byte
    requires |h| >= HEADER_BYTE_SIZE
  {
    h[2] / 0x08 % 0x10
  }

  function Aa(h: seq<byte>): byte
    requires |h| >= HEADER_BYTE_SIZE
  {
    h[2] / 0x04 % 0x02
  }

  function Tc(h: seq<byte>): byte
    requires |h| >= HEADER_BYTE_SIZE
  {
    h[2] / 0x02 % 0x02
  }

  function Rd(h: seq<byte>): byte
    requires |h| >= HEADER_BYTE_SIZE
  {
    h[2] % 0x02
  }

  function Ra(h: seq<byte>): byte
    requires |h| >= HEADER_BYTE_SIZE
  {
    h[3] / 0x80
  }

  function Z(h: seq<byte>): byte
    requires |h| >= HEADER_BYTE_SIZE
  {
    h[3] / 0x10 % 0x08
  }

  function Rcode(h: seq<byte>): byte
    requires |h| >= HEADER_BYTE_SIZE
  {
    h[3] % 0x10
  }

  function QdCount(h: seq<byte>): nat
    requires |h| >= HEADER_BYTE_SIZE
  {
    Be16(h[4], h[5])
  }

  function AnCount(h: seq<byte>): nat
    requires |h| >= HEADER_BYTE_SIZE
  {
    Be16(h[6], h[7])
  }

  function NsCount(h: seq<byte>): nat
    requires |h| >= HEADER_BYTE_SIZE
  {
    Be16(h[8], h[9])
  }

  function ArCount(h: seq<byte>): nat
    requires |h| >= HEADER_BYTE_SIZE
  {
    Be16(h[10], h[11])
  }

  /** Every field of two headers agrees. */
  predicate SameFields(h: seq<byte>, g: seq<byte>)
    requires |h| >= HEADER_BYTE_SIZE && |g| >= HEADER_BYTE_SIZE
  {
    && Id(h) == Id(g) && Qr(h) == Qr(g) && Opcode(h) == Opcode(g)
    && Aa(h) == Aa(g) && Tc(h) == Tc(g) && Rd(h) == Rd(g)
    && Ra(h) == Ra(g) && Z(h) == Z(g) && Rcode(h) == Rcode(g)
    && QdCount(h) == QdCount(g) && AnCount(h) == AnCount(g)
    && NsCount(h) == NsCount(g) && ArCount(h) == ArCount(g)
  }

  /** The field views lose nothing: headers whose fields all agree are the
      same twelve octets. So the field-by-field contracts of the two header
      builders below pin down every octet they produce. */
  lemma {:induction false} FieldsDetermineHeader(h: seq<byte>, g: seq<byte>)
    requires |h| == HEADER_BYTE_SIZE && |g| == HEADER_BYTE_SIZE
    requires SameFields(h, g)
    ensures h == g
  {
    FlagOctetsDetermined(h, g);
    CountOctetsDetermined(h, g);
    assert forall i | 0 <= i < HEADER_BYTE_SIZE :: h[i] == g[i];
  }

  lemma {:induction false} FlagOctetsDetermined(h: seq<byte>, g: seq<byte>)
    requires |h| == HEADER_BYTE_SIZE && |g| == HEADER_BYTE_SIZE
    requires Qr(h) == Qr(g) && Opcode(h) == Opcode(g) && Aa(h) == Aa(g) && Tc(h) == Tc(g) && Rd(h) == Rd(g)
    requires Ra(h) == Ra(g) && Z(h) == Z(g) && Rcode(h) == Rcode(g)
    ensures h[2] == g[2] && h[3] == g[3]
  {
    ThirdOctetDetermined(h[2], g[2]);
    FourthOctetDetermined(h[3], g[3]);
  }

  lemma {:induction false} CountOctetsDetermined(h: seq<byte>, g: seq<byte>)
    requires |h| == HEADER_BYTE_SIZE && |g| == HEADER_BYTE_SIZE
    requires Id(h) == Id(g) && QdCount(h) == QdCount(g) && AnCount(h) == AnCount(g)
    requires NsCount(h) == NsCount(g) && ArCount(h) == ArCount(g)
    ensures h[0] == g[0] && h[1] == g[1] && h[4] == g[4] && h[5] == g[5]
    ensures h[6] == g[6] && h[7] == g[7] && h[8] == g[8] && h[9] == g[9]
    ensures h[10] == g[10] && h[11] == g[11]
  {
    Be16Injective(h[0], h[1], g[0], g[1]);
    Be16Injective(h[4], h[5], g[4], g[5]);
    Be16Injective(h[6], h[7], g[6], g[7]);
    Be16Injective(h[8], h[9], g[8], g[9]);
    Be16Injective(h[10], h[11], g[10], g[11]);
  }

  lemma {:induction false} ThirdOctetDetermined(x: byte, y: byte)
    requires x / 0x80 == y / 0x80 && x / 0x08 % 0x10 == y / 0x08 % 0x10
    requires x / 0x04 % 0x02 == y / 0x04 % 0x02 && x / 0x02 % 0x02 == y / 0x02 % 0x02
    requires x % 0x02 == y % 0x02
    ensures x == y
  {
    ThirdOctetFields(x as int);
    ThirdOctetFields(y as int);
  }

  /** An octet is the sum of its QR, OPCODE, AA, TC and RD bits. */
  lemma {:induction false} ThirdOctetFields(x: int)
    requires 0 <= x < 0x100
    ensures x == x / 0x80 * 0x80 + x / 0x08 % 0x10 * 0x08 + x / 0x04 % 0x02 * 0x04
                 + x / 0x02 % 0x02 * 0x02 + x % 0x02
  {
    assert x / 0x02 % 0x02 * 0x02 + x % 0x02 == x % 0x04;
    assert x / 0x04 % 0x02 * 0x04 + x % 0x04 == x % 0x08;
    assert x / 0x08 % 0x10 * 0x08 + x % 0x08 == x % 0x80;
  }

  lemma {:induction false} FourthOctetDetermined(x: byte, y: byte)
    requires x / 0x80 == y / 0x80 && x / 0x10 % 0x08 == y / 0x10 % 0x08 && x % 0x10 == y % 0x10
    ensures x == y
  {
  }

  /** An octet assembled from QR, OPCODE, AA, TC and RD values has those
      values as its fields. */
  lemma {:induction false} ComposedThirdOctet(qr: int, opcode: int, aa: int, tc: int, rd: int)
    requires 0 <= qr < 0x02 && 0 <= opcode < 0x10 && 0 <= aa < 0x02 && 0 <= tc < 0x02 && 0 <= rd < 0x02
    ensures var x := qr * 0x80 + opcode * 0x08 + aa * 0x04 + tc * 0x02 + rd;
            && x / 0x80 == qr && x / 0x08 % 0x10 == opcode && x / 0x04 % 0x02 == aa
            && x / 0x02 % 0x02 == tc && x % 0x02 == rd
  {
    var x := qr * 0x80 + opcode * 0x08 + aa * 0x04 + tc * 0x02 + rd;
    assert x / 0x08 == qr * 0x10 + opcode;
    assert x / 0x04 == qr * 0x20 + opcode * 0x02 + aa;
    assert x / 0x02 == qr * 0x40 + opcode * 0x04 + aa * 0x02 + tc;
  }

  /** `create_header`, computed from the query header at the front of the
      buffer. `ResponseHeaderFields` states what each field becomes. */
  function ResponseHeader(query: seq<byte>): (h: seq<byte>)
    requires |query| >= HEADER_BYTE_SIZE
    ensures |h| == HEADER_BYTE_SIZE
    ensures QdCount(h) == QdCount(query) && AnCount(h) == QdCount(query)
  {
    var opcode := query[2] / 0x08 % 0x10 * 0x08;      // 0x78 & query[2]
    var recursionDesired := query[2] % 0x02;           // 0x01 & query[2]
    [ query[0], query[1],
      0x80 + opcode + recursionDesired,                // disjoint bits: | is +
      if opcode == 0x00 then 0x00 else 0x04,
      query[4], query[5],
      query[4], query[5],
      0x00, 0x00,
      0x00, 0x00 ]
  }

  /** The response keeps the ID, OPCODE, RD and QDCOUNT of the query, is
      marked as a response with AA, TC, RA and Z clear, answers RCODE 4
      (not implemented) for any non-zero OPCODE, claims one answer per
      question and no authority or additional records. */
  lemma {:induction false} ResponseHeaderFields(query: seq<byte>)
    requires |query| >= HEADER_BYTE_SIZE
    ensures var h := ResponseHeader(query);
            && Id(h) == Id(query) && Qr(h) == 1 && Opcode(h) == Opcode(query)
            && Aa(h) == 0 && Tc(h) == 0 && Rd(h) == Rd(query)
            && Ra(h) == 0 && Z(h) == 0
            && Rcode(h) == (if Opcode(query) == 0 then 0 else 4)
            && QdCount(h) == QdCount(query) && AnCount(h) == QdCount(query)
            && NsCount(h) == 0 && ArCount(h) == 0
  {
    var opcode := query[2] / 0x08 % 0x10 * 0x08;
    var recursionDesired := query[2] % 0x02;
    ComposedThirdOctet(1, opcode as int / 0x08, 0, 0, recursionDesired as int);
  }

  /** The header `create_question_packet` puts in front of a forwarded
      question, computed from the original query header.
      `QueryHeaderFields` states what each field becomes. */
  function QueryHeader(query: seq<byte>): (h: seq<byte>)
    requires |query| >= HEADER_BYTE_SIZE
    ensures |h| == HEADER_BYTE_SIZE
    ensures QdCount(h) == 1 && AnCount(h) == 0
  {
    var opcode := query[2] / 0x08 % 0x10 * 0x08;      // 0x78 & query[2]
    var recursionDesired := query[2] % 0x02;           // 0x01 & query[2]
    [ query[0], query[1],
      opcode + recursionDesired,
      0x00,
      0x00, 0x01,
      0x00, 0x00,
      0x00, 0x00,
      0x00, 0x00 ]
  }

  /** The forwarded query keeps the original ID, OPCODE and RD, has QR
      clear (a query), every other flag and RCODE zero, one question and
      no records. */
  lemma {:induction false} QueryHeaderFields(query: seq<byte>)
    requires |query| >= HEADER_BYTE_SIZE
    ensures var h := QueryHeader(query);
            && Id(h) == Id(query) && Qr(h) == 0 && Opcode(h) == Opcode(query)
            && Aa(h) == 0 && Tc(h) == 0 && Rd(h) == Rd(query)
            && Ra(h) == 0 && Z(h) == 0 && Rcode(h) == 0
            && QdCount(h) == 1 && AnCount(h) == 0 && NsCount(h) == 0 && ArCount(h) == 0
  {
    var opcode := query[2] / 0x08 % 0x10 * 0x08;
    var recursionDesired := query[2] % 0x02;
    ComposedThirdOctet(0, opcode as int / 0x08, 0, 0, recursionDesired as int);
  }

  /** Both built headers depend on the first twelve octets of the query
      only, whatever follows them. */
  lemma {:induction false} BuiltHeadersOfPrefix(query: seq<byte>)
    requires |query| >= HEADER_BYTE_SIZE
    ensures ResponseHeader(query) == ResponseHeader(query[..HEADER_BYTE_SIZE])
    ensures QueryHeader(query) == QueryHeader(query[..HEADER_BYTE_SIZE])
  {
    var h := query[..HEADER_BYTE_SIZE];
    assert h[0] == query[0] && h[1] == query[1] && h[2] == query[2];
    assert h[4] == query[4] && h[5] == query[5];
  }
}
