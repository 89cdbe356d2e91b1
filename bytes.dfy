/** Octets, fixed-width fields and the big-endian helper shared by the
    whole DNS message engine. */
module Bytes {

  /** One octet of a datagram: the source's `unsigned char`. The shifts
      and masks the source applies to octets are written as the equivalent
      division and remainder by powers of two. */
  newtype byte = x: int | 0 <= x < 0x100

  /** `std::array<unsigned char, 2>`: the type, class and length fields. */
  type Bytes2 = s: seq<byte> | |s| == 2 witness [0, 0]

  /** `std::array<unsigned char, 4>`: the TTL field. */
  type Bytes4 = s: seq<byte> | |s| == 4 witness [0, 0, 0, 0]

  /** Size of the receive buffer: the UDP message limit of section 2.3.4
      of RFC 1035. */
  const BUFFER_SIZE: nat := 512

  /** A 512-octet receive buffer, `char buffer[512]`. */
  type ReceiveBuffer = s: seq<byte> | |s| == BUFFER_SIZE witness seq(BUFFER_SIZE, _ => 0)

  /** Size of the fixed message header of section 4.1.1 of RFC 1035. */
  const HEADER_BYTE_SIZE: nat := 12

  datatype Option<+T> = None | Some(value: T)

  /** `convert_unsigned_char_tuple_into_int`: `(hi << 8) | lo`, the
      big-endian reading of a 16-bit field. */
  function Be16(hi: byte, lo: byte): (r: nat)
    ensures r < 0x1_0000
  {
    hi as int * 0x100 + lo as int
  }

  /** Both octets are recovered from the value, so distinct octet pairs
      give distinct values. */
  lemma {:induction false} Be16Octets(hi: byte, lo: byte)
    ensures Be16(hi, lo) / 0x100 == hi as int && Be16(hi, lo) % 0x100 == lo as int
  {
  }

  lemma {:induction false} Be16Injective(a: byte, b: byte, c: byte, d: byte)
    requires Be16(a, b) == Be16(c, d)
    ensures a == c && b == d
  {
    Be16Octets(a, b);
    Be16Octets(c, d);
  }

  /** `p .. p + |s|` of `buf` holds exactly `s`. */
  predicate At(buf: seq<byte>, p: nat, s: seq<byte>)
  {
    p + |s| <= |buf| && forall i | 0 <= i < |s| :: buf[p + i] == s[i]
  }

  /** Bytes laid out one after the other can be found one after the other. */
  lemma {:induction false} AtConcat(buf: seq<byte>, p: nat, a: seq<byte>, b: seq<byte>)
    requires At(buf, p, a + b)
    ensures At(buf, p, a) && At(buf, p + |a|, b)
  {
    forall i | 0 <= i < |a|
      ensures buf[p + i] == a[i]
    {
      assert (a + b)[i] == a[i];
    }
    forall i | 0 <= i < |b|
      ensures buf[p + |a| + i] == b[i]
    {
      assert (a + b)[|a| + i] == b[i];
    }
  }

  /** `At` is the slice of the buffer. */
  lemma {:induction false} AtSlice(buf: seq<byte>, p: nat, s: seq<byte>)
    requires p + |s| <= |buf|
    ensures At(buf, p, s) <==> buf[p..p + |s|] == s
  {
    var t := buf[p..p + |s|];
    assert forall i | 0 <= i < |s| :: t[i] == buf[p + i];
  }
}
