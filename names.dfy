/** How `copy_domain_name` and `copy_pointer` read a domain name out of the
    receive buffer. Names are kept as raw wire bytes (length octets, label
    octets, the terminating zero), never as a list of labels.

    The reader is reproduced as written, which departs from section 4.1.4
    of RFC 1035 in three ways: every octet, label content included, is
    tested for the pointer flag; a pointer does not end the name, scanning
    goes on after its two octets; and the bytes a pointer designates are
    copied up to the next zero octet without interpreting nested pointers.
    No read is bounds-checked in the source, so each reader here is total
    and answers `None` exactly when some read would leave the buffer. */
module Names {
  import opened Bytes

  /** The pointer test of `copy_domain_name`, `(b & 0xC0) == 0xC0`: the
      top two bits are set. */
  predicate IsPointerByte(b: byte)
  {
    b >= 0xC0
  }

  /** Offset designated by a pointer octet and the octet after it:
      `((b & 0x3F) << 8) | next`, a 14-bit value. */
  function PointerTarget(b: byte, next: byte): (r: nat)
    ensures r < 0x4000
  {
    Be16(b % 0x40, next)
  }

  /** What `copy_pointer` appends for a pointer to `loc`: the octets from
      `loc` through the next zero octet inclusive, copied one by one (see
      `PointedBytesFound`). */
  function PointedBytes(buf: seq<byte>, loc: nat): Option<seq<byte>>
    decreases |buf| - loc
  {
    if loc >= |buf| then None
    else if buf[loc] == 0 then Some([0])
    else
      match PointedBytes(buf, loc + 1)
      case None => None
      case Some(rest) => Some([buf[loc]] + rest)
  }

  /** The copied bytes are found at `loc` and end in their only zero octet;
      they are missing only when no zero octet follows `loc`. */
  lemma {:induction false} PointedBytesFound(buf: seq<byte>, loc: nat)
    ensures var r := PointedBytes(buf, loc);
            && (r.Some? ==> |r.value| >= 1 && At(buf, loc, r.value))
            && (r.Some? ==> r.value[|r.value| - 1] == 0)
            && (r.Some? ==> forall k | 0 <= k < |r.value| - 1 :: r.value[k] != 0)
            && (r.None? ==> forall k | loc <= k < |buf| :: buf[k] != 0)
    decreases |buf| - loc
  {
    if loc < |buf| && buf[loc] != 0 {
      PointedBytesFound(buf, loc + 1);
      var r := PointedBytes(buf, loc + 1);
      if r.Some? {
        assert buf[loc..loc + 1 + |r.value|] == [buf[loc]] + r.value;
      }
    }
  }

  /** `copy_domain_name` started with the cursor at `p`: the name bytes it
      returns and the cursor it leaves. */
  function ScanName(buf: seq<byte>, p: nat): (r: Option<(seq<byte>, nat)>)
    ensures r.Some? ==> p < r.value.1 <= |buf|
    decreases |buf| - p, 1
  {
    if p >= |buf| then None
    else if buf[p] == 0 then Some(([0], p + 1))
    else if IsPointerByte(buf[p]) then ScanPointer(buf, p)
    else
      match ScanName(buf, p + 1)
      case None => None
      case Some((rest, end)) => Some(([buf[p]] + rest, end))
  }

  /** The pointer branch of `copy_domain_name` with a pointer octet at `p`:
      `copy_pointer` appends the designated bytes, the cursor moves past
      the two pointer octets and scanning goes on. */
  function ScanPointer(buf: seq<byte>, p: nat): (r: Option<(seq<byte>, nat)>)
    requires p < |buf|
    ensures r.Some? ==> p < r.value.1 <= |buf|
    decreases |buf| - p, 0
  {
    if p + 1 >= |buf| then None
    else
      match PointedBytes(buf, PointerTarget(buf[p], buf[p + 1]))
      case None => None
      case Some(pointed) =>
        match ScanName(buf, p + 2)
        case None => None
        case Some((rest, end)) => Some((pointed + rest, end))
  }

  /** A name whose only zero octet is its last and which holds no octet
      with the pointer flag: what the reader returns unchanged. */
  predicate PlainName(n: seq<byte>)
  {
    && |n| >= 1
    && n[|n| - 1] == 0
    && forall k | 0 <= k < |n| - 1 :: n[k] != 0 && !IsPointerByte(n[k])
  }

  /** With neither a zero octet nor a pointer-flagged octet before the
      zero octet at `z`, the reader returns exactly the octets from the
      cursor through that zero and leaves the cursor one past it. */
  lemma {:induction false} ScanWithoutPointer(buf: seq<byte>, p: nat, z: nat)
    requires p <= z < |buf| && buf[z] == 0
    requires forall k | p <= k < z :: buf[k] != 0 && !IsPointerByte(buf[k])
    ensures ScanName(buf, p) == Some((buf[p..z + 1], z + 1))
    decreases z - p
  {
    if p < z {
      ScanWithoutPointer(buf, p + 1, z);
      assert buf[p] != 0 && !IsPointerByte(buf[p]);
      assert [buf[p]] + buf[p + 1..z + 1] == buf[p..z + 1];
    } else {
      assert buf[p..z + 1] == [0];
    }
  }

  /** A plain name laid out at `p` is read back unchanged, and the cursor
      moves past exactly its octets. */
  lemma {:induction false} PlainNameScan(buf: seq<byte>, p: nat, n: seq<byte>)
    requires PlainName(n) && At(buf, p, n)
    ensures ScanName(buf, p) == Some((n, p + |n|))
  {
    var z := p + |n| - 1;
    assert forall k | p <= k <= z :: buf[k] == n[k - p];
    ScanWithoutPointer(buf, p, z);
    AtSlice(buf, p, n);
  }

  /** A pointer advances the cursor by exactly two octets and scanning goes
      on: when the next octet is zero it is consumed too, so the name ends
      in the pointed-to bytes (which end in zero) followed by a second
      zero, and the cursor ends three octets past the pointer. */
  lemma {:induction false} PointerThenRoot(buf: seq<byte>, p: nat)
    requires p + 2 < |buf| && IsPointerByte(buf[p]) && buf[p + 2] == 0
    requires PointedBytes(buf, PointerTarget(buf[p], buf[p + 1])).Some?
    ensures var pointed := PointedBytes(buf, PointerTarget(buf[p], buf[p + 1])).value;
            ScanName(buf, p) == Some((pointed + [0], p + 3))
    ensures var name := ScanName(buf, p).value.0;
            |name| >= 2 && name[|name| - 2] == 0 && name[|name| - 1] == 0
  {
    PointedBytesFound(buf, PointerTarget(buf[p], buf[p + 1]));
    assert ScanName(buf, p + 2) == Some(([0], p + 3));
  }

  /** Octets after a pointer are still read as name octets: a pointer, a
      non-zero octet that is not flagged, then the rest of the scan. */
  lemma {:induction false} PointerThenLabel(buf: seq<byte>, p: nat)
    requires p + 2 < |buf| && IsPointerByte(buf[p])
    requires buf[p + 2] != 0 && !IsPointerByte(buf[p + 2])
    requires PointedBytes(buf, PointerTarget(buf[p], buf[p + 1])).Some?
    requires ScanName(buf, p + 3).Some?
    ensures var pointed := PointedBytes(buf, PointerTarget(buf[p], buf[p + 1])).value;
            var (rest, end) := ScanName(buf, p + 3).value;
            ScanName(buf, p) == Some((pointed + [buf[p + 2]] + rest, end))
  {
    var (rest, end) := ScanName(buf, p + 3).value;
    var pointed := PointedBytes(buf, PointerTarget(buf[p], buf[p + 1])).value;
    assert ScanName(buf, p + 2) == Some(([buf[p + 2]] + rest, end));
    assert pointed + ([buf[p + 2]] + rest) == pointed + [buf[p + 2]] + rest;
  }

  /** One step of the reader on an octet that is neither zero nor a
      pointer: the octet, then whatever the scan from the next octet
      returns. */
  lemma {:induction false} ScanStepPlain(buf: seq<byte>, p: nat)
    requires p < |buf| && buf[p] != 0 && !IsPointerByte(buf[p])
    requires ScanName(buf, p).Some?
    ensures ScanName(buf, p + 1).Some?
    ensures ScanName(buf, p) == Some(([buf[p]] + ScanName(buf, p + 1).value.0, ScanName(buf, p + 1).value.1))
  {
  }

  /** One step of the reader on a pointer octet: the pointed-to bytes,
      then whatever the scan from two octets further returns. */
  lemma {:induction false} ScanStepPointer(buf: seq<byte>, p: nat)
    requires p < |buf| && IsPointerByte(buf[p])
    requires ScanName(buf, p).Some?
    ensures p + 1 < |buf|
    ensures PointedBytes(buf, PointerTarget(buf[p], buf[p + 1])).Some?
    ensures ScanName(buf, p + 2).Some?
    ensures ScanName(buf, p) == Some((PointedBytes(buf, PointerTarget(buf[p], buf[p + 1])).value
                                      + ScanName(buf, p + 2).value.0, ScanName(buf, p + 2).value.1))
  {
    assert ScanName(buf, p) == ScanPointer(buf, p);
  }

  /** Every name the reader returns ends in a zero octet, and the octet
      just before the cursor it leaves is zero: the name ends where the
      scan met the terminating zero. */
  lemma {:induction false} ScanNameEndsInZero(buf: seq<byte>, p: nat)
    requires ScanName(buf, p).Some?
    ensures var (name, end) := ScanName(buf, p).value;
            |name| >= 1 && name[|name| - 1] == 0 && buf[end - 1] == 0
    decreases |buf| - p
  {
    if buf[p] != 0 {
      var next := if IsPointerByte(buf[p]) then p + 2 else p + 1;
      var head: seq<byte>;
      if IsPointerByte(buf[p]) {
        ScanStepPointer(buf, p);
        head := PointedBytes(buf, PointerTarget(buf[p], buf[p + 1])).value;
      } else {
        ScanStepPlain(buf, p);
        head := [buf[p]];
      }
      ScanNameEndsInZero(buf, next);
      var rest := ScanName(buf, next).value.0;
      assert (head + rest)[|head + rest| - 1] == rest[|rest| - 1];
    }
  }

  /** The reader's progress: the name read so far from `start`, followed
      by what a scan from the cursor `p` returns, is what the scan from
      `start` returns. */
  predicate ScannedSoFar(buf: seq<byte>, start: nat, p: nat, sofar: seq<byte>)
  {
    && ScanName(buf, p).Some?
    && ScanName(buf, start) == Some((sofar + ScanName(buf, p).value.0, ScanName(buf, p).value.1))
  }

  /** An ordinary octet is appended and the cursor moves on by one. */
  lemma {:induction false} ScanAdvancePlain(buf: seq<byte>, start: nat, p: nat, sofar: seq<byte>)
    requires ScannedSoFar(buf, start, p, sofar)
    requires buf[p] != 0 && !IsPointerByte(buf[p])
    ensures ScannedSoFar(buf, start, p + 1, sofar + [buf[p]])
  {
    ScanStepPlain(buf, p);
    var (rest, end) := ScanName(buf, p + 1).value;
    assert sofar + ([buf[p]] + rest) == (sofar + [buf[p]]) + rest;
  }

  /** A pointer appends the pointed-to bytes and the cursor moves on by
      two. */
  lemma {:induction false} ScanAdvancePointer(buf: seq<byte>, start: nat, p: nat, sofar: seq<byte>)
    requires ScannedSoFar(buf, start, p, sofar)
    requires IsPointerByte(buf[p])
    ensures p + 1 < |buf| && PointedBytes(buf, PointerTarget(buf[p], buf[p + 1])).Some?
    ensures ScannedSoFar(buf, start, p + 2, sofar + PointedBytes(buf, PointerTarget(buf[p], buf[p + 1])).value)
  {
    ScanStepPointer(buf, p);
    var pointed := PointedBytes(buf, PointerTarget(buf[p], buf[p + 1])).value;
    var (rest, end) := ScanName(buf, p + 2).value;
    assert sofar + (pointed + rest) == (sofar + pointed) + rest;
  }

  /** A zero octet at the cursor ends the name: it is appended and the
      cursor moves past it. */
  lemma {:induction false} ScanFinish(buf: seq<byte>, start: nat, p: nat, sofar: seq<byte>)
    requires ScannedSoFar(buf, start, p, sofar)
    requires buf[p] == 0
    ensures ScanName(buf, start) == Some((sofar + [0], p + 1))
  {
  }
}
