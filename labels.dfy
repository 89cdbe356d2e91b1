/** `label_to_string`: the printable dotted form of a name kept as wire
    bytes. Unlike the parser it checks every read against the length of
    the sequence: a length octet that runs past the end stops the decoding
    and drops that label. */
module Labels {
  import opened Bytes

  /** Each octet as the character with that code, as `static_cast<char>`
      followed by appending to a `std::string` does. */
  function Chars(bs: seq<byte>): (r: seq<char>)
    ensures |r| == |bs|
    ensures forall k | 0 <= k < |bs| :: r[k] as int == bs[k] as int
  {
    seq(|bs|, k requires 0 <= k < |bs| => bs[k] as int as char)
  }

  /** The text decoded from the labels starting at `i`: each label's
      characters, a dot after a label unless the sequence ends there or a
      zero octet follows, and nothing once a zero octet, the end of the
      sequence or a label running past the end is reached. */
  function LabelsText(s: seq<byte>, i: nat): (r: seq<char>)
    ensures i <= |s| ==> |r| <= |s| - i
    decreases |s| - i
  {
    if i >= |s| || s[i] == 0 then []
    else
      var start := i + 1;
      if start + s[i] as int > |s| then []
      else
        var end := start + s[i] as int;
        Chars(s[start..end]) + (if end < |s| && s[end] != 0 then "." else "") + LabelsText(s, end)
  }

  /** One label that fits: its characters, the separator, then the rest. */
  lemma {:induction false} LabelsTextStep(s: seq<byte>, i: nat)
    requires i < |s| && s[i] != 0 && i + 1 + s[i] as int <= |s|
    ensures var end := i + 1 + s[i] as int;
            LabelsText(s, i)
            == Chars(s[i + 1..end]) + (if end < |s| && s[end] != 0 then "." else "") + LabelsText(s, end)
  {
  }

  /** Rewriting step for the loop below: the text built so far followed by
      one label's text, its separator and the rest of the decoding, regrouped
      so that the last three form one `LabelsText` unfolding. */
  lemma {:induction false} ReassociateLabelText(before: seq<char>, text: seq<char>, separator: seq<char>, rest: seq<char>)
    ensures before + text + separator + rest == before + (text + separator + rest)
  {
  }

  /** `label_to_string` on the whole sequence. */
  method LabelToString(labelSequence: seq<byte>) returns (domainName: seq<char>)
    ensures domainName == LabelsText(labelSequence, 0)
  {
    domainName := "";
    var i := 0;
    while i < |labelSequence| && labelSequence[i] != 0
      invariant i <= |labelSequence|
      invariant domainName + LabelsText(labelSequence, i) == LabelsText(labelSequence, 0)
      decreases |labelSequence| - i
    {
      ghost var lengthAt := i;
      var length := labelSequence[i];
      i := i + 1;
      if i + length as int > |labelSequence| {
        assert LabelsText(labelSequence, lengthAt) == [];
        assert domainName + [] == domainName;
        break;
      }
      ghost var before := domainName;
      var j: byte := 0;
      while j < length
        invariant j <= length && i == lengthAt + 1 + j as int
        invariant domainName == before + Chars(labelSequence[lengthAt + 1..i])
      {
        assert labelSequence[lengthAt + 1..i + 1] == labelSequence[lengthAt + 1..i] + [labelSequence[i]];
        domainName := domainName + [labelSequence[i] as int as char];
        i := i + 1;
        j := j + 1;
      }
      ghost var text := Chars(labelSequence[lengthAt + 1..i]);
      ghost var separator: seq<char> := "";
      if i < |labelSequence| && labelSequence[i] != 0 {
        domainName := domainName + ".";
        separator := ".";
      }
      LabelsTextStep(labelSequence, lengthAt);
      ReassociateLabelText(before, text, separator, LabelsText(labelSequence, i));
    }
    if i < |labelSequence| {
      assert domainName + [] == domainName;
    }
  }

  /** Labels laid out the way names are kept: each label after its length
      octet, then the terminating zero. */
  function Encoded(labels: seq<seq<byte>>): (r: seq<byte>)
    requires forall k | 0 <= k < |labels| :: 0 < |labels[k]| < 0x100
    ensures |r| >= 1 && r[|r| - 1] == 0
  {
    if labels == [] then [0]
    else [|labels[0]| as byte] + labels[0] + Encoded(labels[1..])
  }

  /** The labels joined with dots. */
  function Dotted(labels: seq<seq<byte>>): seq<char>
  {
    if labels == [] then []
    else if |labels| == 1 then Chars(labels[0])
    else Chars(labels[0]) + "." + Dotted(labels[1..])
  }

  /** Decoding an encoded name yields its labels joined with dots. */
  lemma {:induction false} EncodedLabelsText(buf: seq<byte>, p: nat, labels: seq<seq<byte>>)
    requires forall k | 0 <= k < |labels| :: 0 < |labels[k]| < 0x100
    requires At(buf, p, Encoded(labels))
    ensures LabelsText(buf, p) == Dotted(labels)
    decreases |labels|
  {
    var e := Encoded(labels);
    if labels == [] {
      assert buf[p + 0] == e[0];
    } else {
      var first := labels[0];
      var rest := Encoded(labels[1..]);
      assert e == [|first| as byte] + (first + rest);
      AtConcat(buf, p, [|first| as byte], first + rest);
      AtConcat(buf, p + 1, first, rest);
      assert buf[p + 0] == [|first| as byte][0];
      var end := p + 1 + |first|;
      AtSlice(buf, p + 1, first);
      assert buf[end + 0] == rest[0];
      EncodedLabelsText(buf, end, labels[1..]);
      var separator: seq<char> := if end < |buf| && buf[end] != 0 then "." else "";
      assert LabelsText(buf, p) == Chars(first) + separator + LabelsText(buf, end) by {
        LabelsTextStep(buf, p);
      }
      if |labels| == 1 {
        assert labels[1..] == [];
        assert separator == "" && LabelsText(buf, end) == [];
        assert Chars(first) + "" + [] == Chars(first);
      } else {
        assert rest[0] == |labels[1]| as byte;
        assert separator == ".";
      }
    }
  }

  /** `codecrafters.io` as kept on the wire decodes to that text. */
  lemma {:induction false} CodecraftersExample()
    ensures LabelsText([12, 0x63, 0x6F, 0x64, 0x65, 0x63, 0x72, 0x61, 0x66, 0x74, 0x65, 0x72, 0x73,
                        2, 0x69, 0x6F, 0], 0) == "codecrafters.io"
  {
    var codecrafters: seq<byte> := [0x63, 0x6F, 0x64, 0x65, 0x63, 0x72, 0x61, 0x66, 0x74, 0x65, 0x72, 0x73];
    var io: seq<byte> := [0x69, 0x6F];
    var labels := [codecrafters, io];
    var wire := Encoded(labels);
    assert wire == [12, 0x63, 0x6F, 0x64, 0x65, 0x63, 0x72, 0x61, 0x66, 0x74, 0x65, 0x72, 0x73,
                    2, 0x69, 0x6F, 0] by {
      assert labels[1..] == [io] && labels[1..][1..] == [];
      assert Encoded([io]) == [2] + io + [0];
    }
    assert LabelsText(wire, 0) == Dotted(labels) by {
      AtSlice(wire, 0, wire);
      EncodedLabelsText(wire, 0, labels);
    }
    assert Dotted(labels) == "codecrafters.io" by {
      assert labels[1..] == [io];
      assert Chars(codecrafters) == "codecrafters";
      assert Chars(io) == "io";
    }
  }
}
