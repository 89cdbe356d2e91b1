/** What `create_answer_section_with_forwarding_address` sends upstream and
    collects back. The socket calls are replaced by one outcome per question:
    the socket could not be created, the query could not be sent, no reply
    could be received, or a reply buffer was received. */
module Forwarding {
  import opened Bytes
  import opened Names
  import opened Header
  import opened Questions
  import opened Answers
  import opened Wire

  datatype UpstreamOutcome =
    | SocketFailed                    // `socket` returned -1: the question is skipped
    | SendFailed                      // `sendto` returned -1: the question is skipped
    | ReceiveFailed                   // `recvfrom` returned -1: the loop stops
    | Received(reply: ReceiveBuffer)  // the receive buffer, parsed as a packet

  /** `create_question_packet`: the upstream query header built from the
      original query, then the question's octets. */
  function QuestionPacket(query: seq<byte>, q: Question): (r: seq<byte>)
    requires |query| >= HEADER_BYTE_SIZE
    ensures |r| == HEADER_BYTE_SIZE + |q.domainName| + 4
    ensures r[..HEADER_BYTE_SIZE] == QueryHeader(query)
    ensures r[HEADER_BYTE_SIZE..] == QuestionBytes(q)
  {
    QueryHeader(query) + QuestionBytes(q)
  }

  /** The answers appended for the outcomes, in question order: every
      record of each parsed reply, nothing for a skipped question, and
      nothing from the first receive failure on. `None` when a reply that
      is reached cannot be parsed within its buffer. */
  function ForwardedAnswers(outcomes: seq<UpstreamOutcome>): Option<seq<Answer>>
  {
    if outcomes == [] then Some([])
    else
      match outcomes[0]
      case SocketFailed => ForwardedAnswers(outcomes[1..])
      case SendFailed => ForwardedAnswers(outcomes[1..])
      case ReceiveFailed => Some([])
      case Received(reply) =>
        match ParsePacket(reply)
        case None => None
        case Some((m, _)) =>
          match ForwardedAnswers(outcomes[1..])
          case None => None
          case Some(rest) => Some(m.answers + rest)
  }

  /** The queries handed to `sendto`, in question order: one for every
      question whose socket was created, until the first receive failure. */
  function ForwardedQueries(query: seq<byte>, qs: seq<Question>, outcomes: seq<UpstreamOutcome>): (r: seq<seq<byte>>)
    requires |query| >= HEADER_BYTE_SIZE && |qs| == |outcomes|
    ensures |r| <= |qs|
  {
    if outcomes == [] then []
    else
      var rest := ForwardedQueries(query, qs[1..], outcomes[1..]);
      match outcomes[0]
      case SocketFailed => rest
      case SendFailed => [QuestionPacket(query, qs[0])] + rest
      case ReceiveFailed => [QuestionPacket(query, qs[0])]
      case Received(_) => [QuestionPacket(query, qs[0])] + rest
  }

  /** The answers and queries for `outcomes` are `collected` and `sent`
      followed by whatever the outcomes from `i` on contribute. */
  predicate ForwardedSoFar(query: seq<byte>, qs: seq<Question>, outcomes: seq<UpstreamOutcome>, i: nat,
                           collected: seq<Answer>, sent: seq<seq<byte>>)
    requires |query| >= HEADER_BYTE_SIZE && |qs| == |outcomes|
  {
    && i <= |outcomes|
    && ForwardedAnswers(outcomes[i..]).Some?
    && ForwardedAnswers(outcomes).Some?
    && ForwardedAnswers(outcomes).value == collected + ForwardedAnswers(outcomes[i..]).value
    && ForwardedQueries(query, qs, outcomes) == sent + ForwardedQueries(query, qs[i..], outcomes[i..])
  }

  /** Before the first question nothing has been collected or sent. */
  lemma {:induction false} ForwardStart(query: seq<byte>, qs: seq<Question>, outcomes: seq<UpstreamOutcome>)
    requires |query| >= HEADER_BYTE_SIZE && |qs| == |outcomes| && ForwardedAnswers(outcomes).Some?
    ensures ForwardedSoFar(query, qs, outcomes, 0, [], [])
  {
    assert outcomes[0..] == outcomes && qs[0..] == qs;
    assert [] + ForwardedAnswers(outcomes).value == ForwardedAnswers(outcomes).value;
    assert [] + ForwardedQueries(query, qs, outcomes) == ForwardedQueries(query, qs, outcomes);
  }

  /** A question whose socket could not be created adds nothing. */
  lemma {:induction false} ForwardSocketFailed(query: seq<byte>, qs: seq<Question>, outcomes: seq<UpstreamOutcome>,
                                               i: nat, collected: seq<Answer>, sent: seq<seq<byte>>)
    requires |query| >= HEADER_BYTE_SIZE && |qs| == |outcomes| && i < |outcomes|
    requires ForwardedSoFar(query, qs, outcomes, i, collected, sent) && outcomes[i].SocketFailed?
    ensures ForwardedSoFar(query, qs, outcomes, i + 1, collected, sent)
  {
    assert outcomes[i..][0] == outcomes[i] && outcomes[i..][1..] == outcomes[i + 1..];
    assert qs[i..][1..] == qs[i + 1..];
  }

  /** A question whose query could not be sent adds that query only. */
  lemma {:induction false} ForwardSendFailed(query: seq<byte>, qs: seq<Question>, outcomes: seq<UpstreamOutcome>,
                                             i: nat, collected: seq<Answer>, sent: seq<seq<byte>>)
    requires |query| >= HEADER_BYTE_SIZE && |qs| == |outcomes| && i < |outcomes|
    requires ForwardedSoFar(query, qs, outcomes, i, collected, sent) && outcomes[i].SendFailed?
    ensures ForwardedSoFar(query, qs, outcomes, i + 1, collected, sent + [QuestionPacket(query, qs[i])])
  {
    assert outcomes[i..][0] == outcomes[i] && outcomes[i..][1..] == outcomes[i + 1..];
    assert qs[i..][0] == qs[i] && qs[i..][1..] == qs[i + 1..];
    var rest := ForwardedQueries(query, qs[i + 1..], outcomes[i + 1..]);
    assert sent + ([QuestionPacket(query, qs[i])] + rest) == (sent + [QuestionPacket(query, qs[i])]) + rest;
  }

  /** A received reply parses, and adds its query and all its records. */
  lemma {:induction false} ForwardReceived(query: seq<byte>, qs: seq<Question>, outcomes: seq<UpstreamOutcome>,
                                           i: nat, collected: seq<Answer>, sent: seq<seq<byte>>)
    requires |query| >= HEADER_BYTE_SIZE && |qs| == |outcomes| && i < |outcomes|
    requires ForwardedSoFar(query, qs, outcomes, i, collected, sent) && outcomes[i].Received?
    ensures ParsePacket(outcomes[i].reply).Some?
    ensures ForwardedSoFar(query, qs, outcomes, i + 1,
                           collected + ParsePacket(outcomes[i].reply).value.0.answers,
                           sent + [QuestionPacket(query, qs[i])])
  {
    assert outcomes[i..][0] == outcomes[i] && outcomes[i..][1..] == outcomes[i + 1..];
    assert qs[i..][0] == qs[i] && qs[i..][1..] == qs[i + 1..];
    var answers := ParsePacket(outcomes[i].reply).value.0.answers;
    var later := ForwardedAnswers(outcomes[i + 1..]).value;
    assert collected + (answers + later) == (collected + answers) + later;
    var rest := ForwardedQueries(query, qs[i + 1..], outcomes[i + 1..]);
    assert sent + ([QuestionPacket(query, qs[i])] + rest) == (sent + [QuestionPacket(query, qs[i])]) + rest;
  }

  /** At the first receive failure the answers are complete, and its query
      is the last one sent. */
  lemma {:induction false} ForwardReceiveFailed(query: seq<byte>, qs: seq<Question>, outcomes: seq<UpstreamOutcome>,
                                                i: nat, collected: seq<Answer>, sent: seq<seq<byte>>)
    requires |query| >= HEADER_BYTE_SIZE && |qs| == |outcomes| && i < |outcomes|
    requires ForwardedSoFar(query, qs, outcomes, i, collected, sent) && outcomes[i].ReceiveFailed?
    ensures ForwardedAnswers(outcomes) == Some(collected)
    ensures ForwardedQueries(query, qs, outcomes) == sent + [QuestionPacket(query, qs[i])]
  {
    assert outcomes[i..][0] == outcomes[i];
    assert qs[i..][0] == qs[i];
    assert collected + [] == collected;
  }

  /** After the last question the answers and queries are complete. */
  lemma {:induction false} ForwardFinish(query: seq<byte>, qs: seq<Question>, outcomes: seq<UpstreamOutcome>,
                                         collected: seq<Answer>, sent: seq<seq<byte>>)
    requires |query| >= HEADER_BYTE_SIZE && |qs| == |outcomes|
    requires ForwardedSoFar(query, qs, outcomes, |outcomes|, collected, sent)
    ensures ForwardedAnswers(outcomes) == Some(collected)
    ensures ForwardedQueries(query, qs, outcomes) == sent
  {
    assert outcomes[|outcomes|..] == [] && qs[|qs|..] == [];
    assert collected + [] == collected && sent + [] == sent;
  }

  /** The forwarded queries depend on the first twelve octets of the
      original query only. */
  lemma {:induction false} ForwardedQueriesOfPrefix(query: seq<byte>, qs: seq<Question>, outcomes: seq<UpstreamOutcome>)
    requires |query| >= HEADER_BYTE_SIZE && |qs| == |outcomes|
    ensures ForwardedQueries(query, qs, outcomes) == ForwardedQueries(query[..HEADER_BYTE_SIZE], qs, outcomes)
    decreases |outcomes|
  {
    if outcomes != [] {
      BuiltHeadersOfPrefix(query);
      ForwardedQueriesOfPrefix(query, qs[1..], outcomes[1..]);
    }
  }

  function IsStop(o: UpstreamOutcome): bool
  {
    o.ReceiveFailed?
  }

  function IsSkip(o: UpstreamOutcome): bool
  {
    o.SocketFailed? || o.SendFailed?
  }

  /** Nothing after the first receive failure is looked at. */
  lemma {:induction false} StopIgnoresLater(before: seq<UpstreamOutcome>, after: seq<UpstreamOutcome>)
    requires forall i | 0 <= i < |before| :: !IsStop(before[i])
    ensures ForwardedAnswers(before + [ReceiveFailed] + after) == ForwardedAnswers(before)
    decreases |before|
  {
    if before == [] {
      assert ([] + [ReceiveFailed] + after)[0] == ReceiveFailed;
    } else {
      var whole := before + [ReceiveFailed] + after;
      assert whole[0] == before[0];
      assert whole[1..] == before[1..] + [ReceiveFailed] + after;
      StopIgnoresLater(before[1..], after);
    }
  }

  /** A skipped question contributes no answer and does not stop the loop. */
  lemma {:induction false} SkipContributesNothing(before: seq<UpstreamOutcome>, skip: UpstreamOutcome,
                                                  after: seq<UpstreamOutcome>)
    requires IsSkip(skip)
    requires forall i | 0 <= i < |before| :: !IsStop(before[i])
    ensures ForwardedAnswers(before + [skip] + after) == ForwardedAnswers(before + after)
    decreases |before|
  {
    if before == [] {
      assert [] + [skip] + after == [skip] + after;
      assert ([skip] + after)[1..] == after;
      assert [] + after == after;
    } else {
      var whole := before + [skip] + after;
      assert whole[0] == before[0] && (before + after)[0] == before[0];
      assert whole[1..] == before[1..] + [skip] + after;
      assert (before + after)[1..] == before[1..] + after;
      SkipContributesNothing(before[1..], skip, after);
    }
  }

  /** A reply that parses and carries exactly the record `a`. */
  predicate RepliedWith(o: UpstreamOutcome, a: Answer)
  {
    o.Received? &&
    match ParsePacket(o.reply)
    case None => false
    case Some((m, _)) => m.answers == [a]
  }

  /** A reply with exactly one record. */
  predicate SingleAnswerReply(o: UpstreamOutcome)
  {
    o.Received? && ParsePacket(o.reply).Some? && |ParsePacket(o.reply).value.0.answers| == 1
  }

  /** When every question gets a reply with one record, the answers are
      those records, one per question and in question order. */
  lemma {:induction false} OneAnswerPerReply(outcomes: seq<UpstreamOutcome>, answers: seq<Answer>)
    requires |answers| == |outcomes|
    requires forall i | 0 <= i < |outcomes| :: RepliedWith(outcomes[i], answers[i])
    ensures ForwardedAnswers(outcomes) == Some(answers)
    decreases |outcomes|
  {
    if outcomes != [] {
      forall i | 0 <= i < |outcomes| - 1
        ensures RepliedWith(outcomes[1..][i], answers[1..][i])
      {
        assert outcomes[1..][i] == outcomes[i + 1] && answers[1..][i] == answers[i + 1];
      }
      OneAnswerPerReply(outcomes[1..], answers[1..]);
      FirstReply(outcomes, answers[0], answers[1..]);
      assert [answers[0]] + answers[1..] == answers;
    }
  }

  /** A first reply carrying exactly `a` puts `a` in front of the rest. */
  lemma {:induction false} FirstReply(outcomes: seq<UpstreamOutcome>, a: Answer, rest: seq<Answer>)
    requires outcomes != [] && RepliedWith(outcomes[0], a)
    requires ForwardedAnswers(outcomes[1..]) == Some(rest)
    ensures ForwardedAnswers(outcomes) == Some([a] + rest)
  {
  }

  /** How many of the outcomes are replies. Replies after a receive failure
      are counted too, although the loop never reaches them. */
  function RepliesReceived(outcomes: seq<UpstreamOutcome>): (r: nat)
    ensures r <= |outcomes|
  {
    if outcomes == [] then 0
    else (if outcomes[0].Received? then 1 else 0) + RepliesReceived(outcomes[1..])
  }

  /** With one record per reply and no receive failure, the answer section
      holds one record per reply received; so it holds as many records as
      there are questions (the ANCOUNT `create_header` announced) exactly
      when no question was skipped. */
  lemma {:induction false} AnswerCountWithSkips(outcomes: seq<UpstreamOutcome>)
    requires forall i | 0 <= i < |outcomes| :: IsSkip(outcomes[i]) || SingleAnswerReply(outcomes[i])
    ensures ForwardedAnswers(outcomes).Some?
    ensures |ForwardedAnswers(outcomes).value| == RepliesReceived(outcomes)
    ensures RepliesReceived(outcomes) == |outcomes| <==> forall i | 0 <= i < |outcomes| :: !IsSkip(outcomes[i])
    decreases |outcomes|
  {
    if outcomes != [] {
      AnswerCountWithSkips(outcomes[1..]);
      assert IsSkip(outcomes[0]) || SingleAnswerReply(outcomes[0]);
      if forall i | 0 <= i < |outcomes| :: !IsSkip(outcomes[i]) {
        assert forall i | 0 <= i < |outcomes[1..]| :: !IsSkip(outcomes[1..][i]) by {
          forall i | 0 <= i < |outcomes[1..]| ensures !IsSkip(outcomes[1..][i]) {
            assert outcomes[1..][i] == outcomes[i + 1];
          }
        }
      } else if !IsSkip(outcomes[0]) {
        var k :| 0 <= k < |outcomes| && IsSkip(outcomes[k]);
        assert outcomes[1..][k - 1] == outcomes[k];
      }
    }
  }

  /** A header announcing one question and no records, followed by a
      question with a plain name, parses to that header and question. */
  lemma {:induction false} SingleQuestionParses(h: seq<byte>, q: Question, trailing: seq<byte>)
    requires |h| == HEADER_BYTE_SIZE && QdCount(h) == 1 && AnCount(h) == 0
    requires PlainName(q.domainName)
    ensures ParsePacket(h + QuestionBytes(q) + trailing)
            == Some((Message(h, [q], []), HEADER_BYTE_SIZE + |QuestionBytes(q)|))
  {
    assert PacketBytes(h, [q], []) == h + QuestionBytes(q) by {
      assert [q][1..] == [];
      assert QuestionSectionBytes([q]) == QuestionBytes(q) + [];
      assert AnswerSectionBytes([]) == [];
      assert h + (QuestionBytes(q) + []) + [] == h + QuestionBytes(q);
    }
    PacketRoundTrip(h, [q], [], trailing);
  }

  /** A forwarded query for a question with a plain name parses back to
      one question, that question, with no records, whatever follows it
      in the upstream server's buffer. */
  lemma {:induction false} ForwardedQueryParses(query: seq<byte>, q: Question, trailing: seq<byte>)
    requires |query| >= HEADER_BYTE_SIZE && PlainName(q.domainName)
    ensures var packet := QuestionPacket(query, q);
            ParsePacket(packet + trailing) == Some((Message(QueryHeader(query), [q], []), |packet|))
  {
    SingleQuestionParses(QueryHeader(query), q, trailing);
  }
}
