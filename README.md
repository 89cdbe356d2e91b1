# DNS message engine of a small C++ DNS server, in Dafny

This project models the DNS message engine of a small DNS server written in C++ (`src/dns_packet.cpp`, `src/question.cpp`, `src/answer.cpp`) and proves properties of it. The engine does the following:
- reads a 512-octet UDP datagram into a `DNSPacket` through a cursor: the 12-octet header, QDCOUNT questions, then ANCOUNT resource records, expanding compressed names the way the code does;
- serialises a packet back to octets;
- builds a standalone response (header rewritten, questions re-read, one A record for 8.8.8.8 per question);
- builds a forwarded response by sending each question upstream in a query of its own and collecting every record of each reply.

## Structure
- `bytes.dfy` (`Bytes`): octets as a `byte` newtype, fixed-size fields, the 512-octet receive buffer, and `Be16`, the big-endian helper `convert_unsigned_char_tuple_into_int`. `At` says that a sequence lies in a buffer at an offset.
- `names.dfy` (`Names`): the name reader of `copy_domain_name` and `copy_pointer` as total functions, and what it does with plain and compressed names.
- `header.dfy` (`Header`): the header fields of section 4.1.1 of RFC 1035, the response header of `create_header`, and the upstream query header of `create_question_packet`.
- `question.dfy` and `answer.dfy` (`Questions`, `Answers`): the two value classes, modelled as datatypes, and their serialisers `add_question_into_return_packet` and `add_answer_into_return_packet`.
- `wire.dfy` (`Wire`): the section readers, the whole-packet parse, the serialised layout, the synthesised answers, and the round trips between writing and reading.
- `forwarding.dfy` (`Forwarding`): which answers and which upstream queries the forwarding loop produces for a given sequence of upstream outcomes.
- `labels.dfy` (`Labels`): `label_to_string`, the bounds-checked decoder to dotted text.
- `packet.dfy` (`Packet`): the `DNSPacket` class, with its buffer and header arrays, its cursor, its counts and its two vectors. Every method is proved against the functions above.

The source checks no read against the end of the buffer. Each reader function therefore returns `Option`, and `None` means that some read would leave the buffer. Each method that reads requires its reader to succeed, which is exactly the condition that every access stays in bounds and every scan meets its zero octet.

Where the code departs from RFC 1035 (section 4.1.4, message compression; section 4.1.1, the header counts and RCODE) or from usual DNS server behaviour, the model follows the code:
- **Pointers:** the code tests every octet of a name for the pointer flag. After a pointer it keeps scanning. It copies the pointed-to bytes up to the next zero octet without following nested pointers, and it has no guard against cycles or forward pointers.
- **TTL:** records are written with the first two TTL octets exchanged.
- **Forwarded ANCOUNT:** in a forwarded response ANCOUNT stays equal to QDCOUNT, as `create_header` sets it. It is not the number of records collected.
- **Receive failure:** it ends the forwarding loop, and the answers collected so far are kept.
- **Upstream replies:** a reply with any number of records is accepted whole.
- **Errors:** there are no error results for malformed input. The reads simply have preconditions.

## Model
| member | source | states |
|---|---|---|
| Bytes.Be16 | src/dns_packet.cpp:444-447 | `(hi << 8) \| lo` is a 16-bit value |
| Bytes.Be16Octets | src/dns_packet.cpp:444-447 | both octets are recovered from the combined value |
| Bytes.Be16Injective | src/dns_packet.cpp:444-447 | distinct octet pairs give distinct values |
| Names.PointerTarget | src/dns_packet.cpp:422-424 | `((b & 0x3F) << 8) \| next` is a 14-bit offset |
| Names.PointedBytes | src/dns_packet.cpp:395-405 | what `copy_pointer` appends for a pointer target; characterised by PointedBytesFound: the octets at the target through the first zero octet, absent only when no zero follows |
| Names.PointedBytesFound | src/dns_packet.cpp:395-405 | `copy_pointer` copies the octets at the target through the first zero octet, which is the only zero it copies; the copy fails only when no zero octet follows |
| Names.ScanName | src/dns_packet.cpp:407-442 | the cursor ends strictly after where it started and inside the buffer |
| Names.ScanPointer | src/dns_packet.cpp:419-433 | the pointer branch also leaves the cursor after the pointer and inside the buffer |
| Names.ScanWithoutPointer | src/dns_packet.cpp:407-442 | with no zero and no pointer-flagged octet before a zero octet, the name is exactly the octets through that zero, and the cursor ends one past it |
| Names.PlainNameScan | src/dns_packet.cpp:407-442 | a plain name laid out at the cursor is read back unchanged, and the cursor moves past its length |
| Names.PointerThenRoot | src/dns_packet.cpp:421-441 | a pointer moves the cursor by exactly 2; a zero octet after it is consumed and appended a second time |
| Names.PointerThenLabel | src/dns_packet.cpp:421-439 | after a pointer, scanning goes on, and the following octets are appended as name octets |
| Names.ScanStepPlain | src/dns_packet.cpp:428-433 | one step on an ordinary octet appends it and advances by 1 |
| Names.ScanStepPointer | src/dns_packet.cpp:421-433 | one step on a pointer appends the pointed-to bytes and advances by 2 |
| Names.ScanNameEndsInZero | src/dns_packet.cpp:436-441 | every name read ends in a zero octet, and the octet before the final cursor is zero |
| Header.FieldsDetermineHeader | src/dns_packet.cpp:126-166 | headers whose fields all agree are the same 12 octets, so field contracts pin every octet |
| Header.ThirdOctetFields | src/dns_packet.cpp:133-142 | the flag octet is the sum of its QR, OPCODE, AA, TC and RD parts |
| Header.ComposedThirdOctet | src/dns_packet.cpp:133-142 | an octet assembled from QR, OPCODE, AA, TC and RD has those values as fields (the bits are disjoint, so `\|` is `+`) |
| Header.ResponseHeader | src/dns_packet.cpp:126-166 | the response header is 12 octets; QDCOUNT is copied and ANCOUNT equals the query's QDCOUNT |
| Header.ResponseHeaderFields | src/dns_packet.cpp:126-166 | ID, OPCODE, RD and QDCOUNT are kept; QR is 1; AA, TC, RA and Z are 0; RCODE is 0 for OPCODE 0 and 4 otherwise; ANCOUNT equals QDCOUNT; NSCOUNT and ARCOUNT are 0 |
| Header.QueryHeader | src/dns_packet.cpp:40-66 | the upstream header is 12 octets, with QDCOUNT 1 and ANCOUNT 0 |
| Header.QueryHeaderFields | src/dns_packet.cpp:40-66 | ID, OPCODE and RD are kept; QR, AA, TC, RA, Z and RCODE are 0; the counts are 1, 0, 0, 0 |
| Header.BuiltHeadersOfPrefix | src/dns_packet.cpp:126-166 | both built headers depend only on the first 12 octets of the buffer |
| Questions.QuestionBytes | src/question.cpp:13-26 | the octets emitted for a question, `\|name\| + 4` of them; QuestionRoundTrip reads them back to the same question |
| Questions.AddQuestionIntoReturnPacket | src/question.cpp:13-26 | appends the name, then type[0..1], then class[0..1], which is `\|name\| + 4` octets; the existing octets are unchanged |
| Answers.SwapTtl | src/answer.cpp:33-37 | the TTL is emitted as `ttl[1], ttl[0], ttl[2], ttl[3]` |
| Answers.FixedFields | src/answer.cpp:24-41 | type, class, swapped TTL and the stored length make exactly 10 octets |
| Answers.AnswerBytes | src/answer.cpp:19-47 | a record takes `\|name\| + 10 + \|data\|` octets |
| Answers.WithSwappedTtl | src/answer.cpp:33-37 | the record a parser recovers from an emitted record: AnswerRoundTrip proves it is the record with TTL octets 0 and 1 exchanged, and SwapTtlProperties that exchanging twice restores the TTL |
| Answers.SwapTtlProperties | src/answer.cpp:33-37 | the swap is its own inverse; the emitted TTL equals the stored one exactly when `ttl[0] == ttl[1]` |
| Answers.AddAnswerIntoReturnPacket | src/answer.cpp:19-47 | appends the name, type, class, swapped TTL, stored length and data, which is `\|name\| + 10 + \|data\|` octets; the existing octets are unchanged |
| Wire.QuestionAfterName | src/dns_packet.cpp:188-205 | after the name, exactly 4 octets are consumed and the name is kept |
| Wire.QuestionAt | src/dns_packet.cpp:185-206 | `copy_question` moves the cursor forward and stays inside the buffer |
| Wire.RecordAfterName | src/dns_packet.cpp:222-255 | after the name, 10 fixed octets are consumed, then exactly be16(length) data octets, so `\|data\|` equals the decoded length field |
| Wire.AnswerAt | src/dns_packet.cpp:219-256 | one record moves the cursor forward, and its data length matches its length field |
| Wire.QuestionsAt | src/dns_packet.cpp:172-183 | a successful read of `n` questions yields exactly `n` |
| Wire.QuestionThenRest | src/dns_packet.cpp:180-182 | one question, then the other `n - 1`, gives exactly `n` |
| Wire.AnswersAt | src/dns_packet.cpp:212-257 | a successful read of `n` records yields exactly `n` |
| Wire.AnswerThenRest | src/dns_packet.cpp:219-256 | one record, then the other `n - 1`, gives exactly `n` |
| Wire.ParsePacket | src/dns_packet.cpp:22-36 | the parsed header is octets 0..11, with QDCOUNT questions and ANCOUNT records |
| Wire.SwappedTtls | src/answer.cpp:33-37 | one recovered record per written record |
| Wire.QuestionSectionBytes | src/dns_packet.cpp:88-91 | the question section as emitted, question by question; QuestionSectionAppend and QuestionsRoundTrip characterise it |
| Wire.AnswerSectionBytes | src/dns_packet.cpp:93-96 | the answer section as emitted, record by record; AnswerSectionAppend and AnswersRoundTrip characterise it |
| Wire.PacketBytes | src/dns_packet.cpp:79-98 | the serialised packet; PacketLayout places the header, the questions and the records in order, and PacketRoundTrip parses it back |
| Wire.QuestionSectionAppend | src/dns_packet.cpp:88-91 | writing one more question appends exactly its octets |
| Wire.AnswerSectionAppend | src/dns_packet.cpp:93-96 | writing one more record appends exactly its octets |
| Wire.QuestionRoundTrip | src/dns_packet.cpp:185-206 | a question with a plain name, once written, is read back with the same name, type and class, and the cursor moves by the written length |
| Wire.AnswerRoundTrip | src/dns_packet.cpp:212-257 | a well-formed record is read back with every field unchanged except the TTL, whose first two octets come back exchanged; the cursor moves by the written length |
| Wire.FixedAnswerFields | src/answer.cpp:24-41 | the fixed octets of a written record lie at the offsets the reader takes them from |
| Wire.QuestionsRoundTrip | src/dns_packet.cpp:172-206 | a written question section is read back unchanged |
| Wire.AnswersRoundTrip | src/dns_packet.cpp:212-257 | a written answer section is read back with every TTL swapped |
| Wire.PacketRoundTrip | src/dns_packet.cpp:79-98 | a serialised message whose counts match, whose names are plain and whose lengths match parses back, whatever follows it; only the TTLs change |
| Wire.PacketLayout | src/dns_packet.cpp:79-98 | the header, the question section and the answer section of a serialised message lie one after the other, in that order |
| Wire.SectionsParse | src/dns_packet.cpp:31-36 | a buffer holding a header and matching sections parses to them |
| Wire.HeaderCounts | src/dns_packet.cpp:172-178 | a buffer starting with a header has that header's counts |
| Wire.SynthesizedAnswer | src/dns_packet.cpp:263-284 | the record made for one question; SynthesizedAnswerFacts gives its name, type 1, class 1, TTL 60, length 4 and data 8.8.8.8 |
| Wire.SynthesizedAnswers | src/dns_packet.cpp:260-286 | one synthesised answer per question |
| Wire.SynthesizedAnswersAppend | src/dns_packet.cpp:260-286 | one more question gets one more answer, at the end |
| Wire.SynthesizedAnswerFacts | src/dns_packet.cpp:263-284 | each synthesised record has the question's name, type 1, class 1, TTL 60, a length of 4 and the data octets 8.8.8.8; the TTL swap leaves it unchanged |
| Wire.SynthesizedAnswersFacts | src/dns_packet.cpp:260-286 | synthesised sections are well formed and unchanged by the TTL swap |
| Wire.SynthesizedAnswersRoundTrip | src/dns_packet.cpp:260-286 | synthesised records survive writing and reading unchanged |
| Wire.ResponseBuffer | src/dns_packet.cpp:354-360 | the copy is exactly 512 octets |
| Wire.ReparseRecoversQuestions | src/dns_packet.cpp:353-366 | re-reading the serialised query recovers its header and exactly its questions |
| Wire.ResponseRoundTrip | src/dns_packet.cpp:347-367 | the standalone response parses back to its header, the query's questions and their synthesised records |
| Forwarding.QuestionPacket | src/dns_packet.cpp:38-73 | the upstream query is the 12-octet query header followed by exactly the question's octets |
| Forwarding.ForwardedAnswers | src/dns_packet.cpp:288-341 | the records the forwarding loop appends; StopIgnoresLater, SkipContributesNothing, OneAnswerPerReply and AnswerCountWithSkips characterise it |
| Forwarding.ForwardedQueries | src/dns_packet.cpp:288-341 | at most one query is sent per question |
| Forwarding.StopIgnoresLater | src/dns_packet.cpp:316-321 | after the first receive failure no outcome matters (`break`) |
| Forwarding.SkipContributesNothing | src/dns_packet.cpp:290-310 | a socket or send failure contributes no answers and does not stop the loop (`continue`) |
| Forwarding.OneAnswerPerReply | src/dns_packet.cpp:330-337 | when every reply carries one record, the answers are those records, in question order |
| Forwarding.RepliesReceived | src/dns_packet.cpp:322-337 | at most one reply per question |
| Forwarding.AnswerCountWithSkips | src/dns_packet.cpp:153-154 | with one record per reply, the answers number the replies received; that equals QDCOUNT, the ANCOUNT `create_header` set, exactly when no question was skipped |
| Forwarding.SingleQuestionParses | src/dns_packet.cpp:38-73 | a one-question header followed by a plain question parses to that question |
| Forwarding.ForwardedQueryParses | src/dns_packet.cpp:38-73 | an upstream query for a plain question parses back to one question, that one, with no records |
| Forwarding.ForwardedQueriesOfPrefix | src/dns_packet.cpp:38-73 | the queries depend only on the first 12 octets of the original buffer |
| Labels.Chars | src/dns_packet.cpp:467-470 | each octet becomes the character with that code |
| Labels.LabelsText | src/dns_packet.cpp:454-477 | the decoded text is never longer than the octets it is decoded from; EncodedLabelsText proves it is the labels joined with dots |
| Labels.LabelToString | src/dns_packet.cpp:454-477 | the loop computes the label decoding: labels joined with dots, stopping at a zero octet, at the end, or at a label that runs past the end |
| Labels.Encoded | src/dns_packet.cpp:454-477 | an encoded name is not empty and ends in its terminating zero |
| Labels.EncodedLabelsText | src/dns_packet.cpp:454-477 | decoding an encoded name gives its labels joined with dots |
| Labels.CodecraftersExample | src/dns_packet.cpp:454-477 | the wire form of `codecrafters.io` decodes to that text |
| Packet.DNSPacket.Empty | src/dns_packet.cpp:27-29 | an empty packet with the cursor at 0 and empty vectors |
| Packet.DNSPacket.constructor | src/dns_packet.cpp:22-25 | the packet holds the buffer, its header, exactly the parsed questions and records, and the cursor after them |
| Packet.DNSPacket.CopyDnsPacket | src/dns_packet.cpp:31-36 | buffer, header, question section and answer section, read in order, give the parse of the buffer |
| Packet.DNSPacket.CopyBuffer | src/dns_packet.cpp:108-112 | the buffer holds the 512 octets given |
| Packet.DNSPacket.CopyHeader | src/dns_packet.cpp:118-124 | the header is octets 0..11 verbatim, and the cursor is 12 |
| Packet.DNSPacket.CreateHeader | src/dns_packet.cpp:126-166 | the header is the response header of the buffer, and the cursor is 12 |
| Packet.DNSPacket.CopyQuestionSection | src/dns_packet.cpp:172-183 | QDCOUNT questions are appended in wire order, and the cursor ends after them |
| Packet.DNSPacket.CopyQuestion | src/dns_packet.cpp:185-206 | one question is appended, and the cursor ends after it |
| Packet.DNSPacket.CopyOctets | src/dns_packet.cpp:190-202 | a fixed-size field is the next `count` octets, and the cursor moves past them |
| Packet.DNSPacket.CopyAnswerSection | src/dns_packet.cpp:212-257 | ANCOUNT records are appended in wire order, and the cursor ends after them |
| Packet.DNSPacket.CopyAnswer | src/dns_packet.cpp:220-255 | one record is appended, and the cursor ends after its data |
| Packet.DNSPacket.CopyDomainName | src/dns_packet.cpp:407-442 | the loop returns the name `ScanName` describes and leaves the cursor where it says |
| Packet.DNSPacket.CopyPointer | src/dns_packet.cpp:395-405 | the loop appends exactly the pointed-to bytes |
| Packet.DNSPacket.GetPacketVector | src/dns_packet.cpp:79-98 | the header octets, then each question, then each record, in vector order and nothing else |
| Packet.DNSPacket.GetAnswerSection | src/dns_packet.cpp:100-102 | the answer vector, unchanged |
| Packet.DNSPacket.CreateQuestionPacket | src/dns_packet.cpp:38-73 | the upstream query for a question, built from the buffer's header |
| Packet.DNSPacket.CreateAnswerSection | src/dns_packet.cpp:260-286 | one synthesised record is appended for each of the first QDCOUNT questions, in order, whatever the OPCODE |
| Packet.DNSPacket.CreateAnswerSectionWithForwardingAddress | src/dns_packet.cpp:288-341 | appends every record of every reply reached, in question order, and returns the queries sent |
| Packet.DNSPacket.AppendReplyAnswers | src/dns_packet.cpp:326-337 | a received reply is parsed, and each of its records is appended in order |
| Packet.DNSPacket.ReadIntoBuffer | src/dns_packet.cpp:355-360 | the 512-octet copy of the serialised query, with stale memory past its end |
| Packet.DNSPacket.ReadQuery | src/dns_packet.cpp:362-366 | the buffer is copied, the response header is built, and the questions are re-read |
| Packet.DNSPacket.MutateForResponse | src/dns_packet.cpp:353-367 | the packet becomes the standalone response to the copied query |
| Packet.DNSPacket.MutateForForwardResponse | src/dns_packet.cpp:375-389 | the packet becomes the forwarded response to the copied query |
| Packet.DNSPacket.RespondToPacket | src/dns_packet.cpp:347-351 | for a query the builder re-reads faithfully, the response has the response header of the query, exactly its questions, and one synthesised record each |
| Packet.DNSPacket.ForwardPacket | src/dns_packet.cpp:369-373 | for such a query, the forwarded response has the response header and exactly the query's questions, and the queries are built from that header and those questions |

## Left out
- Socket calls (`socket`, `sendto`, `recvfrom`, `close`) are replaced by one `UpstreamOutcome` per question. The forwarding address is therefore not a parameter. The `buffer[bytesRead] = '\0'` write is not modelled: `Received` carries the receive buffer as the parser sees it.
- Console output is not modelled: `perror`, the `std::cout` logging, `print_dns_packet`, `print_header`, `print_all_questions`, `print_all_answers`, `type_to_string` and `class_to_string`. `label_to_string` is modelled because it is a pure decoder.
- src/main.cpp, the server loop and argument handling, is not part of this model. Nor are the unused constants `DOMAIN_NAME` and `NAME_DELIMETER`.
- Question and Answer are value types copied into vectors and never changed after construction. Their constructors are the datatype constructors, and `get_domain_name` is the `domainName` field. The Answer getters have no bodies in the source and are not modelled.
- Packet.DNSPacket.Empty: the source leaves the arrays and counts uninitialised; here they start at zero.
- Packet.DNSPacket.ReadIntoBuffer: `mutate_for_response` reads 512 octets from a vector that may be shorter. The memory past the vector's end is the parameter `stale`.
- Questions.AddQuestionIntoReturnPacket, Answers.AddAnswerIntoReturnPacket and Packet.DNSPacket.CopyPointer push onto the caller's vector in place in the source. Here they take the vector as a sequence and return the extended sequence, which the caller assigns back. The octets appended are the same, but the model does not capture the in-place update of a shared vector.
- A `DNSPacket` passed by value to `mutate_for_response` is a reference here. The mutate methods read it before writing anything, and their contracts speak of its state on entry.
- Packet.DNSPacket.CopyOctets, Packet.DNSPacket.CopyAnswer and Packet.DNSPacket.AppendReplyAnswers are loops or loop bodies of the source factored into methods of their own. Packet.DNSPacket.ReadQuery holds the straight-line steps that both mutate paths share: copy the buffer, build the header, re-read the questions. Each does exactly what the corresponding lines do.
- Labels.Chars: an octet from 0x80 to 0xFF becomes the character U+0080 to U+00FF, whereas the source keeps it as one byte of a `std::string`. The mapping is one-to-one and keeps each value, and the text is only printed.
- Shifts and masks on octets are written as division and remainder by powers of two, for example `b & 0x3F` as `b % 0x40` and `(b & 0xC0) == 0xC0` as `b >= 0xC0`. Octets are the values 0..255, so the source's signed `char` buffer reads the same octets.
- Integer widths: cursors and counts are unbounded naturals. Every reachable value is below 512 or 65536, so nothing wraps.
