/**
 * dns/dns.go: building a query, reading a response, and the checks Resolve
 * makes between the two. The network round trip (sendQuery) is a function
 * parameter, and the random query ID is an argument.
 */
module Resolver {
  import opened Wire
  import opened Message
  import opened Records

  /** A parsed message. The authority and additional sections are never filled in. */
  datatype DnsMessage = DnsMessage(
    header: Header, questions: seq<Question>, answers: seq<ResourceRecord>,
    authority: seq<ResourceRecord>, additional: seq<ResourceRecord>)

  datatype QuestionError = QuestionNameFailed(cause: DecodeError) | TruncatedQuestion

  /** A parsed question and the number of bytes it occupies. */
  datatype ParsedQuestion = ParsedQuestion(question: Question, consumed: nat)

  datatype ResponseError =
    | BadHeader(cause: HeaderError)
    | ServerFailed
    | NameNotFound
    | BadQuestion(index: nat, questionCause: QuestionError)
    | BadAnswer(index: nat, answerCause: RecordError)

  /** Parsed entries of a section and the offset the parse ended at. */
  datatype Section<T> = Section(items: seq<T>, end: nat)

  /** The flags of a query: a standard query with recursion desired. */
  const QueryFlags: u16 := 0x0100

  /** The class IN. */
  const ClassInternet: u16 := 1

  const RcodeServerFailure := 2
  const RcodeNameError := 3

  /** The response code: the low four bits of the flags. */
  function Rcode(flags: u16): (c: nat)
    ensures c < 16 && (flags - c) % 16 == 0
  {
    flags % 16
  }

  // ---------------------------------------------------------------------------
  // Questions
  // ---------------------------------------------------------------------------

  /**
   * parseQuestion: a name (compression allowed) followed by type and class;
   * the count it returns is relative to `offset`: the name's bytes plus four.
   */
  function ParseQuestion(msg: seq<byte>, offset: nat): (r: Result<ParsedQuestion, QuestionError>)
    ensures r.Err? && r.error.QuestionNameFailed? <==> DecodeAt(msg, offset).Err?
    ensures r.Ok? ==>
      var n := DecodeAt(msg, offset).value.consumed;
      && r.value.consumed == n + 4 && offset + n + 4 <= |msg|
      && r.value.question == Question(DecodeAt(msg, offset).value.name, Uint16At(msg, offset + n), Uint16At(msg, offset + n + 2))
  {
    match DecodeAt(msg, offset)
    case Err(e) => Err(QuestionNameFailed(e))
    case Ok(name) =>
      if offset + name.consumed + 4 > |msg| then Err(TruncatedQuestion)
      else
        var q := Question(name.name, Uint16At(msg, offset + name.consumed), Uint16At(msg, offset + name.consumed + 2));
        Ok(ParsedQuestion(q, name.consumed + 4))
  }

  /** A packed question is read back, and the count returned is its length. */
  lemma QuestionRoundTrip(msg: seq<byte>, offset: nat, q: Question)
    requires PlainName(q.name) && StoredAt(msg, offset, PackQuestion(q).value)
    ensures ParseQuestion(msg, offset) == Ok(ParsedQuestion(q, |q.name| + 6))
  {
    QuestionParts(msg, offset, q);
  }

  /** Where the name, type and class of a written question are read back. */
  lemma QuestionParts(msg: seq<byte>, offset: nat, q: Question)
    requires PlainName(q.name) && StoredAt(msg, offset, PackQuestion(q).value)
    ensures DecodeAt(msg, offset) == Ok(Decoded(q.name, |q.name| + 2))
    ensures offset + |q.name| + 6 <= |msg|
    ensures Uint16At(msg, offset + |q.name| + 2) == q.rtype && Uint16At(msg, offset + |q.name| + 4) == q.dnsClass
  {
    var packed := PackQuestion(q).value;
    var n := |q.name|;
    StoredPrefix(msg, offset, packed, n + 2);
    DecodeEncoded(msg, offset, q.name, JumpBudget(msg));
    Uint16AtStored(msg, offset, packed, n + 2);
    Uint16AtStored(msg, offset, packed, n + 4);
  }

  /** The question section from question `done` on: each question starts where the previous one ended. */
  function QuestionsFrom(msg: seq<byte>, offset: nat, done: nat, count: nat): (r: Result<Section<Question>, ResponseError>)
    requires done <= count
    ensures r.Ok? ==> |r.value.items| == count - done
    ensures r.Err? ==> r.error.BadQuestion? && done <= r.error.index < count
    decreases count - done
  {
    if done == count then Ok(Section([], offset))
    else
      match ParseQuestion(msg, offset)
      case Err(e) => Err(BadQuestion(done, e))
      case Ok(p) =>
        match QuestionsFrom(msg, offset + p.consumed, done + 1, count)
        case Err(e) => Err(e)
        case Ok(rest) => Ok(Section([p.question] + rest.items, rest.end))
  }

  // ---------------------------------------------------------------------------
  // Answers
  // ---------------------------------------------------------------------------

  /**
   * The answer loop of parseResponse as written: ParseResourceRecord returns
   * the absolute offset after the record, and the loop adds it to the
   * current offset, so every answer after the first is read from the wrong
   * place.
   */
  function AnswersAsWritten(msg: seq<byte>, offset: nat, done: nat, count: nat): (r: Result<seq<ResourceRecord>, ResponseError>)
    requires done <= count
    ensures r.Ok? ==> |r.value| == count - done
    ensures r.Err? ==> r.error.BadAnswer? && done <= r.error.index < count
    decreases count - done
  {
    if done == count then Ok([])
    else
      match ParseResourceRecord(msg, offset)
      case Err(e) => Err(BadAnswer(done, e))
      case Ok(p) =>
        match AnswersAsWritten(msg, offset + p.next, done + 1, count)
        case Err(e) => Err(e)
        case Ok(rest) => Ok([p.rr] + rest)
  }

  /** The answer loop as intended: each record starts where the previous one ended. */
  function Answers(msg: seq<byte>, offset: nat, done: nat, count: nat): (r: Result<seq<ResourceRecord>, ResponseError>)
    requires done <= count
    ensures r.Ok? ==> |r.value| == count - done
    ensures r.Err? ==> r.error.BadAnswer? && done <= r.error.index < count
    decreases count - done
  {
    if done == count then Ok([])
    else
      match ParseResourceRecord(msg, offset)
      case Err(e) => Err(BadAnswer(done, e))
      case Ok(p) =>
        match Answers(msg, p.next, done + 1, count)
        case Err(e) => Err(e)
        case Ok(rest) => Ok([p.rr] + rest)
  }

  // ---------------------------------------------------------------------------
  // Responses
  // ---------------------------------------------------------------------------

  /**
   * The part of parseResponse before the answers: the header, the two
   * response codes that are errors (2 and 3 only, checked before anything
   * else is read), and the question section.
   */
  function Preamble(msg: seq<byte>): (r: Result<(Header, Section<Question>), ResponseError>)
    ensures r.Err? && r.error.BadHeader? <==> |msg| < HeaderSize
    ensures r == Err(ServerFailed) <==> |msg| >= HeaderSize && Rcode(Uint16At(msg, 2)) == RcodeServerFailure
    ensures r == Err(NameNotFound) <==> |msg| >= HeaderSize && Rcode(Uint16At(msg, 2)) == RcodeNameError
    ensures r.Ok? ==> UnpackHeader(msg) == Ok(r.value.0) && |r.value.1.items| == r.value.0.qdCount
  {
    match UnpackHeader(msg)
    case Err(e) => Err(BadHeader(e))
    case Ok(header) =>
      var rcode := Rcode(header.flags);
      if rcode == RcodeServerFailure then Err(ServerFailed)
      else if rcode == RcodeNameError then Err(NameNotFound)
      else
        match QuestionsFrom(msg, HeaderSize, 0, header.qdCount)
        case Err(e) => Err(e)
        case Ok(questions) => Ok((header, questions))
  }

  /** parseResponse as written. */
  function ResponseAsWritten(msg: seq<byte>): (r: Result<DnsMessage, ResponseError>)
    ensures r.Ok? ==> Preamble(msg).Ok? && r.value.header == Preamble(msg).value.0
    ensures r.Ok? ==> |r.value.questions| == r.value.header.qdCount && |r.value.answers| == r.value.header.anCount
    ensures r.Ok? ==> r.value.authority == [] && r.value.additional == []
    ensures Preamble(msg).Err? ==> r == Err(Preamble(msg).error)
  {
    match Preamble(msg)
    case Err(e) => Err(e)
    case Ok((header, questions)) =>
      match AnswersAsWritten(msg, questions.end, 0, header.anCount)
      case Err(e) => Err(e)
      case Ok(answers) => Ok(DnsMessage(header, questions.items, answers, [], []))
  }

  /** parseResponse with the answer offsets as intended. */
  function Response(msg: seq<byte>): (r: Result<DnsMessage, ResponseError>)
    ensures r.Ok? ==> Preamble(msg).Ok? && r.value.header == Preamble(msg).value.0
    ensures r.Ok? ==> |r.value.questions| == r.value.header.qdCount && |r.value.answers| == r.value.header.anCount
    ensures r.Ok? ==> r.value.authority == [] && r.value.additional == []
    ensures Preamble(msg).Err? ==> r == Err(Preamble(msg).error)
  {
    match Preamble(msg)
    case Err(e) => Err(e)
    case Ok((header, questions)) =>
      match Answers(msg, questions.end, 0, header.anCount)
      case Err(e) => Err(e)
      case Ok(answers) => Ok(DnsMessage(header, questions.items, answers, [], []))
  }

  function ExtendSection(prefix: seq<Question>, r: Result<Section<Question>, ResponseError>): Result<Section<Question>, ResponseError>
  {
    match r
    case Err(e) => Err(e)
    case Ok(s) => Ok(Section(prefix + s.items, s.end))
  }

  function ExtendRecords(prefix: seq<ResourceRecord>, r: Result<seq<ResourceRecord>, ResponseError>): Result<seq<ResourceRecord>, ResponseError>
  {
    match r
    case Err(e) => Err(e)
    case Ok(s) => Ok(prefix + s)
  }

  /** The question loop of parseResponse: each question is read where the previous one ended. */
  method ParseQuestions(msg: seq<byte>, start: nat, count: nat) returns (r: Result<Section<Question>, ResponseError>)
    ensures r == QuestionsFrom(msg, start, 0, count)
  {
    var offset: nat := start;
    var questions: seq<Question> := [];
    ghost var all := QuestionsFrom(msg, start, 0, count);
    assert all.Ok? ==> [] + all.value.items == all.value.items;
    for i := 0 to count
      invariant QuestionsFrom(msg, start, 0, count) == ExtendSection(questions, QuestionsFrom(msg, offset, i, count))
    {
      var parsed := ParseQuestion(msg, offset);
      if parsed.Err? {
        return Err(BadQuestion(i, parsed.error));
      }
      ghost var rest := QuestionsFrom(msg, offset + parsed.value.consumed, i + 1, count);
      assert QuestionsFrom(msg, offset, i, count) == ExtendSection([parsed.value.question], rest);
      if rest.Ok? {
        assert questions + ([parsed.value.question] + rest.value.items) == questions + [parsed.value.question] + rest.value.items;
      }
      questions := questions + [parsed.value.question];
      offset := offset + parsed.value.consumed;
    }
    assert questions + [] == questions;
    return Ok(Section(questions, offset));
  }

  /** One turn of the answer loop as written: the record read joins those already read. */
  lemma AnswerStep(msg: seq<byte>, offset: nat, done: nat, count: nat, answers: seq<ResourceRecord>, parsed: ParsedRecord)
    requires done < count && ParseResourceRecord(msg, offset) == Ok(parsed)
    ensures ExtendRecords(answers, AnswersAsWritten(msg, offset, done, count))
         == ExtendRecords(answers + [parsed.rr], AnswersAsWritten(msg, offset + parsed.next, done + 1, count))
  {
    var rest := AnswersAsWritten(msg, offset + parsed.next, done + 1, count);
    if rest.Ok? {
      assert answers + ([parsed.rr] + rest.value) == answers + [parsed.rr] + rest.value;
    }
  }

  /** The answer loop stops at the first record that cannot be read. */
  lemma AnswerStop(msg: seq<byte>, offset: nat, done: nat, count: nat, answers: seq<ResourceRecord>)
    requires done < count && ParseResourceRecord(msg, offset).Err?
    ensures ExtendRecords(answers, AnswersAsWritten(msg, offset, done, count))
         == Err(BadAnswer(done, ParseResourceRecord(msg, offset).error))
  {
  }

  /** The answer loop of parseResponse, advancing the offset as written. */
  method ParseAnswersAsWritten(msg: seq<byte>, start: nat, count: nat) returns (r: Result<seq<ResourceRecord>, ResponseError>)
    ensures r == AnswersAsWritten(msg, start, 0, count)
  {
    var offset: nat := start;
    var answers: seq<ResourceRecord> := [];
    ghost var all := AnswersAsWritten(msg, start, 0, count);
    assert all.Ok? ==> [] + all.value == all.value;
    for i := 0 to count
      invariant all == ExtendRecords(answers, AnswersAsWritten(msg, offset, i, count))
    {
      var parsed := ParseResourceRecord(msg, offset);
      if parsed.Err? {
        AnswerStop(msg, offset, i, count, answers);
        return Err(BadAnswer(i, parsed.error));
      }
      var record := parsed.value;
      AnswerStep(msg, offset, i, count, answers, record);
      answers := answers + [record.rr];
      offset := offset + record.next;
    }
    assert answers + [] == answers;
    return Ok(answers);
  }

  /**
   * parseResponse: the header, the response codes 2 and 3 as errors, then
   * the question and answer loops. Authority and additional records are
   * not read.
   */
  method ParseResponse(msg: seq<byte>) returns (r: Result<DnsMessage, ResponseError>)
    ensures r == ResponseAsWritten(msg)
  {
    var unpacked := UnpackHeader(msg);
    if unpacked.Err? {
      return Err(BadHeader(unpacked.error));
    }
    var header := unpacked.value;
    var responseCode := header.flags % 16;
    if responseCode == 2 {
      return Err(ServerFailed);
    }
    if responseCode == 3 {
      return Err(NameNotFound);
    }
    var questions := ParseQuestions(msg, HeaderSize, header.qdCount);
    if questions.Err? {
      return Err(questions.error);
    }
    var answers := ParseAnswersAsWritten(msg, questions.value.end, header.anCount);
    if answers.Err? {
      return Err(answers.error);
    }
    return Ok(DnsMessage(header, questions.value.items, answers.value, [], []));
  }

  // ---------------------------------------------------------------------------
  // Properties of response parsing
  // ---------------------------------------------------------------------------

  /** Every question's name can be written without compression. */
  predicate PlainQuestions(qs: seq<Question>)
  {
    qs == [] || (PlainName(qs[0].name) && PlainQuestions(qs[1..]))
  }

  /** Every record can be written without compression. */
  predicate WellFormedRecords(rrs: seq<ResourceRecord>)
  {
    rrs == [] || (WellFormed(rrs[0]) && WellFormedRecords(rrs[1..]))
  }

  /** A question section written without compression. */
  function PackQuestions(qs: seq<Question>): seq<byte>
    requires PlainQuestions(qs)
  {
    if qs == [] then [] else PackQuestion(qs[0]).value + PackQuestions(qs[1..])
  }

  /** Records written one after the other without compression. */
  function PackRecords(rrs: seq<ResourceRecord>): seq<byte>
    requires WellFormedRecords(rrs)
  {
    if rrs == [] then [] else PackRecord(rrs[0]) + PackRecords(rrs[1..])
  }

  /** The number of bytes a question section takes when written without compression. */
  function QuestionsSize(qs: seq<Question>): nat
  {
    if qs == [] then 0 else |qs[0].name| + 6 + QuestionsSize(qs[1..])
  }

  /** Each question is written, uncompressed, just after the previous one. */
  predicate QuestionsStored(msg: seq<byte>, offset: nat, qs: seq<Question>)
    decreases |qs|
  {
    qs == [] ||
    (&& PlainName(qs[0].name)
     && StoredAt(msg, offset, PackQuestion(qs[0]).value)
     && QuestionsStored(msg, offset + |qs[0].name| + 6, qs[1..]))
  }

  /** The question loop reads back a written question section and ends just after it. */
  lemma QuestionsRoundTrip(msg: seq<byte>, offset: nat, qs: seq<Question>, done: nat, count: nat)
    requires PlainQuestions(qs) && done + |qs| == count && StoredAt(msg, offset, PackQuestions(qs))
    ensures QuestionsFrom(msg, offset, done, count) == Ok(Section(qs, offset + |PackQuestions(qs)|))
  {
    QuestionsLaidOut(msg, offset, qs);
    QuestionsReadBack(msg, offset, qs, done, count);
  }

  /** A written question section holds each question just after the previous one. */
  lemma {:induction false} QuestionsLaidOut(msg: seq<byte>, offset: nat, qs: seq<Question>)
    requires PlainQuestions(qs) && StoredAt(msg, offset, PackQuestions(qs))
    ensures QuestionsStored(msg, offset, qs) && |PackQuestions(qs)| == QuestionsSize(qs)
    decreases |qs|
  {
    if qs != [] {
      PackQuestionsCons(qs);
      StoredSplit(msg, offset, PackQuestions(qs), PackQuestion(qs[0]).value, PackQuestions(qs[1..]));
      QuestionsLaidOut(msg, offset + |qs[0].name| + 6, qs[1..]);
    }
  }

  lemma PackQuestionsCons(qs: seq<Question>)
    requires PlainQuestions(qs) && qs != []
    ensures PlainName(qs[0].name) && PlainQuestions(qs[1..])
    ensures PackQuestions(qs) == PackQuestion(qs[0]).value + PackQuestions(qs[1..])
    ensures |PackQuestion(qs[0]).value| == |qs[0].name| + 6
  {
  }

  /** The question loop reads back questions stored one after the other. */
  lemma {:induction false} QuestionsReadBack(msg: seq<byte>, offset: nat, qs: seq<Question>, done: nat, count: nat)
    requires QuestionsStored(msg, offset, qs) && done + |qs| == count
    ensures QuestionsFrom(msg, offset, done, count) == Ok(Section(qs, offset + QuestionsSize(qs)))
    decreases |qs|
  {
    if qs != [] {
      var n := |qs[0].name| + 6;
      QuestionRoundTrip(msg, offset, qs[0]);
      QuestionsReadBack(msg, offset + n, qs[1..], done + 1, count);
      QuestionsStep(msg, offset, done, count, qs, n, offset + QuestionsSize(qs));
    }
  }

  /** A question read at `offset` heads the questions read after it. */
  lemma QuestionsStep(msg: seq<byte>, offset: nat, done: nat, count: nat, qs: seq<Question>, consumed: nat, end: nat)
    requires done < count && qs != []
    requires ParseQuestion(msg, offset) == Ok(ParsedQuestion(qs[0], consumed))
    requires QuestionsFrom(msg, offset + consumed, done + 1, count) == Ok(Section(qs[1..], end))
    ensures QuestionsFrom(msg, offset, done, count) == Ok(Section(qs, end))
  {
    assert [qs[0]] + qs[1..] == qs;
  }

  /** Each record is written just after the previous one. */
  predicate RecordsStored(msg: seq<byte>, offset: nat, rrs: seq<ResourceRecord>)
    decreases |rrs|
  {
    rrs == [] ||
    (&& WellFormed(rrs[0])
     && StoredAt(msg, offset, PackRecord(rrs[0]))
     && RecordsStored(msg, offset + |PackRecord(rrs[0])|, rrs[1..]))
  }

  /** The corrected answer loop reads back records written one after the other. */
  lemma AnswersRoundTrip(msg: seq<byte>, offset: nat, rrs: seq<ResourceRecord>, done: nat, count: nat)
    requires WellFormedRecords(rrs) && done + |rrs| == count && StoredAt(msg, offset, PackRecords(rrs))
    ensures Answers(msg, offset, done, count) == Ok(rrs)
  {
    RecordsLaidOut(msg, offset, rrs);
    AnswersReadBack(msg, offset, rrs, done, count);
  }

  /** Written records hold each record just after the previous one. */
  lemma {:induction false} RecordsLaidOut(msg: seq<byte>, offset: nat, rrs: seq<ResourceRecord>)
    requires WellFormedRecords(rrs) && StoredAt(msg, offset, PackRecords(rrs))
    ensures RecordsStored(msg, offset, rrs)
    decreases |rrs|
  {
    if rrs != [] {
      PackRecordsCons(rrs);
      StoredSplit(msg, offset, PackRecords(rrs), PackRecord(rrs[0]), PackRecords(rrs[1..]));
      RecordsLaidOut(msg, offset + |PackRecord(rrs[0])|, rrs[1..]);
    }
  }

  lemma PackRecordsCons(rrs: seq<ResourceRecord>)
    requires WellFormedRecords(rrs) && rrs != []
    ensures WellFormed(rrs[0]) && WellFormedRecords(rrs[1..])
    ensures PackRecords(rrs) == PackRecord(rrs[0]) + PackRecords(rrs[1..])
  {
  }

  /** The corrected answer loop reads back records stored one after the other. */
  lemma {:induction false} AnswersReadBack(msg: seq<byte>, offset: nat, rrs: seq<ResourceRecord>, done: nat, count: nat)
    requires RecordsStored(msg, offset, rrs) && done + |rrs| == count
    ensures Answers(msg, offset, done, count) == Ok(rrs)
    decreases |rrs|
  {
    if rrs != [] {
      var next := offset + |PackRecord(rrs[0])|;
      RecordRoundTrip(msg, offset, rrs[0]);
      AnswersReadBack(msg, next, rrs[1..], done + 1, count);
      AnswersStep(msg, offset, done, count, rrs, next);
    }
  }

  /** A record read at `offset` heads the records read after it by the corrected loop. */
  lemma AnswersStep(msg: seq<byte>, offset: nat, done: nat, count: nat, rrs: seq<ResourceRecord>, next: nat)
    requires done < count && rrs != []
    requires ParseResourceRecord(msg, offset) == Ok(ParsedRecord(rrs[0], next))
    requires Answers(msg, next, done + 1, count) == Ok(rrs[1..])
    ensures Answers(msg, offset, done, count) == Ok(rrs)
  {
    assert [rrs[0]] + rrs[1..] == rrs;
  }

  /**
   * A response written as a header, a question section and an answer
   * section is read back, whatever follows (authority and additional
   * records are not read), unless its response code is 2 or 3.
   */
  lemma ResponseRoundTrip(h: Header, qs: seq<Question>, rrs: seq<ResourceRecord>, rest: seq<byte>)
    requires h.qdCount == |qs| && h.anCount == |rrs|
    requires Rcode(h.flags) != RcodeServerFailure && Rcode(h.flags) != RcodeNameError
    requires PlainQuestions(qs) && WellFormedRecords(rrs)
    ensures Response(PackHeader(h) + PackQuestions(qs) + PackRecords(rrs) + rest) == Ok(DnsMessage(h, qs, rrs, [], []))
  {
    var header, questions, answers := PackHeader(h), PackQuestions(qs), PackRecords(rrs);
    Layout(header, questions, answers, rest, HeaderSize);
    HeaderRoundTrip(h, questions + answers + rest);
    ResponseFromParts(header + questions + answers + rest, h, qs, rrs);
  }

  /** parseResponse as written reads such a response back too, when it has at most one answer. */
  lemma ResponseRoundTripAsWritten(h: Header, qs: seq<Question>, rrs: seq<ResourceRecord>, rest: seq<byte>)
    requires h.qdCount == |qs| && h.anCount == |rrs| && |rrs| <= 1
    requires Rcode(h.flags) != RcodeServerFailure && Rcode(h.flags) != RcodeNameError
    requires PlainQuestions(qs) && WellFormedRecords(rrs)
    ensures ResponseAsWritten(PackHeader(h) + PackQuestions(qs) + PackRecords(rrs) + rest) == Ok(DnsMessage(h, qs, rrs, [], []))
  {
    var header := PackHeader(h);
    var msg := header + PackQuestions(qs) + PackRecords(rrs) + rest;
    ResponseRoundTrip(h, qs, rrs, rest);
    assert Uint16At(msg, 6) == Uint16At(header, 6) by {
      assert msg[6] == header[6] && msg[7] == header[7];
    }
    ResponseAgreement(msg);
  }

  /** A message holding a header, then written questions, then written records, is read as those. */
  lemma ResponseFromParts(msg: seq<byte>, h: Header, qs: seq<Question>, rrs: seq<ResourceRecord>)
    requires UnpackHeader(msg) == Ok(h) && h.qdCount == |qs| && h.anCount == |rrs|
    requires Rcode(h.flags) != RcodeServerFailure && Rcode(h.flags) != RcodeNameError
    requires PlainQuestions(qs) && WellFormedRecords(rrs)
    requires StoredAt(msg, HeaderSize, PackQuestions(qs))
    requires StoredAt(msg, HeaderSize + |PackQuestions(qs)|, PackRecords(rrs))
    ensures Response(msg) == Ok(DnsMessage(h, qs, rrs, [], []))
  {
    var end := HeaderSize + |PackQuestions(qs)|;
    assert QuestionsFrom(msg, HeaderSize, 0, |qs|) == Ok(Section(qs, end)) by {
      QuestionsAfterHeader(msg, qs);
    }
    assert Answers(msg, end, 0, |rrs|) == Ok(rrs) by {
      AnswersRoundTrip(msg, end, rrs, 0, |rrs|);
    }
    ResponseFromSections(msg, h, Section(qs, end), rrs);
  }

  /** Written questions after the header are read back as themselves. */
  lemma QuestionsAfterHeader(msg: seq<byte>, qs: seq<Question>)
    requires PlainQuestions(qs) && StoredAt(msg, HeaderSize, PackQuestions(qs))
    ensures QuestionsFrom(msg, HeaderSize, 0, |qs|) == Ok(Section(qs, HeaderSize + |PackQuestions(qs)|))
  {
    QuestionsRoundTrip(msg, HeaderSize, qs, 0, |qs|);
  }

  /** Where the parts of a message written one after the other are found again. */
  lemma Layout<T>(a: seq<T>, b: seq<T>, c: seq<T>, d: seq<T>, n: nat)
    requires n == |a|
    ensures a + b + c + d == a + (b + c + d)
    ensures StoredAt(a + b + c + d, n, b) && StoredAt(a + b + c + d, n + |b|, c)
  {
    var m := a + b + c + d;
    assert m == a + (b + c + d);
    forall i | 0 <= i < |b| ensures At(m, n, i) == b[i] {
      assert m[|a| + i] == (a + b)[|a| + i];
    }
    var next := n + |b|;
    forall i | 0 <= i < |c| ensures At(m, next, i) == c[i] {
      assert m[|a| + |b| + i] == (a + b + c)[|a| + |b| + i];
    }
  }

  /** A response whose header, questions and answers read correctly is read as those. */
  lemma ResponseFromSections(msg: seq<byte>, h: Header, questions: Section<Question>, answers: seq<ResourceRecord>)
    requires UnpackHeader(msg) == Ok(h)
    requires Rcode(h.flags) != RcodeServerFailure && Rcode(h.flags) != RcodeNameError
    requires QuestionsFrom(msg, HeaderSize, 0, h.qdCount) == Ok(questions)
    requires Answers(msg, questions.end, 0, h.anCount) == Ok(answers)
    ensures Response(msg) == Ok(DnsMessage(h, questions.items, answers, [], []))
  {
    assert Preamble(msg) == Ok((h, questions));
  }

  /** With at most one answer the answer loop as written reads the same as the corrected one. */
  lemma OneAnswerAgrees(msg: seq<byte>, offset: nat, done: nat, count: nat)
    requires done <= count <= done + 1
    ensures AnswersAsWritten(msg, offset, done, count) == Answers(msg, offset, done, count)
  {
  }

  lemma ResponseAgreement(msg: seq<byte>)
    requires |msg| >= HeaderSize && Uint16At(msg, 6) <= 1
    ensures ResponseAsWritten(msg) == Response(msg)
  {
    var pre := Preamble(msg);
    if pre.Ok? {
      OneAnswerAgrees(msg, pre.value.1.end, 0, pre.value.0.anCount);
    }
  }

  /**
   * The answer loop as written reads the second answer at the first
   * answer's offset plus the absolute offset after it. In a response with
   * two answers where the second ends the message and is no longer than
   * everything before the answers, that is past the end of the message:
   * the response is refused, while the corrected loop reads both answers.
   */
  lemma SecondAnswerMisread(msg: seq<byte>, h: Header, qs: seq<Question>, qEnd: nat,
                            first: ResourceRecord, mid: nat, second: ResourceRecord)
    requires UnpackHeader(msg) == Ok(h) && h.anCount == 2
    requires Rcode(h.flags) != RcodeServerFailure && Rcode(h.flags) != RcodeNameError
    requires QuestionsFrom(msg, HeaderSize, 0, h.qdCount) == Ok(Section(qs, qEnd))
    requires ParseResourceRecord(msg, qEnd) == Ok(ParsedRecord(first, mid))
    requires ParseResourceRecord(msg, mid) == Ok(ParsedRecord(second, |msg|))
    requires |msg| - mid <= qEnd
    ensures Response(msg) == Ok(DnsMessage(h, qs, [first, second], [], []))
    ensures ResponseAsWritten(msg) == Err(BadAnswer(1, OwnerNameFailed(OffsetOutOfBounds(qEnd + mid))))
  {
    TwoAnswers(msg, qEnd, first, mid, second, |msg|);
    ResponseFromSections(msg, h, Section(qs, qEnd), [first, second]);
    SecondRecordMisplaced(msg, qEnd, first, mid);
    AnswersRefused(msg, h, Section(qs, qEnd), BadAnswer(1, OwnerNameFailed(OffsetOutOfBounds(qEnd + mid))));
  }

  /** The corrected loop reads a second record where the first one ended. */
  lemma TwoAnswers(msg: seq<byte>, offset: nat, first: ResourceRecord, mid: nat, second: ResourceRecord, end: nat)
    requires ParseResourceRecord(msg, offset) == Ok(ParsedRecord(first, mid))
    requires ParseResourceRecord(msg, mid) == Ok(ParsedRecord(second, end))
    ensures Answers(msg, offset, 0, 2) == Ok([first, second])
  {
    assert Answers(msg, end, 2, 2) == Ok([]);
    assert [second] + [] == [second] && [first] + [second] == [first, second];
  }

  /**
   * When the first answer ends at `next`, the loop as written looks for the
   * second at `offset + next`; if that is past the message, the answers are
   * refused there.
   */
  lemma SecondRecordMisplaced(msg: seq<byte>, offset: nat, first: ResourceRecord, next: nat)
    requires ParseResourceRecord(msg, offset) == Ok(ParsedRecord(first, next))
    requires offset + next >= |msg|
    ensures AnswersAsWritten(msg, offset, 0, 2) == Err(BadAnswer(1, OwnerNameFailed(OffsetOutOfBounds(offset + next))))
  {
    RecordPastEnd(msg, offset + next);
    assert AnswersAsWritten(msg, offset + next, 1, 2) == Err(BadAnswer(1, OwnerNameFailed(OffsetOutOfBounds(offset + next))));
  }

  /** A response whose header and questions read correctly is refused as its answer loop is. */
  lemma AnswersRefused(msg: seq<byte>, h: Header, questions: Section<Question>, e: ResponseError)
    requires UnpackHeader(msg) == Ok(h)
    requires Rcode(h.flags) != RcodeServerFailure && Rcode(h.flags) != RcodeNameError
    requires QuestionsFrom(msg, HeaderSize, 0, h.qdCount) == Ok(questions)
    requires AnswersAsWritten(msg, questions.end, 0, h.anCount) == Err(e)
    ensures ResponseAsWritten(msg) == Err(e)
  {
    assert Preamble(msg) == Ok((h, questions));
  }

  /** A record cannot start past the end of the message. */
  lemma RecordPastEnd(msg: seq<byte>, offset: nat)
    requires offset >= |msg|
    ensures ParseResourceRecord(msg, offset) == Err(OwnerNameFailed(OffsetOutOfBounds(offset)))
  {
    assert ScanLabels(msg, offset, JumpBudget(msg)) == Err(OffsetOutOfBounds(offset));
  }

  // ---------------------------------------------------------------------------
  // Queries and Resolve
  // ---------------------------------------------------------------------------

  /** The header of a query: the given ID, recursion desired, one question. */
  function QueryHeader(id: u16): Header
  {
    Header(id, QueryFlags, 1, 0, 0, 0)
  }

  /**
   * buildQuery with the random ID as an argument: a 12-byte header with
   * that ID, flags 0x0100 and one question, then the packed question of
   * class IN. Fails exactly when the name cannot be encoded.
   */
  function BuildQuery(id: u16, domain: seq<byte>, rtype: RecordType): (r: Result<seq<byte>, EncodeError>)
    ensures r.Ok? <==> EncodeName(domain).Ok?
    ensures r.Ok? ==> |r.value| == HeaderSize + |domain| + 6
    ensures r.Ok? ==> UnpackHeader(r.value) == Ok(Header(id, QueryFlags, 1, 0, 0, 0))
    ensures r.Ok? ==> r.value[HeaderSize..] == PackQuestion(Question(domain, rtype, ClassInternet)).value
  {
    match PackQuestion(Question(domain, rtype, ClassInternet))
    case Err(e) => Err(e)
    case Ok(question) =>
      HeaderRoundTrip(QueryHeader(id), question);
      Ok(PackHeader(QueryHeader(id)) + question)
  }

  /** A query is itself a well-formed message: reading it gives back its header and its one question. */
  lemma QueryRoundTrip(id: u16, domain: seq<byte>, rtype: RecordType)
    requires PlainName(domain)
    ensures BuildQuery(id, domain, rtype).Ok?
    ensures Response(BuildQuery(id, domain, rtype).value)
         == Ok(DnsMessage(QueryHeader(id), [Question(domain, rtype, ClassInternet)], [], [], []))
    ensures ResponseAsWritten(BuildQuery(id, domain, rtype).value) == Response(BuildQuery(id, domain, rtype).value)
  {
    var q := Question(domain, rtype, ClassInternet);
    var query := BuildQuery(id, domain, rtype).value;
    assert PlainQuestions([q]) && [q][1..] == [];
    assert PackQuestions([q]) == PackQuestion(q).value + [];
    assert WellFormedRecords([]);
    assert query == PackHeader(QueryHeader(id)) + PackQuestions([q]) + PackRecords([]) + [];
    ResponseRoundTrip(QueryHeader(id), [q], [], []);
    ResponseAgreement(query);
  }

  datatype TransportError = TransportError(reason: string)

  datatype ResolveError =
    | BuildFailed(cause: EncodeError)
    | SendFailed(transport: TransportError)
    | ParseFailed(response: ResponseError)
    | IdMismatch(got: u16, want: u16)

  /**
   * Resolve: build the query, exchange it (`exchange` stands for sendQuery),
   * parse the reply with parseResponse as written, and only then compare its
   * ID with the query's. A result is returned only when the reply parses and
   * carries the query's ID.
   */
  function Resolve(id: u16, domain: seq<byte>, rtype: RecordType, exchange: seq<byte> -> Result<seq<byte>, TransportError>)
    : (r: Result<DnsMessage, ResolveError>)
    ensures r.Err? && r.error.BuildFailed? <==> EncodeName(domain).Err?
    ensures r.Ok? ==>
      && BuildQuery(id, domain, rtype).Ok?
      && exchange(BuildQuery(id, domain, rtype).value).Ok?
      && ResponseAsWritten(exchange(BuildQuery(id, domain, rtype).value).value) == Ok(r.value)
      && r.value.header.id == id
  {
    match BuildQuery(id, domain, rtype)
    case Err(e) => Err(BuildFailed(e))
    case Ok(query) =>
      match exchange(query)
      case Err(e) => Err(SendFailed(e))
      case Ok(reply) =>
        match ResponseAsWritten(reply)
        case Err(e) => Err(ParseFailed(e))
        case Ok(msg) =>
          if msg.header.id != id then Err(IdMismatch(msg.header.id, id)) else Ok(msg)
  }

  /** Resolve with the corrected answer loop: the same steps, parsing the reply with Response. */
  function ResolveCorrected(id: u16, domain: seq<byte>, rtype: RecordType, exchange: seq<byte> -> Result<seq<byte>, TransportError>)
    : (r: Result<DnsMessage, ResolveError>)
    ensures r.Err? && r.error.BuildFailed? <==> EncodeName(domain).Err?
    ensures r.Ok? ==>
      && BuildQuery(id, domain, rtype).Ok?
      && exchange(BuildQuery(id, domain, rtype).value).Ok?
      && Response(exchange(BuildQuery(id, domain, rtype).value).value) == Ok(r.value)
      && r.value.header.id == id
  {
    match BuildQuery(id, domain, rtype)
    case Err(e) => Err(BuildFailed(e))
    case Ok(query) =>
      match exchange(query)
      case Err(e) => Err(SendFailed(e))
      case Ok(reply) =>
        match Response(reply)
        case Err(e) => Err(ParseFailed(e))
        case Ok(msg) =>
          if msg.header.id != id then Err(IdMismatch(msg.header.id, id)) else Ok(msg)
  }

  /**
   * The reply is parsed before its ID is compared: a reply that does not
   * parse, or that carries NXDOMAIN or SERVFAIL, is reported as such even
   * when its ID is not the query's.
   */
  lemma ParseErrorsFirst(id: u16, domain: seq<byte>, rtype: RecordType, exchange: seq<byte> -> Result<seq<byte>, TransportError>)
    requires EncodeName(domain).Ok? && exchange(BuildQuery(id, domain, rtype).value).Ok?
    ensures var reply := exchange(BuildQuery(id, domain, rtype).value).value;
      && (ResponseAsWritten(reply).Err? ==> Resolve(id, domain, rtype, exchange) == Err(ParseFailed(ResponseAsWritten(reply).error)))
      && ((|reply| >= HeaderSize && Rcode(Uint16At(reply, 2)) == RcodeNameError)
          ==> Resolve(id, domain, rtype, exchange) == Err(ParseFailed(NameNotFound)))
      && ((ResponseAsWritten(reply).Ok? && ResponseAsWritten(reply).value.header.id != id)
          ==> Resolve(id, domain, rtype, exchange) == Err(IdMismatch(ResponseAsWritten(reply).value.header.id, id)))
  {
  }

  /** The two resolvers agree on every reply with at most one answer. */
  lemma ResolveAgreement(id: u16, domain: seq<byte>, rtype: RecordType, exchange: seq<byte> -> Result<seq<byte>, TransportError>)
    requires EncodeName(domain).Ok? && exchange(BuildQuery(id, domain, rtype).value).Ok?
    requires var reply := exchange(BuildQuery(id, domain, rtype).value).value;
      |reply| >= HeaderSize && Uint16At(reply, 6) <= 1
    ensures Resolve(id, domain, rtype, exchange) == ResolveCorrected(id, domain, rtype, exchange)
  {
    ResponseAgreement(exchange(BuildQuery(id, domain, rtype).value).value);
  }

  /** A server that sends the query back unchanged is answered with the query's own header and question. */
  lemma ResolveReflected(id: u16, domain: seq<byte>, rtype: RecordType, exchange: seq<byte> -> Result<seq<byte>, TransportError>)
    requires PlainName(domain)
    requires forall query :: exchange(query) == Ok(query)
    ensures Resolve(id, domain, rtype, exchange)
         == Ok(DnsMessage(QueryHeader(id), [Question(domain, rtype, ClassInternet)], [], [], []))
    ensures ResolveCorrected(id, domain, rtype, exchange) == Resolve(id, domain, rtype, exchange)
  {
    QueryRoundTrip(id, domain, rtype);
  }
}
