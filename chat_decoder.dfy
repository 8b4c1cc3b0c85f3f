/**
 * The streaming reply decoder of `sendChatMessage`: the response body arrives
 * as decoded text chunks, is cut into LF-terminated lines, and every
 * `data: <json>` line is folded into the answer, the conversation id, the
 * message id and the creation time.
 */
module ChatDecoder {
  import opened Wrappers
  import opened JsText
  import opened SseLines
  import opened UnicodeEscape

  /** The `event` field of a payload; `NoEvent` when it is absent or falsy. */
  datatype EventKind = NoEvent | Message | AgentMessage | MessageEnd | Ping | OtherEvent

  /** The `answer` field: absent or null, a string, or some other JSON value. */
  datatype AnswerField = NoAnswer | TextAnswer(text: Text) | NonTextAnswer

  /**
   * A parsed `data:` payload. The string fields hold `[]` when the field is
   * absent or falsy; `createdAt` holds 0 when `created_at` is absent or falsy;
   * `status` is `Some` when it is a number.
   */
  datatype Payload = Payload(
    event: EventKind,
    status: Option<int>,
    message: Text,
    error: Text,
    answer: AnswerField,
    conversationId: Text,
    id: Text,
    messageId: Text,
    createdAt: int)

  /** `JSON.parse` of the text after `data: `; `None` when it throws. */
  type Parser = Text -> Option<Payload>

  /** What makes the reader throw and the whole call reject. */
  datatype DecodeError =
    | EventError(message: Text)  // a payload with status 400 or without an event
    | AnswerNotText              // `unicodeToChar` called on a non-string answer

  /** The locals the reader updates line by line. */
  datatype Acc = Acc(
    answer: Text,
    conversationId: Text,
    messageId: Text,
    createdAt: int,
    isFirstMessage: bool,
    messageEndReceived: bool)

  const InitialAcc: Acc := Acc([], [], [], 0, true, false)

  const Colon: CodeUnit := 58
  const DataPrefix: Text := [100, 97, 116, 97, 58, 32]                    // "data: "
  const DefaultErrorMessage: Text := [65, 80, 73, 32, 101, 114, 114, 111, 114]  // "API error"

  predicate IsErrorEvent(p: Payload)
  {
    p.status == Some(400) || p.event == NoEvent
  }

  predicate IsMessageEvent(p: Payload)
  {
    p.event == Message || p.event == AgentMessage
  }

  predicate IsEndEvent(p: Payload)
  {
    !IsErrorEvent(p) && p.event == MessageEnd
  }

  /** `message || error || 'API error'`: never empty, and the first non-empty one. */
  function ErrorMessage(p: Payload): (m: Text)
    ensures m != []
    ensures m == p.message || (p.message == [] && (m == p.error || (p.error == [] && m == DefaultErrorMessage)))
  {
    if p.message != [] then p.message else if p.error != [] then p.error else DefaultErrorMessage
  }

  /** The decoded fragment a message payload adds to the answer. */
  function Fragment(p: Payload): Text
  {
    if p.answer.TextAnswer? then UnicodeToChar(p.answer.text) else []
  }

  /** A `message`/`agent_message` payload: append, ids from the first one only, created_at overwritten. */
  function ApplyMessage(acc: Acc, p: Payload): (r: Acc)
    ensures r.answer == acc.answer + Fragment(p)
    ensures !acc.isFirstMessage ==> r.conversationId == acc.conversationId && r.messageId == acc.messageId
    ensures r.createdAt == (if p.createdAt != 0 then p.createdAt else acc.createdAt)
    ensures !r.isFirstMessage && r.messageEndReceived == acc.messageEndReceived
  {
    acc.(answer := acc.answer + Fragment(p),
         conversationId := if acc.isFirstMessage && p.conversationId != [] then p.conversationId else acc.conversationId,
         messageId := if acc.isFirstMessage && p.id != [] then p.id else acc.messageId,
         createdAt := if p.createdAt != 0 then p.createdAt else acc.createdAt,
         isFirstMessage := false)
  }

  /** A `message_end` payload fills only the fields still empty, then marks the end. */
  function ApplyMessageEnd(acc: Acc, p: Payload): (r: Acc)
    ensures acc.conversationId != [] ==> r.conversationId == acc.conversationId
    ensures acc.conversationId == [] ==> r.conversationId == p.conversationId
    ensures acc.messageId != [] ==> r.messageId == acc.messageId
    ensures acc.messageId == [] ==> r.messageId == (if p.messageId != [] then p.messageId else p.id)
    ensures acc.createdAt != 0 ==> r.createdAt == acc.createdAt
    ensures acc.createdAt == 0 ==> r.createdAt == p.createdAt
    ensures r.answer == acc.answer && r.isFirstMessage == acc.isFirstMessage && r.messageEndReceived
  {
    acc.(conversationId := if p.conversationId != [] && acc.conversationId == [] then p.conversationId else acc.conversationId,
         messageId :=
           if p.messageId != [] && acc.messageId == [] then p.messageId
           else if p.id != [] && acc.messageId == [] then p.id
           else acc.messageId,
         createdAt := if p.createdAt != 0 && acc.createdAt == 0 then p.createdAt else acc.createdAt,
         messageEndReceived := true)
  }

  /** The dispatch on a parsed payload. */
  function ApplyPayload(acc: Acc, p: Payload): Result<Acc, DecodeError>
  {
    if IsErrorEvent(p) then Failure(EventError(ErrorMessage(p)))
    else if IsMessageEvent(p) then
      if p.answer.NonTextAnswer? then Failure(AnswerNotText) else Success(ApplyMessage(acc, p))
    else if p.event == MessageEnd then Success(ApplyMessageEnd(acc, p))
    else Success(acc)  // ping and unknown events
  }

  /** One line, in the order the reader tests it. */
  function StepLine(acc: Acc, line: Text, parse: Parser): Result<Acc, DecodeError>
  {
    if Trim(line, IsSpaceUnit) == [] || StartsWith(line, [Colon]) then Success(acc)
    else if !StartsWith(line, DataPrefix) then Success(acc)
    else match parse(line[|DataPrefix|..])
      case None => Success(acc)
      case Some(p) => ApplyPayload(acc, p)
  }

  /** `lines.forEach(...)`: a throw ends the whole fold. */
  function FoldLines(acc: Acc, lines: seq<Text>, parse: Parser): Result<Acc, DecodeError>
    decreases |lines|
  {
    if lines == [] then Success(acc)
    else match StepLine(acc, lines[0], parse)
      case Failure(e) => Failure(e)
      case Success(a) => FoldLines(a, lines[1..], parse)
  }

  /**
   * The recursive `read()`: append the chunk to the buffer, fold the complete
   * lines, keep the tail, and stop after a chunk in which `message_end` was
   * seen. At the end of the stream the tail is dropped.
   */
  function ReadFrom(acc: Acc, buffer: Text, chunks: seq<Text>, parse: Parser): Result<Acc, DecodeError>
    decreases |chunks|
  {
    if chunks == [] then Success(acc)
    else
      var text := buffer + chunks[0];
      match FoldLines(acc, CompleteLines(text), parse)
      case Failure(e) => Failure(e)
      case Success(a) =>
        if a.messageEndReceived then Success(a) else ReadFrom(a, Tail(text), chunks[1..], parse)
  }

  /** The whole decode of a response body, from the initial locals and an empty buffer. */
  function Decode(chunks: seq<Text>, parse: Parser): Result<Acc, DecodeError>
  {
    ReadFrom(InitialAcc, [], chunks, parse)
  }

  /**
   * The `forEach` callback on one line, as the source writes it, on its own
   * copies of the reader's locals; it returns them updated, or the error it
   * throws.
   */
  method HandleLine(acc: Acc, line: Text, parse: Parser) returns (r: Result<Acc, DecodeError>)
    ensures r == StepLine(acc, line, parse)
  {
    var answer, receivedConversationId, receivedMessageId := acc.answer, acc.conversationId, acc.messageId;
    var receivedCreatedAt, isFirstMessage, messageEndReceived := acc.createdAt, acc.isFirstMessage, acc.messageEndReceived;
    if Trim(line, IsSpaceUnit) == [] || StartsWith(line, [Colon]) {
      return Success(acc);  // a blank line or a comment
    }
    if StartsWith(line, DataPrefix) {
      var parsed := parse(line[|DataPrefix|..]);
      if parsed.None? {
        return Success(acc);  // JSON.parse threw: the line is skipped
      }
      var obj := parsed.value;
      if obj.status == Some(400) || obj.event == NoEvent {
        return Failure(EventError(ErrorMessage(obj)));
      }
      if obj.event == Message || obj.event == AgentMessage {
        match obj.answer {
          case NonTextAnswer =>
            return Failure(AnswerNotText);
          case TextAnswer(t) =>
            answer := answer + UnicodeToChar(t);
          case NoAnswer =>
            assert answer + Fragment(obj) == answer;
        }
        if isFirstMessage && obj.conversationId != [] {
          receivedConversationId := obj.conversationId;
        }
        if isFirstMessage && obj.id != [] {
          receivedMessageId := obj.id;
        }
        if obj.createdAt != 0 {
          receivedCreatedAt := obj.createdAt;
        }
        isFirstMessage := false;
      } else if obj.event == MessageEnd {
        if obj.conversationId != [] && receivedConversationId == [] {
          receivedConversationId := obj.conversationId;
        }
        if obj.messageId != [] && receivedMessageId == [] {
          receivedMessageId := obj.messageId;
        } else if obj.id != [] && receivedMessageId == [] {
          receivedMessageId := obj.id;
        }
        if obj.createdAt != 0 && receivedCreatedAt == 0 {
          receivedCreatedAt := obj.createdAt;
        }
        messageEndReceived := true;
      }
    }
    return Success(Acc(answer, receivedConversationId, receivedMessageId,
                       receivedCreatedAt, isFirstMessage, messageEndReceived));
  }

  /**
   * The read loop: one iteration per chunk `reader.read()` delivers, the line
   * buffer carried across, a stop after the chunk in which `message_end` was
   * seen. What it returns is the decode of the chunks it was given.
   */
  method ReadStream(chunks: seq<Text>, parse: Parser) returns (r: Result<Acc, DecodeError>)
    ensures r == Decode(chunks, parse)
  {
    var buffer: Text := [];
    var acc := InitialAcc;
    var i := 0;
    while i < |chunks|
      invariant 0 <= i <= |chunks|
      invariant !acc.messageEndReceived
      invariant Decode(chunks, parse) == ReadFrom(acc, buffer, chunks[i..], parse)
    {
      ghost var before, previous, text := acc, buffer, buffer + chunks[i];
      buffer := buffer + chunks[i];
      var lines := Split(buffer);
      buffer := lines[|lines| - 1];
      lines := lines[..|lines| - 1];
      assert lines == CompleteLines(text) && buffer == Tail(text);
      var folded := HandleLines(acc, lines, parse);
      ReadFromStep(before, previous, chunks[i..], parse);
      if folded.Failure? {
        return Failure(folded.error);
      }
      acc := folded.value;
      assert chunks[i..][1..] == chunks[i + 1..];
      if acc.messageEndReceived {
        return Success(acc);
      }
      i := i + 1;
    }
    return Success(acc);
  }

  /** `lines.forEach(...)`: the callback on each line in turn, the first throw ending it. */
  method HandleLines(acc: Acc, lines: seq<Text>, parse: Parser) returns (r: Result<Acc, DecodeError>)
    ensures r == FoldLines(acc, lines, parse)
  {
    var current := acc;
    var j := 0;
    while j < |lines|
      invariant 0 <= j <= |lines|
      invariant FoldLines(acc, lines, parse) == FoldLines(current, lines[j..], parse)
    {
      FoldLinesStep(current, lines[j..], parse);
      assert lines[j..][0] == lines[j] && lines[j..][1..] == lines[j + 1..];
      var step := HandleLine(current, lines[j], parse);
      if step.Failure? {
        return Failure(step.error);
      }
      current := step.value;
      j := j + 1;
    }
    assert lines[j..] == [];
    return Success(current);
  }

  /** One line of the fold: a failure ends it, a success carries on with the rest. */
  lemma FoldLinesStep(acc: Acc, lines: seq<Text>, parse: Parser)
    requires lines != []
    ensures StepLine(acc, lines[0], parse).Failure? ==>
              FoldLines(acc, lines, parse) == Failure(StepLine(acc, lines[0], parse).error)
    ensures StepLine(acc, lines[0], parse).Success? ==>
              FoldLines(acc, lines, parse) == FoldLines(StepLine(acc, lines[0], parse).value, lines[1..], parse)
  {
  }

  /** One chunk of the read: the fold of its complete lines decides whether reading goes on. */
  lemma ReadFromStep(acc: Acc, buffer: Text, rest: seq<Text>, parse: Parser)
    requires rest != []
    ensures var text := buffer + rest[0];
            match FoldLines(acc, CompleteLines(text), parse)
            case Failure(e) => ReadFrom(acc, buffer, rest, parse) == Failure(e)
            case Success(a) =>
              ReadFrom(acc, buffer, rest, parse)
                == if a.messageEndReceived then Success(a) else ReadFrom(a, Tail(text), rest[1..], parse)
  {
  }

  // ---------------------------------------------------------------------
  // Properties of the decode

  /** The payload a line carries: only a `data: ` line that parses has one. */
  function LineEvent(line: Text, parse: Parser): Option<Payload>
  {
    if StartsWith(line, DataPrefix) then parse(line[|DataPrefix|..]) else None
  }

  /**
   * The blank-or-comment test never hides a payload, since a `data: ` line
   * starts with a letter: a line acts exactly through the payload it carries.
   */
  lemma StepLineByEvent(acc: Acc, line: Text, parse: Parser)
    ensures StepLine(acc, line, parse)
         == match LineEvent(line, parse)
            case None => Success(acc)
            case Some(p) => ApplyPayload(acc, p)
  {
    if StartsWith(line, DataPrefix) {
      assert line[0] == DataPrefix[0] == 100;
      assert !IsSpaceUnit(line[0]);
      TrimEmptyIffBlank(line, IsSpaceUnit);
      assert !StartsWith(line, [Colon]);
    }
  }

  /** The payloads carried by the lines, in order. */
  function Events(lines: seq<Text>, parse: Parser): seq<Payload>
  {
    if lines == [] then []
    else
      (match LineEvent(lines[0], parse) case None => [] case Some(p) => [p]) + Events(lines[1..], parse)
  }

  /** The fold over the payloads alone. */
  function FoldPayloads(acc: Acc, ps: seq<Payload>): Result<Acc, DecodeError>
    decreases |ps|
  {
    if ps == [] then Success(acc)
    else match ApplyPayload(acc, ps[0])
      case Failure(e) => Failure(e)
      case Success(a) => FoldPayloads(a, ps[1..])
  }

  /** Lines without a payload (blank, comment, other prefix, unparsable) change nothing. */
  lemma {:induction false} FoldLinesByEvents(acc: Acc, lines: seq<Text>, parse: Parser)
    ensures FoldLines(acc, lines, parse) == FoldPayloads(acc, Events(lines, parse))
    decreases |lines|
  {
    if lines != [] {
      StepLineByEvent(acc, lines[0], parse);
      match StepLine(acc, lines[0], parse)
      case Failure(e) =>
      case Success(a) =>
        FoldLinesByEvents(a, lines[1..], parse);
        var rest := Events(lines[1..], parse);
        match LineEvent(lines[0], parse)
        case None =>
          assert Events(lines, parse) == rest;
        case Some(p) =>
          assert Events(lines, parse) == [p] + rest;
          assert ([p] + rest)[1..] == rest;
    }
  }

  /** A payload on which the reader throws. */
  predicate Throws(p: Payload)
  {
    IsErrorEvent(p) || (IsMessageEvent(p) && p.answer.NonTextAnswer?)
  }

  /** The error a throwing payload raises. */
  function Thrown(p: Payload): DecodeError
  {
    if IsErrorEvent(p) then EventError(ErrorMessage(p)) else AnswerNotText
  }

  /**
   * The decode fails exactly when some payload throws, and then with the error
   * of the first one: an error event aborts it however much was accumulated.
   */
  lemma {:induction false} FoldFailsIffThrows(acc: Acc, ps: seq<Payload>)
    ensures FoldPayloads(acc, ps).Failure? <==> exists k :: 0 <= k < |ps| && Throws(ps[k])
    ensures forall k :: 0 <= k < |ps| && Throws(ps[k]) && (forall j :: 0 <= j < k ==> !Throws(ps[j])) ==>
              FoldPayloads(acc, ps) == Failure(Thrown(ps[k]))
    decreases |ps|
  {
    if ps != [] {
      ApplyPayloadThrows(acc, ps[0]);
      match ApplyPayload(acc, ps[0])
      case Failure(e) =>
        forall k | 0 <= k < |ps| && Throws(ps[k]) && (forall j :: 0 <= j < k ==> !Throws(ps[j]))
          ensures FoldPayloads(acc, ps) == Failure(Thrown(ps[k]))
        {
          assert k == 0;
        }
      case Success(a) =>
        FoldFailsIffThrows(a, ps[1..]);
        if exists k :: 0 <= k < |ps| - 1 && Throws(ps[1..][k]) {
          var k :| 0 <= k < |ps| - 1 && Throws(ps[1..][k]);
          assert Throws(ps[k + 1]);
        }
        if exists k :: 0 <= k < |ps| && Throws(ps[k]) {
          var k :| 0 <= k < |ps| && Throws(ps[k]);
          assert Throws(ps[1..][k - 1]);
        }
        forall k | 0 <= k < |ps| && Throws(ps[k]) && (forall j :: 0 <= j < k ==> !Throws(ps[j]))
          ensures FoldPayloads(acc, ps) == Failure(Thrown(ps[k]))
        {
          assert k > 0;
          assert ps[1..][k - 1] == ps[k];
          assert forall j :: 0 <= j < k - 1 ==> ps[1..][j] == ps[j + 1];
        }
    }
  }

  /** A single payload fails exactly when it throws, with its own error. */
  lemma ApplyPayloadThrows(acc: Acc, p: Payload)
    ensures ApplyPayload(acc, p).Failure? <==> Throws(p)
    ensures Throws(p) ==> ApplyPayload(acc, p) == Failure(Thrown(p))
  {
  }

  /** The decoded fragments of the message payloads, concatenated in arrival order. */
  function AnswerText(ps: seq<Payload>): Text
    decreases |ps|
  {
    if ps == [] then [] else (if IsMessageEvent(ps[0]) then Fragment(ps[0]) else []) + AnswerText(ps[1..])
  }

  /**
   * The answer is the old answer followed by `unicodeToChar` of every string
   * answer of a message event, in order: nothing reordered, nothing dropped.
   */
  lemma {:induction false} AnswerIsConcatenation(acc: Acc, ps: seq<Payload>)
    requires FoldPayloads(acc, ps).Success?
    ensures FoldPayloads(acc, ps).value.answer == acc.answer + AnswerText(ps)
    decreases |ps|
  {
    if ps == [] {
      assert acc.answer + [] == acc.answer;
    } else {
      var a := ApplyPayload(acc, ps[0]).value;
      var f := if IsMessageEvent(ps[0]) then Fragment(ps[0]) else [];
      ApplyPayloadAnswer(acc, ps[0]);
      AnswerIsConcatenation(a, ps[1..]);
      assert AnswerText(ps) == f + AnswerText(ps[1..]);
      assert acc.answer + f + AnswerText(ps[1..]) == acc.answer + (f + AnswerText(ps[1..]));
    }
  }

  /** A payload that does not throw adds its fragment to the answer if it is a message, and nothing otherwise. */
  lemma ApplyPayloadAnswer(acc: Acc, p: Payload)
    requires ApplyPayload(acc, p).Success?
    ensures ApplyPayload(acc, p).value.answer == acc.answer + (if IsMessageEvent(p) then Fragment(p) else [])
  {
    if !IsMessageEvent(p) {
      assert acc.answer + [] == acc.answer;
    }
  }

  /** The first `message`/`agent_message` payload. */
  function FirstMessage(ps: seq<Payload>): Option<Payload>
    decreases |ps|
  {
    if ps == [] then None else if IsMessageEvent(ps[0]) then Some(ps[0]) else FirstMessage(ps[1..])
  }

  predicate NoEndEvent(ps: seq<Payload>)
  {
    forall k :: 0 <= k < |ps| ==> !IsEndEvent(ps[k])
  }

  /**
   * Without `message_end`, the conversation id and the message id are those of
   * the first message event (when it has them): later message events never
   * change them.
   */
  lemma {:induction false} IdsFromFirstMessage(acc: Acc, ps: seq<Payload>)
    requires FoldPayloads(acc, ps).Success? && NoEndEvent(ps)
    ensures var a := FoldPayloads(acc, ps).value;
            var first := FirstMessage(ps);
            && a.conversationId
               == (if acc.isFirstMessage && first.Some? && first.value.conversationId != []
                   then first.value.conversationId else acc.conversationId)
            && a.messageId
               == (if acc.isFirstMessage && first.Some? && first.value.id != []
                   then first.value.id else acc.messageId)
            && a.isFirstMessage == (acc.isFirstMessage && first.None?)
            && a.messageEndReceived == acc.messageEndReceived
    decreases |ps|
  {
    if ps != [] {
      var a := ApplyPayload(acc, ps[0]).value;
      assert !IsEndEvent(ps[0]);
      assert NoEndEvent(ps[1..]) by {
        forall k | 0 <= k < |ps| - 1 ensures !IsEndEvent(ps[1..][k]) {
          assert ps[1..][k] == ps[k + 1];
        }
      }
      IdsFromFirstMessage(a, ps[1..]);
    }
  }

  /** The `created_at` of the last message event that has one, 0 if none does. */
  function LatestCreatedAt(ps: seq<Payload>): int
    decreases |ps|
  {
    if ps == [] then 0
    else
      var later := LatestCreatedAt(ps[1..]);
      if later != 0 then later else if IsMessageEvent(ps[0]) then ps[0].createdAt else 0
  }

  /** Without `message_end`, `created_at` is last-write-wins over the message events. */
  lemma {:induction false} CreatedAtLastWriteWins(acc: Acc, ps: seq<Payload>)
    requires FoldPayloads(acc, ps).Success? && NoEndEvent(ps)
    ensures FoldPayloads(acc, ps).value.createdAt
         == (if LatestCreatedAt(ps) != 0 then LatestCreatedAt(ps) else acc.createdAt)
    decreases |ps|
  {
    if ps != [] {
      var a := ApplyPayload(acc, ps[0]).value;
      assert !IsEndEvent(ps[0]);
      assert NoEndEvent(ps[1..]) by {
        forall k | 0 <= k < |ps| - 1 ensures !IsEndEvent(ps[1..][k]) {
          assert ps[1..][k] == ps[k + 1];
        }
      }
      CreatedAtLastWriteWins(a, ps[1..]);
    }
  }

  /**
   * Once the first message event has been seen, an id that is set is never
   * replaced, neither by later message events nor by `message_end`.
   */
  lemma {:induction false} IdsStableAfterFirstMessage(acc: Acc, ps: seq<Payload>)
    requires FoldPayloads(acc, ps).Success? && !acc.isFirstMessage
    ensures var a := FoldPayloads(acc, ps).value;
            && !a.isFirstMessage
            && (acc.conversationId != [] ==> a.conversationId == acc.conversationId)
            && (acc.messageId != [] ==> a.messageId == acc.messageId)
    decreases |ps|
  {
    if ps != [] {
      IdsStableAfterFirstMessage(ApplyPayload(acc, ps[0]).value, ps[1..]);
    }
  }

  /**
   * First-write-wins does not hold for ids delivered by `message_end`: a first
   * message event that follows it in the stream replaces them.
   */
  lemma MessageAfterEndReplacesIds(e: Payload, m: Payload)
    requires IsEndEvent(e) && e.conversationId != [] && e.messageId != []
    requires IsMessageEvent(m) && !Throws(m) && m.conversationId != [] && m.id != []
    ensures FoldPayloads(InitialAcc, [e, m]).Success?
    ensures var a := FoldPayloads(InitialAcc, [e, m]).value;
            a.conversationId == m.conversationId && a.messageId == m.id && a.messageEndReceived
  {
    var a1 := ApplyMessageEnd(InitialAcc, e);
    assert ApplyPayload(InitialAcc, e) == Success(a1);
    assert [e, m][1..] == [m];
    assert FoldPayloads(InitialAcc, [e, m]) == FoldPayloads(a1, [m]);
    var a2 := ApplyMessage(a1, m);
    assert ApplyPayload(a1, m) == Success(a2);
    assert [m][1..] == [];
    assert FoldPayloads(a1, [m]) == Success(a2);
  }

  /** Pings and unknown events leave every field as it was. */
  lemma {:induction false} PingsChangeNothing(acc: Acc, ps: seq<Payload>)
    requires forall k :: 0 <= k < |ps| ==> !Throws(ps[k]) && !IsMessageEvent(ps[k]) && ps[k].event != MessageEnd
    ensures FoldPayloads(acc, ps) == Success(acc)
    decreases |ps|
  {
    if ps != [] {
      assert !Throws(ps[0]) && !IsMessageEvent(ps[0]) && ps[0].event != MessageEnd;
      assert forall k :: 0 <= k < |ps| - 1 ==> ps[1..][k] == ps[k + 1];
      PingsChangeNothing(acc, ps[1..]);
    }
  }

  // ---------------------------------------------------------------------
  // Chunk boundaries and termination

  /** A line carrying a `message_end` payload. */
  predicate EndLine(line: Text, parse: Parser)
  {
    LineEvent(line, parse).Some? && IsEndEvent(LineEvent(line, parse).value)
  }

  predicate NoEndLine(lines: seq<Text>, parse: Parser)
  {
    forall k :: 0 <= k < |lines| ==> !EndLine(lines[k], parse)
  }

  lemma {:induction false} FoldLinesAppend(acc: Acc, a: seq<Text>, b: seq<Text>, parse: Parser)
    ensures FoldLines(acc, a + b, parse)
         == match FoldLines(acc, a, parse)
            case Failure(e) => Failure(e)
            case Success(x) => FoldLines(x, b, parse)
    decreases |a|
  {
    if a == [] {
      assert a + b == b;
    } else {
      assert (a + b)[0] == a[0] && (a + b)[1..] == a[1..] + b;
      match StepLine(acc, a[0], parse)
      case Failure(e) =>
      case Success(x) => FoldLinesAppend(x, a[1..], b, parse);
    }
  }

  lemma {:induction false} FoldLinesKeepsEnd(acc: Acc, lines: seq<Text>, parse: Parser)
    requires NoEndLine(lines, parse) && FoldLines(acc, lines, parse).Success?
    ensures FoldLines(acc, lines, parse).value.messageEndReceived == acc.messageEndReceived
    decreases |lines|
  {
    if lines != [] {
      FoldLinesStep(acc, lines, parse);
      StepLineKeepsEnd(acc, lines[0], parse);
      assert NoEndLine(lines[1..], parse) by {
        assert forall k :: 0 <= k < |lines| - 1 ==> lines[1..][k] == lines[k + 1];
      }
      FoldLinesKeepsEnd(StepLine(acc, lines[0], parse).value, lines[1..], parse);
    }
  }

  /** A line that is not `message_end` leaves the end flag as it was. */
  lemma StepLineKeepsEnd(acc: Acc, line: Text, parse: Parser)
    requires !EndLine(line, parse) && StepLine(acc, line, parse).Success?
    ensures StepLine(acc, line, parse).value.messageEndReceived == acc.messageEndReceived
  {
    StepLineByEvent(acc, line, parse);
  }

  lemma NoLFNoLines(t: Text)
    requires LF !in t
    ensures CompleteLines(t) == [] && Tail(t) == t
  {
    SplitUnique(t, [], t);
  }

  /**
   * While no `message_end` arrives, reading chunk by chunk folds exactly the
   * LF-terminated lines of the concatenated stream, in order; the unfinished
   * tail is never folded.
   */
  lemma {:induction false} ReadFromWithoutEnd(acc: Acc, buf: Text, chunks: seq<Text>, parse: Parser)
    requires LF !in buf && !acc.messageEndReceived
    requires NoEndLine(CompleteLines(buf + Concat(chunks)), parse)
    ensures ReadFrom(acc, buf, chunks, parse) == FoldLines(acc, CompleteLines(buf + Concat(chunks)), parse)
    decreases |chunks|
  {
    if chunks == [] {
      assert buf + Concat(chunks) == buf;
      NoLFNoLines(buf);
    } else {
      var text := buf + chunks[0];
      var rest := Concat(chunks[1..]);
      var l1, t1 := CompleteLines(text), Tail(text);
      CompleteLinesAndTail(text);
      assert buf + Concat(chunks) == text + rest by {
        assert Concat(chunks) == chunks[0] + rest;
      }
      TwoChunks(buf, chunks[0], rest);
      var l2 := CompleteLines(t1 + rest);
      assert CompleteLines(buf + Concat(chunks)) == l1 + l2;
      NoEndLineSplits(l1, l2, parse);
      FoldLinesAppend(acc, l1, l2, parse);
      ReadFromStep(acc, buf, chunks, parse);
      match FoldLines(acc, l1, parse)
      case Failure(e) =>
      case Success(a) =>
        FoldLinesKeepsEnd(acc, l1, parse);
        ReadFromWithoutEnd(a, t1, chunks[1..], parse);
    }
  }

  lemma NoEndLineSplits(l1: seq<Text>, l2: seq<Text>, parse: Parser)
    requires NoEndLine(l1 + l2, parse)
    ensures NoEndLine(l1, parse) && NoEndLine(l2, parse)
  {
    forall k | 0 <= k < |l1| ensures !EndLine(l1[k], parse) {
      assert (l1 + l2)[k] == l1[k];
    }
    forall k | 0 <= k < |l2| ensures !EndLine(l2[k], parse) {
      assert (l1 + l2)[|l1| + k] == l2[k];
    }
  }

  /**
   * Chunk-boundary independence: two bodies with the same text and no
   * `message_end` decode alike, and as the fold of their complete lines.
   */
  lemma ChunkingIrrelevant(chunks1: seq<Text>, chunks2: seq<Text>, parse: Parser)
    requires Concat(chunks1) == Concat(chunks2)
    requires NoEndLine(CompleteLines(Concat(chunks1)), parse)
    ensures Decode(chunks1, parse) == Decode(chunks2, parse)
                                   == FoldLines(InitialAcc, CompleteLines(Concat(chunks1)), parse)
  {
    assert [] + Concat(chunks1) == Concat(chunks1);
    assert [] + Concat(chunks2) == Concat(chunks2);
    ReadFromWithoutEnd(InitialAcc, [], chunks1, parse);
    ReadFromWithoutEnd(InitialAcc, [], chunks2, parse);
  }

  /** A last chunk without an LF is dropped with the buffer when the stream ends. */
  lemma {:induction false} UnterminatedTailIgnored(acc: Acc, buf: Text, chunks: seq<Text>, tail: Text, parse: Parser)
    requires LF !in buf && LF !in tail
    ensures ReadFrom(acc, buf, chunks + [tail], parse) == ReadFrom(acc, buf, chunks, parse)
    decreases |chunks|
  {
    if chunks == [] {
      assert chunks + [tail] == [tail];
      assert LF !in buf + tail;
      NoLFNoLines(buf + tail);
    } else {
      assert (chunks + [tail])[0] == chunks[0] && (chunks + [tail])[1..] == chunks[1..] + [tail];
      var text := buf + chunks[0];
      CompleteLinesAndTail(text);
      match FoldLines(acc, CompleteLines(text), parse)
      case Failure(e) =>
      case Success(a) =>
        UnterminatedTailIgnored(a, Tail(text), chunks[1..], tail, parse);
    }
  }

  /** Once a chunk has delivered `message_end`, no later chunk is read. */
  lemma {:induction false} LaterChunksIgnored(acc: Acc, buf: Text, chunks: seq<Text>, more: seq<Text>, parse: Parser)
    requires !acc.messageEndReceived
    requires ReadFrom(acc, buf, chunks, parse).Success?
    requires ReadFrom(acc, buf, chunks, parse).value.messageEndReceived
    ensures ReadFrom(acc, buf, chunks + more, parse) == ReadFrom(acc, buf, chunks, parse)
    decreases |chunks|
  {
    assert chunks != [];
    assert (chunks + more)[0] == chunks[0] && (chunks + more)[1..] == chunks[1..] + more;
    var text := buf + chunks[0];
    match FoldLines(acc, CompleteLines(text), parse)
    case Failure(e) =>
    case Success(a) =>
      if !a.messageEndReceived {
        LaterChunksIgnored(a, Tail(text), chunks[1..], more, parse);
      }
  }

  /** A successful line sets the end flag exactly when it is `message_end`, and never clears it. */
  lemma StepLineEnd(acc: Acc, line: Text, parse: Parser)
    requires StepLine(acc, line, parse).Success?
    ensures StepLine(acc, line, parse).value.messageEndReceived
        <==> acc.messageEndReceived || EndLine(line, parse)
  {
    StepLineByEvent(acc, line, parse);
  }

  lemma NoEndLineCons(lines: seq<Text>, parse: Parser)
    requires lines != []
    ensures NoEndLine(lines, parse) <==> !EndLine(lines[0], parse) && NoEndLine(lines[1..], parse)
  {
    assert forall k :: 0 <= k < |lines| - 1 ==> lines[1..][k] == lines[k + 1];
  }

  /**
   * After a successful fold the end flag is set exactly when it was set before
   * or one of the lines was `message_end`.
   */
  lemma {:induction false} FoldLinesEnd(acc: Acc, lines: seq<Text>, parse: Parser)
    requires FoldLines(acc, lines, parse).Success?
    ensures FoldLines(acc, lines, parse).value.messageEndReceived
        <==> acc.messageEndReceived || !NoEndLine(lines, parse)
    decreases |lines|
  {
    if lines != [] {
      FoldLinesStep(acc, lines, parse);
      StepLineEnd(acc, lines[0], parse);
      NoEndLineCons(lines, parse);
      FoldLinesEnd(StepLine(acc, lines[0], parse).value, lines[1..], parse);
    }
  }

  lemma NoEndLineJoin(l1: seq<Text>, l2: seq<Text>, parse: Parser)
    requires NoEndLine(l1, parse) && NoEndLine(l2, parse)
    ensures NoEndLine(l1 + l2, parse)
  {
    forall k | 0 <= k < |l1 + l2| ensures !EndLine((l1 + l2)[k], parse) {
      if k < |l1| {
        assert (l1 + l2)[k] == l1[k];
      } else {
        assert (l1 + l2)[k] == l2[k - |l1|];
      }
    }
  }

  /**
   * The complete lines of the first `j` chunks are those of the first chunk
   * followed by those of its tail and the next `j - 1` chunks.
   */
  lemma LinesAfterFirstChunk(buf: Text, chunks: seq<Text>, j: nat)
    requires 1 <= j <= |chunks|
    ensures CompleteLines(buf + Concat(chunks[..j]))
         == CompleteLines(buf + chunks[0]) + CompleteLines(Tail(buf + chunks[0]) + Concat(chunks[1..][..j - 1]))
  {
    assert chunks[..j][0] == chunks[0];
    assert chunks[..j][1..] == chunks[1..][..j - 1];
    var r := Concat(chunks[1..][..j - 1]);
    assert Concat(chunks[..j]) == chunks[0] + r;
    assert buf + Concat(chunks[..j]) == buf + chunks[0] + r;
    TwoChunks(buf, chunks[0], r);
  }

  /**
   * If chunk `k` is the first whose lines complete a `message_end`, reading
   * folds exactly the complete lines of chunks `0..k` and nothing after.
   */
  lemma {:induction false} ReadFromUntilEnd(acc: Acc, buf: Text, chunks: seq<Text>, k: nat, parse: Parser)
    requires LF !in buf && !acc.messageEndReceived && k < |chunks|
    requires NoEndLine(CompleteLines(buf + Concat(chunks[..k])), parse)
    requires !NoEndLine(CompleteLines(buf + Concat(chunks[..k + 1])), parse)
    ensures ReadFrom(acc, buf, chunks, parse) == FoldLines(acc, CompleteLines(buf + Concat(chunks[..k + 1])), parse)
    decreases k
  {
    var text := buf + chunks[0];
    var l1, t1 := CompleteLines(text), Tail(text);
    LinesAfterFirstChunk(buf, chunks, k + 1);
    var l3 := CompleteLines(t1 + Concat(chunks[1..][..k]));
    ReadFromStep(acc, buf, chunks, parse);
    if k == 0 {
      assert chunks[1..][..0] == [];
      NoLFNoLines(t1);
      assert l1 + l3 == l1;
      if FoldLines(acc, l1, parse).Success? {
        FoldLinesEnd(acc, l1, parse);
      }
    } else {
      LinesAfterFirstChunk(buf, chunks, k);
      var l2 := CompleteLines(t1 + Concat(chunks[1..][..k - 1]));
      NoEndLineSplits(l1, l2, parse);
      if NoEndLine(l3, parse) {
        NoEndLineJoin(l1, l3, parse);
        assert false;
      }
      FoldLinesAppend(acc, l1, l3, parse);
      if FoldLines(acc, l1, parse).Success? {
        var a := FoldLines(acc, l1, parse).value;
        FoldLinesKeepsEnd(acc, l1, parse);
        CompleteLinesAndTail(text);
        ReadFromUntilEnd(a, t1, chunks[1..], k - 1, parse);
      }
    }
  }

  /**
   * The decode of a body in which chunk `k` is the first to complete a
   * `message_end` line: the fold of the complete lines of chunks `0..k`, with
   * the end flag set when it succeeds; later chunks, and the rest of the
   * lines after that chunk, are never looked at.
   */
  lemma DecodeWithEnd(chunks: seq<Text>, k: nat, parse: Parser)
    requires k < |chunks|
    requires NoEndLine(CompleteLines(Concat(chunks[..k])), parse)
    requires !NoEndLine(CompleteLines(Concat(chunks[..k + 1])), parse)
    ensures Decode(chunks, parse) == FoldLines(InitialAcc, CompleteLines(Concat(chunks[..k + 1])), parse)
    ensures Decode(chunks, parse).Success? ==> Decode(chunks, parse).value.messageEndReceived
    ensures Decode(chunks, parse) == Decode(chunks[..k + 1], parse)
  {
    var lines := CompleteLines(Concat(chunks[..k + 1]));
    DecodeUntilEnd(chunks, k, parse);
    var short := chunks[..k + 1];
    assert short[..k] == chunks[..k] && short[..k + 1] == chunks[..k + 1];
    DecodeUntilEnd(short, k, parse);
    if FoldLines(InitialAcc, lines, parse).Success? {
      FoldLinesEnd(InitialAcc, lines, parse);
    }
  }

  lemma DecodeUntilEnd(chunks: seq<Text>, k: nat, parse: Parser)
    requires k < |chunks|
    requires NoEndLine(CompleteLines(Concat(chunks[..k])), parse)
    requires !NoEndLine(CompleteLines(Concat(chunks[..k + 1])), parse)
    ensures Decode(chunks, parse) == FoldLines(InitialAcc, CompleteLines(Concat(chunks[..k + 1])), parse)
  {
    assert [] + Concat(chunks[..k]) == Concat(chunks[..k]);
    assert [] + Concat(chunks[..k + 1]) == Concat(chunks[..k + 1]);
    ReadFromUntilEnd(InitialAcc, [], chunks, k, parse);
  }

  /** A `data: ` line over LF-free JSON text is one line carrying what that text parses to. */
  lemma DataLine(t: Text, parse: Parser)
    requires LF !in t
    ensures LF !in DataPrefix + t && LineEvent(DataPrefix + t, parse) == parse(t)
  {
    var l := DataPrefix + t;
    assert l[..|DataPrefix|] == DataPrefix && l[|DataPrefix|..] == t;
    assert LF !in DataPrefix;
  }

  /** A body that is one chunk of LF-terminated lines decodes as the fold of those lines. */
  lemma DecodeOneChunk(lines: seq<Text>, parse: Parser)
    requires NoLF(lines)
    ensures Decode([Terminated(lines)], parse) == FoldLines(InitialAcc, lines, parse)
  {
    SplitTerminated(lines, []);
    assert Terminated(lines) + [] == Terminated(lines);
    assert [] + [Terminated(lines)][0] == Terminated(lines);
    assert [Terminated(lines)][1..] == [];
    ReadFromStep(InitialAcc, [], [Terminated(lines)], parse);
  }

  lemma EndLineStep(acc: Acc, line: Text, end: Payload, parse: Parser)
    requires LineEvent(line, parse) == Some(end) && IsEndEvent(end)
    ensures StepLine(acc, line, parse) == Success(ApplyMessageEnd(acc, end))
  {
    StepLineByEvent(acc, line, parse);
  }

  lemma MessageLineStep(acc: Acc, line: Text, msg: Payload, parse: Parser)
    requires LineEvent(line, parse) == Some(msg) && IsMessageEvent(msg) && !IsErrorEvent(msg) && msg.answer.TextAnswer?
    ensures StepLine(acc, line, parse) == Success(ApplyMessage(acc, msg))
  {
    StepLineByEvent(acc, line, parse);
  }

  lemma FoldTwoLines(acc: Acc, l1: Text, l2: Text, a1: Acc, a2: Acc, parse: Parser)
    requires StepLine(acc, l1, parse) == Success(a1) && StepLine(a1, l2, parse) == Success(a2)
    ensures FoldLines(acc, [l1, l2], parse) == Success(a2)
  {
    FoldLinesStep(acc, [l1, l2], parse);
    assert [l1, l2][1..] == [l2];
    FoldLinesStep(a1, [l2], parse);
    assert [l2][1..] == [];
  }

  lemma EndThenMessageTogether(l1: Text, l2: Text, end: Payload, msg: Payload, parse: Parser)
    requires LF !in l1 && LF !in l2
    requires LineEvent(l1, parse) == Some(end) && IsEndEvent(end)
    requires LineEvent(l2, parse) == Some(msg) && IsMessageEvent(msg) && !IsErrorEvent(msg) && msg.answer.TextAnswer?
    ensures Decode([Terminated([l1, l2])], parse) == Success(ApplyMessage(ApplyMessageEnd(InitialAcc, end), msg))
  {
    var a1 := ApplyMessageEnd(InitialAcc, end);
    EndLineStep(InitialAcc, l1, end, parse);
    MessageLineStep(a1, l2, msg, parse);
    FoldTwoLines(InitialAcc, l1, l2, a1, ApplyMessage(a1, msg), parse);
    assert NoLF([l1, l2]);
    DecodeOneChunk([l1, l2], parse);
  }

  lemma EndThenMessageApart(l1: Text, l2: Text, end: Payload, parse: Parser)
    requires LF !in l1
    requires LineEvent(l1, parse) == Some(end) && IsEndEvent(end)
    ensures Decode([Terminated([l1]), Terminated([l2])], parse) == Success(ApplyMessageEnd(InitialAcc, end))
  {
    var apart := [Terminated([l1]), Terminated([l2])];
    var a1 := ApplyMessageEnd(InitialAcc, end);
    EndLineStep(InitialAcc, l1, end, parse);
    assert FoldLines(InitialAcc, [l1], parse) == Success(a1) by {
      FoldLinesStep(InitialAcc, [l1], parse);
      assert [l1][1..] == [];
    }
    assert CompleteLines([] + apart[0]) == [l1] by {
      assert NoLF([l1]);
      SplitTerminated([l1], []);
      assert [] + apart[0] == Terminated([l1]) + [];
    }
    ReadFromStep(InitialAcc, [], apart, parse);
  }

  lemma ConcatTwo(c: Text, d: Text)
    ensures Concat([c, d]) == c + d
  {
    assert [c, d][1..] == [d] && [d][1..] == [];
    assert Concat([d]) == d + Concat([]);
    assert d + [] == d;
  }

  /**
   * Once `message_end` has arrived, where the chunks are cut matters: a
   * message line that follows `message_end` in the same chunk is folded, the
   * same line in the next chunk is never read.
   */
  lemma ChunkingMattersAfterEnd(e: Text, m: Text, end: Payload, msg: Payload, parse: Parser)
    requires LF !in e && LF !in m
    requires parse(e) == Some(end) && IsEndEvent(end)
    requires parse(m) == Some(msg) && IsMessageEvent(msg) && !IsErrorEvent(msg) && msg.answer.TextAnswer? && Fragment(msg) != []
    ensures var l1, l2 := DataPrefix + e, DataPrefix + m;
            var together, apart := [Terminated([l1, l2])], [Terminated([l1]), Terminated([l2])];
            && Concat(together) == Concat(apart)
            && Decode(together, parse).Success? && Decode(together, parse).value.answer == Fragment(msg)
            && Decode(apart, parse).Success? && Decode(apart, parse).value.answer == []
  {
    var l1, l2 := DataPrefix + e, DataPrefix + m;
    DataLine(e, parse);
    DataLine(m, parse);
    EndThenMessageTogether(l1, l2, end, msg, parse);
    EndThenMessageApart(l1, l2, end, parse);
    TerminatedAppend([l1], [l2]);
    assert [l1] + [l2] == [l1, l2];
    ConcatTwo(Terminated([l1]), Terminated([l2]));
    assert Concat([Terminated([l1, l2])]) == Terminated([l1, l2]) + [];
  }

  lemma {:induction false} LineEventInEvents(lines: seq<Text>, k: nat, parse: Parser)
    requires k < |lines| && LineEvent(lines[k], parse).Some?
    ensures LineEvent(lines[k], parse).value in Events(lines, parse)
    decreases k
  {
    if k > 0 {
      assert lines[1..][k - 1] == lines[k];
      LineEventInEvents(lines[1..], k - 1, parse);
    }
  }

  /**
   * The decode of a body without `message_end`, whatever its chunking: it fails
   * exactly when a payload throws; otherwise the answer is the in-order
   * concatenation of the decoded fragments, the ids are those of the first
   * message event, and `created_at` is that of the last message event carrying
   * one.
   */
  lemma DecodeWithoutEnd(chunks: seq<Text>, parse: Parser)
    requires NoEndEvent(Events(CompleteLines(Concat(chunks)), parse))
    ensures var ps := Events(CompleteLines(Concat(chunks)), parse);
            var r := Decode(chunks, parse);
            && (r.Failure? <==> exists k :: 0 <= k < |ps| && Throws(ps[k]))
            && (r.Success? ==>
                  && r.value.answer == AnswerText(ps)
                  && r.value.conversationId
                     == (if FirstMessage(ps).Some? then FirstMessage(ps).value.conversationId else [])
                  && r.value.messageId == (if FirstMessage(ps).Some? then FirstMessage(ps).value.id else [])
                  && r.value.createdAt == LatestCreatedAt(ps)
                  && !r.value.messageEndReceived)
  {
    var lines := CompleteLines(Concat(chunks));
    var ps := Events(lines, parse);
    assert NoEndLine(lines, parse) by {
      forall k | 0 <= k < |lines| ensures !EndLine(lines[k], parse) {
        if LineEvent(lines[k], parse).Some? {
          LineEventInEvents(lines, k, parse);
        }
      }
    }
    ChunkingIrrelevant(chunks, chunks, parse);
    FoldLinesByEvents(InitialAcc, lines, parse);
    FoldFailsIffThrows(InitialAcc, ps);
    if Decode(chunks, parse).Success? {
      AnswerIsConcatenation(InitialAcc, ps);
      IdsFromFirstMessage(InitialAcc, ps);
      CreatedAtLastWriteWins(InitialAcc, ps);
    }
  }
}
