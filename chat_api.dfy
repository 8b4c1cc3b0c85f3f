/**
 * `sendChatMessage` around the decoder: the app id gate, the login check, the
 * request body, the HTTP status handling, and the final result built from
 * the decoded fields.
 */
module ChatApi {
  import opened Wrappers
  import opened JsText
  import opened SseLines
  import opened ChatDecoder

  const Dash: CodeUnit := 45
  const UnknownError: Text := [85, 110, 107, 110, 111, 119, 110, 32, 101, 114, 114, 111, 114]  // "Unknown error"

  // ---------------------------------------------------------------------
  // App id

  predicate IsDashPosition(i: int)
  {
    i == 8 || i == 13 || i == 18 || i == 23
  }

  /** `UUID_REGEX.test(s)`: 36 code units, dashes at 8, 13, 18, 23, hex digits of either case elsewhere. */
  predicate IsUuid(s: Text)
  {
    |s| == 36 && forall i :: 0 <= i < 36 ==> if IsDashPosition(i) then s[i] == Dash else IsHexDigit(s[i])
  }

  predicate AllHex(g: Text)
  {
    forall i :: 0 <= i < |g| ==> IsHexDigit(g[i])
  }

  /**
   * The UUID test read group by group: five runs of 8, 4, 4, 4 and 12 hex
   * digits joined by dashes.
   */
  lemma UuidByGroups(s: Text)
    ensures IsUuid(s) <==>
      |s| == 36
      && AllHex(s[..8]) && s[8] == Dash && AllHex(s[9..13]) && s[13] == Dash
      && AllHex(s[14..18]) && s[18] == Dash && AllHex(s[19..23]) && s[23] == Dash
      && AllHex(s[24..])
  {
    if |s| == 36
      && AllHex(s[..8]) && s[8] == Dash && AllHex(s[9..13]) && s[13] == Dash
      && AllHex(s[14..18]) && s[18] == Dash && AllHex(s[19..23]) && s[23] == Dash
      && AllHex(s[24..])
    {
      forall i | 0 <= i < 36 && !IsDashPosition(i) ensures IsHexDigit(s[i]) {
        if i < 8 { assert s[..8][i] == s[i]; }
        else if i < 13 { assert s[9..13][i - 9] == s[i]; }
        else if i < 18 { assert s[14..18][i - 14] == s[i]; }
        else if i < 23 { assert s[19..23][i - 19] == s[i]; }
        else { assert s[24..][i - 24] == s[i]; }
      }
    }
    if IsUuid(s) {
      assert AllHex(s[..8]) by { forall i | 0 <= i < 8 ensures IsHexDigit(s[..8][i]) { assert !IsDashPosition(i); } }
      assert AllHex(s[9..13]) by { forall i | 0 <= i < 4 ensures IsHexDigit(s[9..13][i]) { assert !IsDashPosition(i + 9); } }
      assert AllHex(s[14..18]) by { forall i | 0 <= i < 4 ensures IsHexDigit(s[14..18][i]) { assert !IsDashPosition(i + 14); } }
      assert AllHex(s[19..23]) by { forall i | 0 <= i < 4 ensures IsHexDigit(s[19..23][i]) { assert !IsDashPosition(i + 19); } }
      assert AllHex(s[24..]) by { forall i | 0 <= i < 12 ensures IsHexDigit(s[24..][i]) { assert !IsDashPosition(i + 24); } }
    }
  }

  /** A blank id is never a UUID: the blank check only chooses the error. */
  lemma BlankIdIsNotUuid(s: Text)
    requires Trim(s, IsSpaceUnit) == []
    ensures !IsUuid(s)
  {
    TrimEmptyIffBlank(s, IsSpaceUnit);
    if |s| == 36 {
      assert IsSpaceUnit(s[0]);
      assert !IsHexDigit(s[0]);
    }
  }

  // ---------------------------------------------------------------------
  // Request body

  datatype TransferMethod = LocalFile | RemoteUrl

  /** A `VisionFile` attachment (its `type` is always `'image'`). */
  datatype VisionFile = VisionFile(transferMethod: TransferMethod, url: Text, uploadFileId: Option<Text>)

  /** The attachment as sent: a local file loses its url, a remote one is kept as is. */
  function OutgoingFile(f: VisionFile): (r: VisionFile)
    ensures r.transferMethod == f.transferMethod && r.uploadFileId == f.uploadFileId
    ensures f.transferMethod == LocalFile ==> r.url == []
    ensures f.transferMethod == RemoteUrl ==> r == f
  {
    if f.transferMethod == LocalFile then f.(url := []) else f
  }

  /**
   * The `files` key: absent when the list is missing or empty, otherwise every
   * attachment mapped in place, order and count kept.
   */
  function OutgoingFiles(files: Option<seq<VisionFile>>): (r: Option<seq<VisionFile>>)
    ensures r.None? <==> files.None? || files.value == []
    ensures r.Some? ==> |r.value| == |files.value|
    ensures r.Some? ==> forall i :: 0 <= i < |r.value| ==>
              && r.value[i].transferMethod == files.value[i].transferMethod
              && r.value[i].uploadFileId == files.value[i].uploadFileId
              && r.value[i].url == (if files.value[i].transferMethod == LocalFile then [] else files.value[i].url)
  {
    if files.None? || files.value == [] then None
    else
      var fs := files.value;
      Some(seq(|fs|, i requires 0 <= i < |fs| => OutgoingFile(fs[i])))
  }

  /** Mapping the attachments a second time changes nothing. */
  lemma OutgoingFilesIdempotent(files: Option<seq<VisionFile>>)
    ensures OutgoingFiles(OutgoingFiles(files)) == OutgoingFiles(files)
  {
    var once := OutgoingFiles(files);
    if once.Some? {
      var twice := OutgoingFiles(once);
      assert |twice.value| == |once.value|;
      forall i | 0 <= i < |once.value| ensures twice.value[i] == once.value[i] {
        assert twice.value[i] == OutgoingFile(once.value[i]);
        assert once.value[i] == OutgoingFile(files.value[i]);
      }
      assert twice.value == once.value;
    }
  }

  /** `{inputs: {}, query, conversation_id, auto_generate_name: true, files?}`. */
  datatype RequestBody = RequestBody(
    query: Text,
    conversationId: Option<Text>,
    autoGenerateName: bool,
    files: Option<seq<VisionFile>>)

  function BuildBody(message: Text, conversationId: Option<Text>, files: Option<seq<VisionFile>>): RequestBody
  {
    RequestBody(message, conversationId, true, OutgoingFiles(files))
  }

  // ---------------------------------------------------------------------
  // Response and result

  /** The `message` and `error` fields of an error body. */
  datatype ErrorFields = ErrorFields(message: Text, error: Text)

  /**
   * The server's answer: its status, its error body when `response.json()`
   * parses, and its body as decoded text chunks when it has a reader.
   */
  datatype HttpResponse = HttpResponse(status: int, errorBody: Option<ErrorFields>, body: Option<seq<Text>>)

  datatype ChatError =
    | InvalidAppId            // blank id
    | MalformedAppId          // not a UUID
    | NotLoggedIn             // no token
    | SessionExpired          // status 401
    | ApiError(message: Text) // other failed status: the server's message or error
    | ApiStatusError(status: int)  // `API error: ${status}`
    | NoReader                // a body without a reader
    | StreamFailed(cause: DecodeError)
    | NoResponse              // the stream gave neither id

  datatype ChatResponse = ChatResponse(answer: Text, conversationId: Text, messageId: Text, createdAt: int)

  /** What one call does: its result, the body it posted (if any), whether it cleared the login. */
  datatype SendOutcome = SendOutcome(result: Result<ChatResponse, ChatError>, request: Option<RequestBody>, authCleared: bool)

  predicate IsOk(status: int)
  {
    200 <= status <= 299
  }

  /** The error of a failed status other than 401. */
  function StatusError(r: HttpResponse): ChatError
  {
    match r.errorBody
    case None => ApiError(UnknownError)
    case Some(f) =>
      if f.message != [] then ApiError(f.message)
      else if f.error != [] then ApiError(f.error)
      else ApiStatusError(r.status)
  }

  /** The result built after the stream: no id at all is a failure; `created_at` falls back to now. */
  function Finish(acc: Acc, nowSeconds: int): Result<ChatResponse, ChatError>
  {
    if acc.conversationId == [] && acc.messageId == [] then Failure(NoResponse)
    else
      Success(ChatResponse(acc.answer, acc.conversationId, acc.messageId,
                           if acc.createdAt != 0 then acc.createdAt else nowSeconds))
  }

  /** The outcome of a decode, as the call returns it. */
  function Conclude(decoded: Result<Acc, DecodeError>, nowSeconds: int): Result<ChatResponse, ChatError>
  {
    match decoded
    case Failure(e) => Failure(StreamFailed(e))
    case Success(acc) => Finish(acc, nowSeconds)
  }

  /**
   * `sendChatMessage`. The token, the server's response and `Date.now()` in
   * seconds are parameters; `parse` stands for `JSON.parse`.
   */
  method SendChatMessage(
    installedAppId: Text, message: Text, conversationId: Option<Text>, files: Option<seq<VisionFile>>,
    token: Option<Text>, response: HttpResponse, parse: Parser, nowSeconds: int)
    returns (out: SendOutcome)
    ensures Trim(installedAppId, IsSpaceUnit) == [] ==> out == SendOutcome(Failure(InvalidAppId), None, false)
    ensures Trim(installedAppId, IsSpaceUnit) != [] && !IsUuid(installedAppId) ==>
              out == SendOutcome(Failure(MalformedAppId), None, false)
    ensures IsUuid(installedAppId) && (token.None? || token.value == []) ==>
              out == SendOutcome(Failure(NotLoggedIn), None, false)
    ensures out.request.Some? <==> IsUuid(installedAppId) && token.Some? && token.value != []
    ensures out.request.Some? ==> out.request.value == BuildBody(message, conversationId, files)
    ensures out.authCleared <==> out.request.Some? && response.status == 401
    ensures out.request.Some? && response.status == 401 ==> out.result == Failure(SessionExpired)
    ensures out.request.Some? && response.status != 401 && !IsOk(response.status) ==>
              out.result == Failure(StatusError(response))
    ensures out.request.Some? && IsOk(response.status) && response.body.None? ==> out.result == Failure(NoReader)
    ensures out.request.Some? && IsOk(response.status) && response.body.Some? ==>
              out.result == Conclude(Decode(response.body.value, parse), nowSeconds)
  {
    if Trim(installedAppId, IsSpaceUnit) == [] {
      BlankIdIsNotUuid(installedAppId);
      return SendOutcome(Failure(InvalidAppId), None, false);
    }
    if !IsUuid(installedAppId) {
      return SendOutcome(Failure(MalformedAppId), None, false);
    }
    if token.None? || token.value == [] {
      return SendOutcome(Failure(NotLoggedIn), None, false);
    }
    var body := BuildBody(message, conversationId, files);
    if !IsOk(response.status) {
      if response.status == 401 {
        return SendOutcome(Failure(SessionExpired), Some(body), true);
      }
      return SendOutcome(Failure(StatusError(response)), Some(body), false);
    }
    if response.body.None? {
      return SendOutcome(Failure(NoReader), Some(body), false);
    }
    var decoded := ReadStream(response.body.value, parse);
    if decoded.Failure? {
      return SendOutcome(Failure(StreamFailed(decoded.error)), Some(body), false);
    }
    var acc := decoded.value;
    if acc.conversationId == [] && acc.messageId == [] {
      return SendOutcome(Failure(NoResponse), Some(body), false);
    }
    var createdAt := if acc.createdAt != 0 then acc.createdAt else nowSeconds;
    return SendOutcome(Success(ChatResponse(acc.answer, acc.conversationId, acc.messageId, createdAt)),
                       Some(body), false);
  }

  /**
   * A call succeeds only with at least one id, and then it returns the decoded
   * answer and ids unchanged, and `created_at` is the decoded one when it is
   * set and the clock's seconds otherwise, so it is non-zero whenever the clock is.
   */
  lemma ConcludeSucceedsWithAnId(decoded: Result<Acc, DecodeError>, nowSeconds: int)
    ensures var r := Conclude(decoded, nowSeconds);
            && (r.Success? <==> decoded.Success? && (decoded.value.conversationId != [] || decoded.value.messageId != []))
            && (r.Success? ==>
                  && r.value.answer == decoded.value.answer
                  && r.value.conversationId == decoded.value.conversationId
                  && r.value.messageId == decoded.value.messageId
                  && r.value.createdAt
                     == (if decoded.value.createdAt != 0 then decoded.value.createdAt else nowSeconds)
                  && (nowSeconds != 0 ==> r.value.createdAt != 0))
  {
  }

  /** A stream of pings only (or of lines with no payload) rejects with "no response". */
  lemma PingOnlyStreamHasNoResponse(chunks: seq<Text>, parse: Parser, nowSeconds: int)
    requires var ps := Events(CompleteLines(Concat(chunks)), parse);
             forall k :: 0 <= k < |ps| ==> ps[k].event == Ping && ps[k].status != Some(400)
    ensures Conclude(Decode(chunks, parse), nowSeconds) == Failure(NoResponse)
  {
    var ps := Events(CompleteLines(Concat(chunks)), parse);
    DecodeWithoutEnd(chunks, parse);
    PingsChangeNothing(InitialAcc, ps);
    FoldFailsIffThrows(InitialAcc, ps);
    assert FirstMessage(ps).None? by {
      FirstMessageIsMessage(ps);
    }
  }

  lemma {:induction false} FirstMessageIsMessage(ps: seq<Payload>)
    ensures FirstMessage(ps).Some? <==> exists k :: 0 <= k < |ps| && IsMessageEvent(ps[k])
    decreases |ps|
  {
    if ps != [] {
      FirstMessageIsMessage(ps[1..]);
      if exists k :: 0 <= k < |ps| && IsMessageEvent(ps[k]) {
        var k :| 0 <= k < |ps| && IsMessageEvent(ps[k]);
        if k > 0 { assert IsMessageEvent(ps[1..][k - 1]); }
      }
      if exists k :: 0 <= k < |ps| - 1 && IsMessageEvent(ps[1..][k]) {
        var k :| 0 <= k < |ps| - 1 && IsMessageEvent(ps[1..][k]);
        assert IsMessageEvent(ps[k + 1]);
      }
    }
  }
}
