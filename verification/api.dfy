/**
 * Response handling of the HTTP client (src/lib/api.ts): the normaliser
 * that turns any thrown value into a user-facing message, the body
 * pre-check before JSON parsing, and the per-endpoint classification of
 * a non-2xx status into an `ApiError` message and code. The transport
 * and `JSON.parse` are outside the model: an exchange either produced no
 * response (carrying what `fetch` threw) or a status, status text and
 * body text, and the JSON parser is a parameter.
 */
module Api {
  import opened Common

  // The long messages are written as short pieces so that the verifier can look inside them.
  const DefaultNetworkMessage: string :=
    "Unable to " + "connect. " + "Please check " + "your internet " + "connection " + "and try again."
  const UnexpectedResponse: string := "Server returned " + "an unexpected " + "response. " + "Please try " + "again later."
  const NoTokenMessage: string := "No token " + "received " + "from server"

  /** The `code` field of an `ApiError`. */
  datatype Code = AlreadyVoted | InvalidOtp | Unauthorized

  /** Everything a client call may throw, by the shape its `catch` block inspects. */
  datatype Thrown =
    | ApiError(message: string, status: int, code: Option<Code>)  // an object with `status` and `message`
    | JsError(message: string)                                    // an `Error` instance
    | PlainObject(messageField: Option<string>)                   // another object; `Some` when `message` is a string
    | NonObject                                                   // null, undefined, a string, a number, ...

  /** One entry of `failed_votes` in a vote response. */
  datatype FailedVote = FailedVote(postId: int, error: string)

  /** The fields of a parsed JSON object body that the client reads. */
  datatype Body = Body(
    message: Option<string>, error: Option<string>, token: Option<string>,
    failedVotes: Option<seq<FailedVote>>)  // `Some` when `failed_votes` is an array

  const EmptyBody: Body := Body(None, None, None, None)

  datatype Response = Response(status: int, statusText: string, text: string)

  /** What a `fetch` produced: a rejection, or a response. */
  datatype Exchange = NoResponse(failure: Thrown) | Received(response: Response)

  datatype Endpoint = SendOtp | VerifyOtp | CastVote | AdminLogin

  /** `response.ok`. */
  predicate IsOk(status: int) {
    200 <= status <= 299
  }

  // ---------------------------------------------------------------------
  // getNetworkErrorMessage
  // ---------------------------------------------------------------------

  const FetchFailurePatterns: seq<string> := ["failed to fetch", "load failed", "networkerror", "network request failed"]

  /** `/failed to fetch|load failed|networkerror|network request failed/i`. */
  predicate IsFetchFailure(msg: string) {
    exists i :: 0 <= i < |FetchFailurePatterns| && Contains(LowerAsciiString(msg), FetchFailurePatterns[i])
  }

  lemma DefaultIsTrimmed()
    ensures DefaultNetworkMessage != "" && Trim(DefaultNetworkMessage) == DefaultNetworkMessage
  {
    assert DefaultNetworkMessage[0] == 'U';
    assert DefaultNetworkMessage[|DefaultNetworkMessage| - 1] == '.';
    TrimOfTrimmed(DefaultNetworkMessage);
  }

  /** A pattern with a letter the message lacks in either case cannot match the message case-insensitively. */
  lemma AbsentLetter(msg: string, p: string, j: int)
    requires 0 <= j < |p| && 'a' <= p[j] <= 'z'
    requires p[j] !in msg && (p[j] as int - 32) as char !in msg
    ensures !Contains(LowerAsciiString(msg), p)
  {
    var lower := LowerAsciiString(msg);
    forall i | 0 <= i <= |lower| - |p| ensures !OccursAt(lower, p, i) {
      assert i + j < |msg| ==> msg[i + j] in msg;
    }
  }

  /** The trimmed string message of a non-`Error` object, or the default. */
  function ObjectMessage(message: Option<string>): (r: string)
    ensures r != "" && Trim(r) == r
    ensures r == DefaultNetworkMessage || (message.Some? && r == Trim(message.value))
    ensures message.Some? && Trim(message.value) != "" ==> r == Trim(message.value)
  {
    DefaultIsTrimmed();
    if message.Some? && Trim(message.value) != "" then
      TrimIdempotent(message.value);
      Trim(message.value)
    else DefaultNetworkMessage
  }

  /** The `Error` branch of `getNetworkErrorMessage`: the trimmed message, unless it is blank or names a fetch failure. */
  function ErrorInstanceMessage(m: string): (r: string)
    ensures r != "" && Trim(r) == r
    ensures r == DefaultNetworkMessage <==> Trim(m) == "" || IsFetchFailure(Trim(m)) || Trim(m) == DefaultNetworkMessage
    ensures r != DefaultNetworkMessage ==> r == Trim(m)
  {
    DefaultIsTrimmed();
    var msg := Trim(m);
    TrimIdempotent(m);
    if msg == "" || IsFetchFailure(msg) then DefaultNetworkMessage else msg
  }

  /** `getNetworkErrorMessage`: a non-empty, already trimmed message for any thrown value. */
  function NetworkMessage(t: Thrown): (r: string)
    ensures r != "" && Trim(r) == r
    ensures t.JsError? ==>
              (r == DefaultNetworkMessage
               <==> Trim(t.message) == "" || IsFetchFailure(Trim(t.message)) || Trim(t.message) == DefaultNetworkMessage)
    ensures t.JsError? && r != DefaultNetworkMessage ==> r == Trim(t.message)
    ensures t.PlainObject? ==> r == ObjectMessage(t.messageField)
    ensures t.NonObject? ==> r == DefaultNetworkMessage
  {
    if t.JsError? then ErrorInstanceMessage(t.message) else OtherMessage(t)
  }

  /** `getNetworkErrorMessage` on anything but an `Error` instance. */
  function OtherMessage(t: Thrown): (r: string)
    requires !t.JsError?
    ensures r != "" && Trim(r) == r
    ensures t.PlainObject? ==> r == ObjectMessage(t.messageField)
    ensures t.NonObject? ==> r == DefaultNetworkMessage
  {
    match t
    case ApiError(m, _, _) => ObjectMessage(Some(m))
    case PlainObject(m) => ObjectMessage(m)
    case NonObject => DefaultIsTrimmed(); DefaultNetworkMessage
  }

  // ---------------------------------------------------------------------
  // parseJsonResponse
  // ---------------------------------------------------------------------

  /**
   * `parseJsonResponse`: a body that looks like HTML is rejected before
   * parsing, a blank body reads as `{}`, anything else goes to the JSON
   * parser, whose failure is reported with the same message.
   */
  function ParseJsonResponse(text: string, jsonParse: string -> Option<Body>): (r: Result<Body, Thrown>)
    ensures StartsWith(Trim(text), "<") ==> r == Failure(JsError(UnexpectedResponse))
    ensures Trim(text) == "" ==> r == Success(EmptyBody)
    ensures r.Failure? ==> r.error == JsError(UnexpectedResponse)
    ensures r.Success? && Trim(text) != "" ==> jsonParse(text) == Some(r.value)
    ensures !StartsWith(Trim(text), "<") && Trim(text) != "" ==>
              (r.Success? <==> jsonParse(text).Some?)
  {
    var trimmed := Trim(text);
    DoctypeCheckRedundant(trimmed);
    if StartsWith(trimmed, "<") || StartsWith(trimmed, "<!") then Failure(JsError(UnexpectedResponse))
    else if trimmed == "" then Success(EmptyBody)
    else
      match jsonParse(text)
      case Some(b) => Success(b)
      case None => Failure(JsError(UnexpectedResponse))
  }

  /** The `<!` test adds nothing: every string starting with `<!` starts with `<`. */
  lemma DoctypeCheckRedundant(s: string)
    ensures StartsWith(s, "<!") ==> StartsWith(s, "<")
  {
    if StartsWith(s, "<!") {
      assert s[..1] == s[..2][..1];
    }
  }

  // ---------------------------------------------------------------------
  // Status classification
  // ---------------------------------------------------------------------

  /** The message before the status-specific cases: `data.message || data.error || fallback`. */
  function BaseMessage(data: Body, fallback: string): (r: string)
    ensures data.message.Some? && data.message.value != "" ==> r == data.message.value
    ensures (data.message.None? || data.message.value == "") && data.error.Some? && data.error.value != "" ==>
              r == data.error.value
    ensures (data.message.None? || data.message.value == "") && (data.error.None? || data.error.value == "") ==>
              r == fallback
  {
    OrElse(data.message, OrElse(data.error, fallback))
  }

  /** `sendOtp` on a non-2xx status. */
  function ClassifySendOtp(status: int, statusText: string, data: Body): (e: Thrown)
    ensures e.ApiError? && e.status == status
    ensures e.code == Some(AlreadyVoted) <==> status == 403
    ensures e.code.None? <==> status != 403
    ensures status == 404 ==> e.message == "Phone number not found in voter database."
    ensures status == 400 ==> e.message == OrElse(data.message, "Invalid phone number format.")
    ensures status != 400 && status != 403 && status != 404 ==>
              e.message == BaseMessage(data, "Failed to send OTP: " + statusText)
  {
    var base := BaseMessage(data, "Failed to send OTP: " + statusText);
    if status == 404 then ApiError("Phone number not found in voter database.", status, None)
    else if status == 403 then ApiError("You have already voted. Cannot request OTP again.", status, Some(AlreadyVoted))
    else if status == 400 then ApiError(OrElse(data.message, "Invalid phone number format."), status, None)
    else ApiError(base, status, None)
  }

  /** `verifyOtp` on a non-2xx status. */
  function ClassifyVerifyOtp(status: int, statusText: string, data: Body): (e: Thrown)
    ensures e.ApiError? && e.status == status
    ensures e.code == Some(InvalidOtp) <==> status == 400 || status == 401
    ensures e.code == Some(AlreadyVoted) <==> status == 403
    ensures e.code.None? <==> status != 400 && status != 401 && status != 403
    ensures status == 401 ==> e.message == "Invalid OTP. Please check and try again."
    ensures status == 403 ==> e.message == OrElse(data.message, "You have already voted. Cannot login again.")
    ensures status == 400 ==> e.message == OrElse(data.message, "Invalid or expired OTP. Please check and try again.")
    ensures status == 404 ==> e.message == OrElse(data.message, "Voter not found.")
    ensures status != 400 && status != 401 && status != 403 && status != 404 ==>
              e.message == BaseMessage(data, "Failed to verify OTP: " + statusText)
  {
    var base := BaseMessage(data, "Failed to verify OTP: " + statusText);
    if status == 401 then ApiError("Invalid OTP. Please check and try again.", status, Some(InvalidOtp))
    else if status == 403 then ApiError(OrElse(data.message, "You have already voted. Cannot login again."), status, Some(AlreadyVoted))
    else if status == 400 then ApiError(OrElse(data.message, "Invalid or expired OTP. Please check and try again."), status, Some(InvalidOtp))
    else if status == 404 then ApiError(OrElse(data.message, "Voter not found."), status, None)
    else ApiError(base, status, None)
  }

  /** `items.join(separator)`. */
  function Join(items: seq<string>, separator: string): (r: string)
    ensures |items| == 0 ==> r == ""
    ensures |items| == 1 ==> r == items[0]
  {
    if |items| == 0 then ""
    else if |items| == 1 then items[0]
    else items[0] + separator + Join(items[1..], separator)
  }

  /** Joining one more item appends the separator and the item. */
  lemma {:induction false} JoinSnoc(items: seq<string>, item: string, separator: string)
    requires |items| > 0
    ensures Join(items + [item], separator) == Join(items, separator) + separator + item
    decreases |items|
  {
    var all := items + [item];
    assert all[0] == items[0] && all[1..] == items[1..] + [item];
    if |items| > 1 {
      JoinSnoc(items[1..], item, separator);
      assert Join(all, separator) == items[0] + separator + (Join(items[1..], separator) + separator + item);
    } else {
      assert all[1..] == [item];
    }
  }

  /** One entry of the failed-votes list: `Post ${fv.post_id}: ${fv.error}`. */
  function FailedVoteText(fv: FailedVote): string {
    "Post " + IntToString(fv.postId) + ": " + fv.error
  }

  const FailedVotesLead: string := " Failed votes: "

  /** The entries' texts, in order. */
  function FailedVoteTexts(fvs: seq<FailedVote>): (r: seq<string>)
    ensures |r| == |fvs|
  {
    seq(|fvs|, i requires 0 <= i < |fvs| => FailedVoteText(fvs[i]))
  }

  /** The text appended when the body carries a `failed_votes` array (even an empty one). */
  function FailedVotesSuffix(failed: Option<seq<FailedVote>>): (r: string)
    ensures failed.None? <==> r == ""
    ensures failed.Some? ==> StartsWith(r, FailedVotesLead)
  {
    match failed
    case None => ""
    case Some(fvs) =>
      var suffix := FailedVotesLead + Join(FailedVoteTexts(fvs), ", ");
      assert suffix[..|FailedVotesLead|] == FailedVotesLead;
      suffix
  }

  /** An empty array still adds the lead text; a single failed vote adds just its own entry. */
  lemma FailedVotesSuffixShort(fv: FailedVote)
    ensures FailedVotesSuffix(Some([])) == " Failed votes: "
    ensures FailedVotesSuffix(Some([fv])) == " Failed votes: Post " + IntToString(fv.postId) + ": " + fv.error
  {
    assert FailedVoteTexts([fv]) == [FailedVoteText(fv)];
  }

  /** Each further failed vote appends `, Post <id>: <error>`, in array order. */
  lemma FailedVotesSuffixSnoc(fvs: seq<FailedVote>, fv: FailedVote)
    requires |fvs| > 0
    ensures FailedVotesSuffix(Some(fvs + [fv]))
            == FailedVotesSuffix(Some(fvs)) + ", Post " + IntToString(fv.postId) + ": " + fv.error
  {
    var texts := FailedVoteTexts(fvs);
    var entry := FailedVoteText(fv);
    assert FailedVoteTexts(fvs + [fv]) == texts + [entry];
    JoinSnoc(texts, entry, ", ");
    var joined := Join(texts, ", ");
    assert FailedVotesSuffix(Some(fvs + [fv])) == FailedVotesLead + (joined + ", " + entry);
    assert FailedVotesSuffix(Some(fvs)) == FailedVotesLead + joined;
    AppendEntry(FailedVotesLead, joined, fv);
  }

  /** The string reshaping behind `FailedVotesSuffixSnoc`. */
  lemma AppendEntry(lead: string, joined: string, fv: FailedVote)
    ensures lead + (joined + ", " + FailedVoteText(fv))
            == lead + joined + ", Post " + IntToString(fv.postId) + ": " + fv.error
  {
    var id := IntToString(fv.postId);
    assert ", " + FailedVoteText(fv) == ", Post " + id + ": " + fv.error;
  }

  /** The message of a `castVote` error before any `failed_votes` are appended. */
  function CastVoteMessage(status: int, statusText: string, data: Body): string {
    if status == 401 then "Session expired. Please login again."
    else if status == 403 then "You have already voted for one or more posts."
    else if status == 400 then OrElse(data.message, "Invalid vote data. Please check your selections.")
    else if status == 404 then OrElse(data.message, "Post or candidate not found.")
    else BaseMessage(data, "Failed to cast vote: " + statusText)
  }

  /** `castVote` on a non-2xx status. */
  function ClassifyCastVote(status: int, statusText: string, data: Body): (e: Thrown)
    ensures e.ApiError? && e.status == status
    ensures e.code == Some(Unauthorized) <==> status == 401
    ensures e.code == Some(AlreadyVoted) <==> status == 403
    ensures e.code.None? <==> status != 401 && status != 403
    ensures e.message == CastVoteMessage(status, statusText, data) + FailedVotesSuffix(data.failedVotes)
    ensures status == 401 ==> e.message == "Session expired. Please login again." + FailedVotesSuffix(data.failedVotes)
    ensures status == 403 ==> e.message == "You have already voted for one or more posts." + FailedVotesSuffix(data.failedVotes)
    ensures status == 400 ==>
              e.message == OrElse(data.message, "Invalid vote data. Please check your selections.") + FailedVotesSuffix(data.failedVotes)
    ensures status == 404 ==> e.message == OrElse(data.message, "Post or candidate not found.") + FailedVotesSuffix(data.failedVotes)
    ensures status != 400 && status != 401 && status != 403 && status != 404 ==>
              e.message == BaseMessage(data, "Failed to cast vote: " + statusText) + FailedVotesSuffix(data.failedVotes)
    ensures StartsWith(e.message, CastVoteMessage(status, statusText, data))
  {
    var message := CastVoteMessage(status, statusText, data);
    var code := if status == 401 then Some(Unauthorized) else if status == 403 then Some(AlreadyVoted) else None;
    var full := message + FailedVotesSuffix(data.failedVotes);
    assert full[..|message|] == message;
    ApiError(full, status, code)
  }

  /** `adminLogin` on a non-2xx status: never a code. */
  function ClassifyAdminLogin(status: int, statusText: string, data: Body): (e: Thrown)
    ensures e.ApiError? && e.status == status && e.code.None?
    ensures status == 401 ==> e.message == OrElse(data.message, "Invalid email or password.")
    ensures status != 401 ==> e.message == BaseMessage(data, "Login failed: " + statusText)
  {
    if status == 401 then ApiError(OrElse(data.message, "Invalid email or password."), status, None)
    else ApiError(BaseMessage(data, "Login failed: " + statusText), status, None)
  }

  /** The `ApiError` a call throws for a non-2xx status, by endpoint. */
  function Classify(ep: Endpoint, status: int, statusText: string, data: Body): (e: Thrown)
    ensures e.ApiError? && e.status == status
    ensures status == 403 ==> (e.code == Some(AlreadyVoted) <==> ep != AdminLogin)
  {
    match ep
    case SendOtp => ClassifySendOtp(status, statusText, data)
    case VerifyOtp => ClassifyVerifyOtp(status, statusText, data)
    case CastVote => ClassifyCastVote(status, statusText, data)
    case AdminLogin => ClassifyAdminLogin(status, statusText, data)
  }

  /** The endpoints whose success requires a `token` in the body. */
  predicate NeedsToken(ep: Endpoint) {
    ep == VerifyOtp || ep == AdminLogin
  }

  /** The shared `catch`: anything with a status and message passes unchanged, the rest becomes an `Error`. */
  function Rethrow(t: Thrown): (r: Thrown)
    ensures t.ApiError? ==> r == t
    ensures !t.ApiError? ==> r == JsError(NetworkMessage(t))
  {
    if t.ApiError? then t else JsError(NetworkMessage(t))
  }

  /** The `try` block of a client call once a response arrived, with the shared `catch` applied. */
  function Settle(ep: Endpoint, resp: Response, jsonParse: string -> Option<Body>): (r: Result<Body, Thrown>)
    ensures r.Failure? ==> r.error.ApiError? || r.error.JsError?
    ensures r.Failure? && r.error.JsError? ==> r.error.message != "" && Trim(r.error.message) == r.error.message
    ensures r.Failure? && r.error.ApiError? ==> !IsOk(resp.status) && r.error.status == resp.status
    // Success exactly for a 2xx response with a readable body carrying a token where one is needed; the value is the body.
    ensures var parsed := ParseJsonResponse(resp.text, jsonParse);
            && (r.Success? <==>
                  IsOk(resp.status) && parsed.Success?
                  && (NeedsToken(ep) ==> parsed.value.token.Some? && parsed.value.token.value != ""))
            && (r.Success? ==> r.value == parsed.value)
    // A readable non-2xx response throws the endpoint's `ApiError`.
    ensures var parsed := ParseJsonResponse(resp.text, jsonParse);
            !IsOk(resp.status) && parsed.Success? ==> r == Failure(Classify(ep, resp.status, resp.statusText, parsed.value))
  {
    match ParseJsonResponse(resp.text, jsonParse)
    case Failure(t) => Failure(Rethrow(t))
    case Success(data) =>
      if !IsOk(resp.status) then Failure(Rethrow(Classify(ep, resp.status, resp.statusText, data)))
      else if NeedsToken(ep) && OrElse(data.token, "") == "" then Failure(Rethrow(JsError(NoTokenMessage)))
      else Success(data)
  }

  /** One client call, from the exchange to its resolved body or thrown value. */
  function Call(ep: Endpoint, exchange: Exchange, jsonParse: string -> Option<Body>): (r: Result<Body, Thrown>)
    ensures r.Failure? ==> r.error.ApiError? || r.error.JsError?
    ensures r.Failure? && r.error.JsError? ==> r.error.message != "" && Trim(r.error.message) == r.error.message
    ensures r.Failure? && r.error.ApiError? ==>
              (exchange.NoResponse? && exchange.failure == r.error)
              || (exchange.Received? && !IsOk(exchange.response.status) && r.error.status == exchange.response.status)
    ensures r.Success? ==>
              exchange.Received? && IsOk(exchange.response.status) && (NeedsToken(ep) ==> r.value.token.Some? && r.value.token.value != "")
    // A rejected `fetch`: an `ApiError`-shaped value passes unchanged, anything else becomes the normalised `Error`.
    ensures exchange.NoResponse? && exchange.failure.ApiError? ==> r == Failure(exchange.failure)
    ensures exchange.NoResponse? && !exchange.failure.ApiError? ==> r == Failure(JsError(NetworkMessage(exchange.failure)))
    // A response succeeds exactly when it is 2xx, its body is readable and, where needed, carries a token; the value is the body.
    ensures exchange.Received? ==>
              var parsed := ParseJsonResponse(exchange.response.text, jsonParse);
              (r.Success? <==>
                 IsOk(exchange.response.status) && parsed.Success?
                 && (NeedsToken(ep) ==> parsed.value.token.Some? && parsed.value.token.value != ""))
              && (r.Success? ==> r.value == parsed.value)
    // A readable non-2xx response throws the endpoint's `ApiError`.
    ensures exchange.Received? && !IsOk(exchange.response.status) ==>
              var parsed := ParseJsonResponse(exchange.response.text, jsonParse);
              parsed.Success? ==> r == Failure(Classify(ep, exchange.response.status, exchange.response.statusText, parsed.value))
  {
    match exchange
    case NoResponse(t) => Failure(Rethrow(t))
    case Received(resp) => Settle(ep, resp, jsonParse)
  }

  // ---------------------------------------------------------------------
  // Properties of whole calls
  // ---------------------------------------------------------------------

  /** A trimmed message that names no fetch failure is passed through the normaliser unchanged. */
  lemma PassThrough(m: string)
    requires m != "" && Trim(m) == m && !IsFetchFailure(m)
    ensures NetworkMessage(JsError(m)) == m
  {
  }

  /** Each pattern has a letter, given by its position, that `m` lacks in both cases. */
  lemma NoFetchFailureByLetters(m: string, j0: int, j1: int, j2: int, j3: int)
    requires 0 <= j0 < 15 && 0 <= j1 < 11 && 0 <= j2 < 12 && 0 <= j3 < 22
    requires var p := FetchFailurePatterns[0]; 'a' <= p[j0] <= 'z' && p[j0] !in m && (p[j0] as int - 32) as char !in m
    requires var p := FetchFailurePatterns[1]; 'a' <= p[j1] <= 'z' && p[j1] !in m && (p[j1] as int - 32) as char !in m
    requires var p := FetchFailurePatterns[2]; 'a' <= p[j2] <= 'z' && p[j2] !in m && (p[j2] as int - 32) as char !in m
    requires var p := FetchFailurePatterns[3]; 'a' <= p[j3] <= 'z' && p[j3] !in m && (p[j3] as int - 32) as char !in m
    ensures !IsFetchFailure(m)
  {
    AbsentLetter(m, FetchFailurePatterns[0], j0);
    AbsentLetter(m, FetchFailurePatterns[1], j1);
    AbsentLetter(m, FetchFailurePatterns[2], j2);
    AbsentLetter(m, FetchFailurePatterns[3], j3);
  }

  /** The letters of the patterns that the messages below lack. */
  lemma PatternLetters()
    ensures FetchFailurePatterns[0][14] == 'h'
    ensures FetchFailurePatterns[1][5] == 'f' && FetchFailurePatterns[1][6] == 'a'
    ensures FetchFailurePatterns[2][3] == 'w' && FetchFailurePatterns[2][6] == 'k'
    ensures FetchFailurePatterns[3][16] == 'f' && FetchFailurePatterns[3][17] == 'a'
  {
  }

  /** A message without the letters h, f and k, in either case, names no fetch failure. */
  lemma WithoutHfk(m: string)
    requires 'h' !in m && 'H' !in m && 'f' !in m && 'F' !in m && 'k' !in m && 'K' !in m
    ensures !IsFetchFailure(m)
  {
    PatternLetters();
    NoFetchFailureByLetters(m, 14, 5, 6, 16);
  }

  /** A message without the letters h, a and w, in either case, names no fetch failure. */
  lemma WithoutHaw(m: string)
    requires 'h' !in m && 'H' !in m && 'a' !in m && 'A' !in m && 'w' !in m && 'W' !in m
    ensures !IsFetchFailure(m)
  {
    PatternLetters();
    NoFetchFailureByLetters(m, 14, 6, 3, 17);
  }

  // Which letters the fixed messages lack, one letter at a time.

  lemma UnexpectedResponseLacksH()
    ensures 'h' !in UnexpectedResponse && 'H' !in UnexpectedResponse
  {
  }

  lemma UnexpectedResponseLacksF()
    ensures 'f' !in UnexpectedResponse && 'F' !in UnexpectedResponse
  {
  }

  lemma UnexpectedResponseLacksK()
    ensures 'k' !in UnexpectedResponse && 'K' !in UnexpectedResponse
  {
  }

  lemma NoTokenLacksH()
    ensures 'h' !in NoTokenMessage && 'H' !in NoTokenMessage
  {
  }

  lemma NoTokenLacksA()
    ensures 'a' !in NoTokenMessage && 'A' !in NoTokenMessage
  {
  }

  lemma NoTokenLacksW()
    ensures 'w' !in NoTokenMessage && 'W' !in NoTokenMessage
  {
  }

  /** The parser's own message names no fetch failure. */
  lemma UnexpectedResponseIsNoFetchFailure()
    ensures !IsFetchFailure(UnexpectedResponse)
  {
    UnexpectedResponseLacksH();
    UnexpectedResponseLacksF();
    UnexpectedResponseLacksK();
    WithoutHfk(UnexpectedResponse);
  }

  /** The parser's own message is passed through the normaliser unchanged. */
  lemma UnexpectedResponseSurvivesNormaliser()
    ensures NetworkMessage(JsError(UnexpectedResponse)) == UnexpectedResponse
  {
    var m := UnexpectedResponse;
    assert m[0] == 'S' && m[|m| - 1] == '.';
    TrimOfTrimmed(m);
    UnexpectedResponseIsNoFetchFailure();
    PassThrough(m);
  }

  /** An HTML body is never classified: whatever the status, the call fails with the generic message. */
  lemma HtmlBodyFailsClosed(ep: Endpoint, resp: Response, jsonParse: string -> Option<Body>)
    requires StartsWith(Trim(resp.text), "<")
    ensures Call(ep, Received(resp), jsonParse) == Failure(JsError(UnexpectedResponse))
  {
    UnexpectedResponseSurvivesNormaliser();
  }

  /** A rejection whose `Error` message names a fetch failure reaches the caller as the default connection message. */
  lemma FetchFailureIsDefault(ep: Endpoint, m: string, jsonParse: string -> Option<Body>)
    requires Trim(m) == m && IsFetchFailure(m)
    ensures Call(ep, NoResponse(JsError(m)), jsonParse) == Failure(JsError(DefaultNetworkMessage))
  {
  }

  /** The browser's "Failed to fetch" rejection is one of them. */
  lemma FailedFetchIsDefault(ep: Endpoint, jsonParse: string -> Option<Body>)
    ensures Call(ep, NoResponse(JsError("Failed to fetch")), jsonParse) == Failure(JsError(DefaultNetworkMessage))
  {
    FailedToFetchMatches();
    FetchFailureIsDefault(ep, "Failed to fetch", jsonParse);
  }

  /** "Failed to fetch" is already trimmed and matches the first pattern. */
  lemma FailedToFetchMatches()
    ensures Trim("Failed to fetch") == "Failed to fetch"
    ensures IsFetchFailure("Failed to fetch")
  {
    FailedToFetchTrimmed();
    LowerFailedToFetch();
    var lower := LowerAsciiString("Failed to fetch");
    assert lower[0..|FetchFailurePatterns[0]|] == FetchFailurePatterns[0];
    assert OccursAt(lower, FetchFailurePatterns[0], 0);
    assert Contains(lower, FetchFailurePatterns[0]);
  }

  lemma FailedToFetchTrimmed()
    ensures Trim("Failed to fetch") == "Failed to fetch"
  {
    var m := "Failed to fetch";
    assert m[0] == 'F' && m[|m| - 1] == 'h';
    TrimOfTrimmed(m);
  }

  /** Lower-casing "Failed to fetch" gives the first pattern. */
  lemma LowerFailedToFetch()
    ensures LowerAsciiString("Failed to fetch") == FetchFailurePatterns[0]
  {
    var m := "Failed to fetch";
    var p := FetchFailurePatterns[0];
    assert p == "failed to fetch";
    forall i | 0 <= i < |m| ensures LowerAscii(m[i]) == p[i] {
      if i == 0 {
        assert m[i] == 'F';
      } else {
        assert m[i] == p[i] && !('A' <= m[i] <= 'Z');
      }
    }
  }

  /** A 403 with a readable body is `ALREADY_VOTED` on every voter endpoint. */
  lemma ForbiddenMeansAlreadyVoted(ep: Endpoint, resp: Response, jsonParse: string -> Option<Body>)
    requires ep != AdminLogin && resp.status == 403
    requires ParseJsonResponse(resp.text, jsonParse).Success?
    ensures var r := Call(ep, Received(resp), jsonParse);
            r.Failure? && r.error.ApiError? && r.error.status == 403 && r.error.code == Some(AlreadyVoted)
  {
    var data := ParseJsonResponse(resp.text, jsonParse).value;
    var e := Classify(ep, resp.status, resp.statusText, data);
    assert Call(ep, Received(resp), jsonParse) == Failure(Rethrow(e));
  }

  /** A successful login or OTP check whose body has no token is still a failure. */
  lemma MissingTokenFails(ep: Endpoint, resp: Response, jsonParse: string -> Option<Body>)
    requires NeedsToken(ep) && IsOk(resp.status)
    ensures var parsed := ParseJsonResponse(resp.text, jsonParse);
            parsed.Success? && parsed.value.token in {None, Some("")} ==>
              Call(ep, Received(resp), jsonParse) == Failure(JsError(NoTokenMessage))
  {
    NoTokenSurvivesNormaliser();
  }

  /** The missing-token message is passed through the normaliser unchanged. */
  lemma NoTokenSurvivesNormaliser()
    ensures NetworkMessage(JsError(NoTokenMessage)) == NoTokenMessage
  {
    var m := NoTokenMessage;
    assert m[0] == 'N' && m[|m| - 1] == 'r';
    TrimOfTrimmed(m);
    NoTokenLacksH();
    NoTokenLacksA();
    NoTokenLacksW();
    WithoutHaw(m);
    PassThrough(m);
  }
}
