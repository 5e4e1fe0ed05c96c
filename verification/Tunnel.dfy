/** The request/response loop of crates/connect_proxy/src/server.rs on one tunnel: read a request, scan
    it, answer 403 or forward it on a fresh upstream connection, scan the response, reply. */
module Tunnel {
  import opened Wrappers
  import opened Utf8
  import opened Text
  import opened Verdicts
  import opened Http1
  import opened Http1RoundTrip
  import Http1Io

  const MAX_BODY_BYTES := 25 * 1024 * 1024

  type Usize = n: nat | n < USIZE_END

  /** The part of a `ScanResult` the loop looks at. */
  datatype Scan = Scan(action: Action, sanitized: string, findingCount: Usize)

  /** What the loop calls into, as it answers in the k-th exchange: the inspector on a request body, on
      the text extracted from a multipart body and on a response body, and the upstream connection (None
      when it cannot be established, otherwise every byte it sends before closing). */
  datatype Environment = Environment(
    inspect: (nat, Bytes) -> Scan,
    inspectMultipart: (nat, string, Bytes) -> Scan,
    inspectResponse: (nat, Bytes) -> Scan,
    upstream: (nat, HttpMessage) -> Option<Bytes>)

  datatype Failure = ReadFailed(error: HttpError) | UpstreamUnreachable | UpstreamSilent

  // ----- one exchange -----

  function HeaderValue(headers: seq<Header>, name: string): string {
    if headers == [] then ""
    else if Named(headers[0], name) then headers[0].value
    else HeaderValue(headers[1..], name)
  }

  function ToLowerAscii(s: string): string {
    seq(|s|, i requires 0 <= i < |s| => LowerAscii(s[i]))
  }

  predicate IsMultipart(request: HttpMessage) {
    "multipart/form-data" <= ToLowerAscii(HeaderValue(request.headers, "content-type"))
  }

  /** A multipart body cannot be masked in place, so its Redact verdict becomes Block. */
  function ScanRequest(env: Environment, k: nat, request: HttpMessage): Scan {
    if IsMultipart(request) then
      var scan := env.inspectMultipart(k, HeaderValue(request.headers, "content-type"), request.body);
      if scan.action == Redact then scan.(action := Block) else scan
    else env.inspect(k, request.body)
  }

  const FORBIDDEN := "HTTP/1.1 403 Forbidden"
  const JSON_TYPE := Header("Content-Type", "application/json")

  function BlockPage(direction: string, findingCount: nat): HttpMessage {
    HttpMessage(FORBIDDEN, [JSON_TYPE],
      Encode("{\"error\":{\"message\":\"" + direction + " blocked by SafePrompt policy\",\"finding_count\":"
          + Decimal(findingCount) + "}}"))
  }

  /** The message after its verdict: the sanitized body under Redact, untouched otherwise. */
  function Masked(m: HttpMessage, scan: Scan): HttpMessage {
    if scan.action == Redact then m.(body := Encode(scan.sanitized)) else m
  }

  function Outgoing(env: Environment, k: nat, request: HttpMessage): HttpMessage {
    Masked(request, ScanRequest(env, k, request))
  }

  predicate Stopped(env: Environment, k: nat, request: HttpMessage) {
    ScanRequest(env, k, request).action.Stops()
  }

  datatype Reply = Reply(message: HttpMessage) | NoReply(failure: Failure)

  function UpstreamReply(env: Environment, k: nat, request: HttpMessage): Reply {
    match env.upstream(k, Outgoing(env, k, request))
    case None => NoReply(UpstreamUnreachable)
    case Some(bytes) =>
      match ReadMessage(bytes, MAX_BODY_BYTES, true)
      case Failed(e) => NoReply(ReadFailed(e))
      case Done(None, _) => NoReply(UpstreamSilent)
      case Done(Some(response), _) =>
        var scan := env.inspectResponse(k, response.body);
        Reply(if scan.action.Stops() then BlockPage("Response", scan.findingCount) else Masked(response, scan))
  }

  /** The one message the client gets for its k-th request. */
  function ReplyTo(env: Environment, k: nat, request: HttpMessage): Reply {
    if Stopped(env, k, request) then Reply(BlockPage("Request", ScanRequest(env, k, request).findingCount))
    else UpstreamReply(env, k, request)
  }

  /** Whether the k-th request reaches upstream at all. */
  predicate Leaves(env: Environment, k: nat, request: HttpMessage) {
    !Stopped(env, k, request) && env.upstream(k, Outgoing(env, k, request)).Some?
  }

  /** A request that was answered reached upstream exactly when its verdict did not stop it. */
  lemma AnsweredLeavesIff(env: Environment, k: nat, request: HttpMessage)
    requires ReplyTo(env, k, request).Reply?
    ensures Leaves(env, k, request) <==> ScanRequest(env, k, request).action !in {Block, RequireApproval}
  {
  }

  // ----- what the verdicts do -----

  /** What leaves: the request with the sanitized text for its body under Redact, the request itself otherwise. */
  lemma DepartsAs(env: Environment, k: nat, request: HttpMessage)
    requires Leaves(env, k, request)
    ensures var scan := ScanRequest(env, k, request);
            Departure(env, k, request)
            == if scan.action == Redact then [HttpMessage(request.startLine, request.headers, Encode(scan.sanitized))]
               else [request]
  {
  }

  /** Under Redact the original body has no influence on what leaves: two requests with the same head and the same
      scan leave alike. */
  lemma RedactHidesRequest(env: Environment, k: nat, request: HttpMessage, other: HttpMessage)
    requires request.startLine == other.startLine && request.headers == other.headers
    requires ScanRequest(env, k, request) == ScanRequest(env, k, other)
    requires ScanRequest(env, k, request).action == Redact
    ensures Departure(env, k, request) == Departure(env, k, other)
  {
    assert Outgoing(env, k, request) == Outgoing(env, k, other);
  }

  /** The reply to a request that was not stopped: a block page under Block and RequireApproval, the response with the
      sanitized text for its body under Redact, the response itself otherwise. */
  lemma RepliesAs(env: Environment, k: nat, request: HttpMessage, bytes: Bytes, response: HttpMessage)
    requires !Stopped(env, k, request) && env.upstream(k, Outgoing(env, k, request)) == Some(bytes)
    requires ReadMessage(bytes, MAX_BODY_BYTES, true).Done?
    requires ReadMessage(bytes, MAX_BODY_BYTES, true).value == Some(response)
    ensures var scan := env.inspectResponse(k, response.body);
            ReplyTo(env, k, request)
            == Reply(match scan.action
                     case Block => BlockPage("Response", scan.findingCount)
                     case RequireApproval => BlockPage("Response", scan.findingCount)
                     case Redact => HttpMessage(response.startLine, response.headers, Encode(scan.sanitized))
                     case _ => response)
  {
    hide ReadMessage, BlockPage, Encode;
  }

  /** In the other direction: under Redact the upstream body has no influence on the reply beyond its scan, and under a
      verdict that stops it neither has the rest of the response. */
  lemma VerdictHidesResponse(env: Environment, other: Environment, k: nat, request: HttpMessage, bytes: Bytes,
      otherBytes: Bytes, response: HttpMessage, otherResponse: HttpMessage)
    requires !Stopped(env, k, request) && env.upstream(k, Outgoing(env, k, request)) == Some(bytes)
    requires !Stopped(other, k, request) && other.upstream(k, Outgoing(other, k, request)) == Some(otherBytes)
    requires ReadMessage(bytes, MAX_BODY_BYTES, true).Done?
    requires ReadMessage(bytes, MAX_BODY_BYTES, true).value == Some(response)
    requires ReadMessage(otherBytes, MAX_BODY_BYTES, true).Done?
    requires ReadMessage(otherBytes, MAX_BODY_BYTES, true).value == Some(otherResponse)
    requires env.inspectResponse(k, response.body) == other.inspectResponse(k, otherResponse.body)
    requires var action := env.inspectResponse(k, response.body).action;
             || action in {Block, RequireApproval}
             || (action == Redact && response.startLine == otherResponse.startLine
                 && response.headers == otherResponse.headers)
    ensures ReplyTo(env, k, request) == ReplyTo(other, k, request)
  {
    hide ReadMessage, BlockPage, Encode, ReplyTo, Outgoing, Stopped;
    RepliesAs(env, k, request, bytes, response);
    RepliesAs(other, k, request, otherBytes, otherResponse);
  }

  /** Without a response there is no reply: upstream cannot be reached, fails to be read, or closes without a word. */
  lemma FailsAs(env: Environment, k: nat, request: HttpMessage)
    requires !Stopped(env, k, request)
    ensures var answer := env.upstream(k, Outgoing(env, k, request));
            && (answer == None ==> ReplyTo(env, k, request) == NoReply(UpstreamUnreachable))
            && (answer.Some? ==>
                  var r := ReadMessage(answer.value, MAX_BODY_BYTES, true);
                  && (r.Failed? ==> ReplyTo(env, k, request) == NoReply(ReadFailed(r.error)))
                  && (r.Done? && r.value == None ==> ReplyTo(env, k, request) == NoReply(UpstreamSilent)))
  {
    hide ReadMessage;
  }

  /** A stopped request: nothing leaves, and the client gets the block page. */
  lemma StoppedIs(env: Environment, k: nat, request: HttpMessage)
    requires ScanRequest(env, k, request).action in {Block, RequireApproval}
    ensures Departure(env, k, request) == []
    ensures ReplyTo(env, k, request) == Reply(BlockPage("Request", ScanRequest(env, k, request).findingCount))
  {
  }

  /** The block page on the wire. */
  lemma BlockPageIs()
    ensures BlockPage("Request", 2)
            == HttpMessage("HTTP/1.1 403 Forbidden", [Header("Content-Type", "application/json")],
                 Encode("{\"error\":{\"message\":\"" + "Request" + " blocked by SafePrompt policy\",\"finding_count\":"
                        + "2" + "}}"))
  {
    hide Encode;
    assert Print(2, 10) == [DigitChar(2)] && DigitChar(2) == '2';
  }

  /** An upload is scanned as one: it leaves untouched or, also under Redact, not at all. */
  lemma UploadNotMasked(env: Environment, k: nat, request: HttpMessage)
    requires IsMultipart(request)
    ensures var action := env.inspectMultipart(k, HeaderValue(request.headers, "content-type"), request.body).action;
            && (Stopped(env, k, request) <==> action in {Redact, Block, RequireApproval})
            && (Leaves(env, k, request) ==> Departure(env, k, request) == [request])
  {
    hide IsMultipart;
  }

  /** Any other request is scanned by its body. */
  lemma OtherScannedByBody(env: Environment, k: nat, request: HttpMessage)
    requires !IsMultipart(request)
    ensures ScanRequest(env, k, request) == env.inspect(k, request.body)
  {
  }

  const MULTIPART := "multipart/form-data"

  /** The first Content-Type header decides what is an upload, by the front of its value; case does not matter in
      either. */
  lemma UploadIff(request: HttpMessage, front: seq<Header>, h: Header, back: seq<Header>)
    requires request.headers == front + [h] + back
    requires EqIgnoreAsciiCase(h.name, "Content-Type")
    requires forall g :: g in front ==> !EqIgnoreAsciiCase(g.name, "Content-Type")
    ensures IsMultipart(request)
            <==> |h.value| >= |MULTIPART| && EqIgnoreAsciiCase(h.value[..|MULTIPART|], MULTIPART)
    decreases front
  {
    FirstValue(front, h, back);
    LowerFront(h.value, MULTIPART);
  }

  lemma {:induction false} FirstValue(front: seq<Header>, h: Header, back: seq<Header>)
    requires EqIgnoreAsciiCase(h.name, "Content-Type")
    requires forall g :: g in front ==> !EqIgnoreAsciiCase(g.name, "Content-Type")
    ensures HeaderValue(front + [h] + back, "content-type") == h.value
  {
    SameContentType(h.name);
    if front == [] {
      assert front + [h] + back == [h] + back;
    } else {
      SameContentType(front[0].name);
      FirstValue(front[1..], h, back);
      assert (front + [h] + back)[1..] == front[1..] + [h] + back;
    }
  }

  lemma SameContentType(name: string)
    ensures EqIgnoreAsciiCase(name, "Content-Type") <==> EqIgnoreAsciiCase(name, "content-type")
  {
    assert forall i :: 0 <= i < 12 ==> LowerAscii("Content-Type"[i]) == LowerAscii("content-type"[i]);
  }

  lemma LowerFront(s: string, t: string)
    requires t == MULTIPART
    ensures t <= ToLowerAscii(s) <==> |s| >= |t| && EqIgnoreAsciiCase(s[..|t|], t)
  {
    assert forall i :: 0 <= i < |t| ==> LowerAscii(t[i]) == t[i];
    if |s| >= |t| {
      assert forall i :: 0 <= i < |t| ==> ToLowerAscii(s)[i] == LowerAscii(s[..|t|][i]);
      assert t <= ToLowerAscii(s) <==> forall i :: 0 <= i < |t| ==> t[i] == ToLowerAscii(s)[i];
    }
  }

  // ----- what a whole tunnel must show -----

  /** What the k-th request puts on an upstream connection: itself under its verdict, or nothing. */
  function Departure(env: Environment, k: nat, request: HttpMessage): seq<HttpMessage> {
    if Leaves(env, k, request) then [Outgoing(env, k, request)] else []
  }

  function Departures(env: Environment, requests: seq<HttpMessage>): (r: seq<seq<HttpMessage>>)
    ensures |r| == |requests| && forall i :: 0 <= i < |r| ==> r[i] == Departure(env, i, requests[i])
  {
    seq(|requests|, i requires 0 <= i < |requests| => Departure(env, i, requests[i]))
  }

  function Flatten<T>(parts: seq<seq<T>>): seq<T> {
    if parts == [] then [] else parts[0] + Flatten(parts[1..])
  }

  lemma {:induction false} FlattenAppend<T>(parts: seq<seq<T>>, last: seq<T>)
    ensures Flatten(parts + [last]) == Flatten(parts) + last
  {
    if parts == [] {
      assert [] + [last] == [last];
    } else {
      FlattenAppend(parts[1..], last);
      assert (parts + [last])[1..] == parts[1..] + [last];
    }
  }

  lemma {:induction false} InFlatten<T>(parts: seq<seq<T>>, x: T)
    ensures x in Flatten(parts) <==> exists i :: 0 <= i < |parts| && x in parts[i]
  {
    if parts != [] {
      InFlatten(parts[1..], x);
      if i :| 0 <= i < |parts[1..]| && x in parts[1..][i] {
        assert x in parts[i + 1];
      }
    }
  }

  /** One reply, or its absence, per request. */
  function AllReplies(env: Environment, requests: seq<HttpMessage>): (r: seq<Reply>)
    ensures |r| == |requests| && forall i :: 0 <= i < |r| ==> r[i] == ReplyTo(env, i, requests[i])
  {
    seq(|requests|, i requires 0 <= i < |requests| => ReplyTo(env, i, requests[i]))
  }

  /** How many requests get a reply: all, or those before the first failing exchange. */
  function Answered(replies: seq<Reply>): (n: nat)
    ensures n <= |replies|
    ensures forall i :: 0 <= i < n ==> replies[i].Reply?
    ensures n < |replies| ==> replies[n].NoReply?
  {
    if replies == [] || replies[0].NoReply? then 0 else 1 + Answered(replies[1..])
  }

  lemma AnsweredIs(replies: seq<Reply>, n: nat)
    requires n <= |replies|
    requires forall i :: 0 <= i < n ==> replies[i].Reply?
    requires n < |replies| ==> replies[n].NoReply?
    ensures Answered(replies) == n
  {
  }

  function Messages(replies: seq<Reply>): (r: seq<HttpMessage>)
    requires forall i :: 0 <= i < |replies| ==> replies[i].Reply?
    ensures |r| == |replies| && forall i :: 0 <= i < |r| ==> r[i] == replies[i].message
  {
    seq(|replies|, i requires 0 <= i < |replies| => replies[i].message)
  }

  /** Of the first n requests, what leaves is exactly each one that is not stopped and finds upstream,
      with the body its verdict prescribes. */
  lemma ForwardedExactly(env: Environment, requests: seq<HttpMessage>, n: nat, m: HttpMessage)
    requires n <= |requests|
    ensures m in Flatten(Departures(env, requests)[..n])
            <==> exists i :: 0 <= i < n && Leaves(env, i, requests[i])
                             && m == Masked(requests[i], ScanRequest(env, i, requests[i]))
  {
    var departures := Departures(env, requests);
    InFlatten(departures[..n], m);
    if i :| 0 <= i < n && Leaves(env, i, requests[i]) && m == Masked(requests[i], ScanRequest(env, i, requests[i])) {
      assert m in departures[..n][i];
    }
  }

  lemma WiresAppend(ms: seq<HttpMessage>, more: seq<HttpMessage>)
    ensures Wires(ms + more) == Wires(ms) + Wires(more)
  {
  }

  lemma {:induction false} ConcatAppend(parts: seq<Bytes>, last: Bytes)
    ensures Concat(parts + [last]) == Concat(parts) + last
  {
    if parts == [] {
      assert [] + [last] == [last];
    } else {
      ConcatAppend(parts[1..], last);
      assert (parts + [last])[1..] == parts[1..] + [last];
    }
  }

  lemma ReadAllStep(b: Bytes, requests: seq<HttpMessage>, streamEnd: Option<HttpError>)
    requires ReadAll(b, MAX_BODY_BYTES, false) == (requests, streamEnd)
    ensures var r := ReadMessage(b, MAX_BODY_BYTES, false);
            && (r.Failed? ==> requests == [] && streamEnd == Some(r.error))
            && (r.Done? && r.value == None ==> requests == [] && streamEnd == None)
            && (r.Done? && r.value.Some? ==>
                  |r.rest| < |b| && requests != [] && requests[0] == r.value.value
                  && ReadAll(r.rest, MAX_BODY_BYTES, false) == (requests[1..], streamEnd))
  {
    var r := ReadMessage(b, MAX_BODY_BYTES, false);
    if r.Done? && r.value.Some? {
      ReadMessageWithinLimit(b, MAX_BODY_BYTES, false);
    }
  }

  /** What a whole tunnel shows, for the client bytes `input` and the requests they contain: upstream got,
      each on its own connection and in order, exactly those handled requests that leave; the client got
      one reply per answered request, in order; and the tunnel ended with the first failing exchange, or
      else the way the client's stream ends. */
  ghost predicate TunnelOutcome(env: Environment, input: Bytes, wires: seq<Bytes>, sent: Bytes,
      failure: Option<Failure>) {
    var (requests, streamEnd) := ReadAll(input, MAX_BODY_BYTES, false);
    var replies := AllReplies(env, requests);
    var n := Answered(replies);
    && wires == Wires(Flatten(Departures(env, requests)[..Min(n + 1, |requests|)]))
    && sent == Concat(Wires(Messages(replies[..n])))
    && failure == if n < |requests| then Some(replies[n].failure)
                  else if streamEnd.Some? then Some(ReadFailed(streamEnd.value)) else None
  }

  /** The same after k answered requests, with `unread` still to come. */
  ghost predicate Progress(env: Environment, input: Bytes, k: nat, unread: Bytes, wires: seq<Bytes>, sent: Bytes) {
    var (requests, streamEnd) := ReadAll(input, MAX_BODY_BYTES, false);
    && k <= |requests|
    && ReadAll(unread, MAX_BODY_BYTES, false) == (requests[k..], streamEnd)
    && (forall i :: 0 <= i < k ==> AllReplies(env, requests)[i].Reply?)
    && wires == Wires(Flatten(Departures(env, requests)[..k]))
    && sent == Concat(Wires(Messages(AllReplies(env, requests)[..k])))
  }

  lemma NothingYet(env: Environment, input: Bytes)
    ensures Progress(env, input, 0, input, [], [])
  {
    var requests := ReadAll(input, MAX_BODY_BYTES, false).0;
    assert requests[0..] == requests;
    assert Departures(env, requests)[..0] == [] && AllReplies(env, requests)[..0] == [];
  }

  lemma StreamEnds(env: Environment, input: Bytes, k: nat, unread: Bytes, wires: seq<Bytes>, sent: Bytes)
    requires Progress(env, input, k, unread, wires, sent)
    requires var r := ReadMessage(unread, MAX_BODY_BYTES, false); r.Done? ==> r.value == None
    ensures var r := ReadMessage(unread, MAX_BODY_BYTES, false);
            TunnelOutcome(env, input, wires, sent, if r.Failed? then Some(ReadFailed(r.error)) else None)
  {
    hide ReadMessage, ReadAll, ReplyTo, Departure, Render;
    var (requests, streamEnd) := ReadAll(input, MAX_BODY_BYTES, false);
    ReadAllStep(unread, requests[k..], streamEnd);
    AnsweredIs(AllReplies(env, requests), k);
  }

  lemma DeparturesAdvance(departures: seq<seq<HttpMessage>>, k: nat)
    requires k < |departures|
    ensures Wires(Flatten(departures[..k])) + Wires(departures[k]) == Wires(Flatten(departures[..k + 1]))
  {
    assert departures[..k + 1] == departures[..k] + [departures[k]];
    FlattenAppend(departures[..k], departures[k]);
    WiresAppend(Flatten(departures[..k]), departures[k]);
  }

  lemma NextRequest(env: Environment, input: Bytes, k: nat, unread: Bytes, wires: seq<Bytes>, sent: Bytes)
    requires Progress(env, input, k, unread, wires, sent)
    requires var r := ReadMessage(unread, MAX_BODY_BYTES, false); r.Done? && r.value.Some?
    ensures var (requests, streamEnd) := ReadAll(input, MAX_BODY_BYTES, false);
            var r := ReadMessage(unread, MAX_BODY_BYTES, false);
            && k < |requests| && requests[k] == r.value.value
            && ReadAll(r.rest, MAX_BODY_BYTES, false) == (requests[k + 1..], streamEnd)
            && wires + Wires(Departure(env, k, requests[k])) == Wires(Flatten(Departures(env, requests)[..k + 1]))
  {
    hide ReadMessage, ReadAll, ReplyTo, Departure, Render;
    var (requests, streamEnd) := ReadAll(input, MAX_BODY_BYTES, false);
    ReadAllStep(unread, requests[k..], streamEnd);
    assert requests[k..][1..] == requests[k + 1..];
    DeparturesAdvance(Departures(env, requests), k);
  }

  lemma ExchangeFails(env: Environment, input: Bytes, k: nat, unread: Bytes, wires: seq<Bytes>, sent: Bytes)
    requires Progress(env, input, k, unread, wires, sent)
    requires var r := ReadMessage(unread, MAX_BODY_BYTES, false); r.Done? && r.value.Some?
    requires ReplyTo(env, k, ReadMessage(unread, MAX_BODY_BYTES, false).value.value).NoReply?
    ensures var request := ReadMessage(unread, MAX_BODY_BYTES, false).value.value;
            TunnelOutcome(env, input, wires + Wires(Departure(env, k, request)), sent,
                Some(ReplyTo(env, k, request).failure))
  {
    hide ReadMessage, ReadAll, ReplyTo, Departure, Render;
    NextRequest(env, input, k, unread, wires, sent);
    AnsweredIs(AllReplies(env, ReadAll(input, MAX_BODY_BYTES, false).0), k);
  }

  lemma RepliesAdvance(replies: seq<Reply>, k: nat)
    requires k < |replies| && forall i :: 0 <= i <= k ==> replies[i].Reply?
    ensures Concat(Wires(Messages(replies[..k + 1])))
            == Concat(Wires(Messages(replies[..k]))) + Render(replies[k].message)
  {
    var sofar, last := Wires(Messages(replies[..k])), Render(replies[k].message);
    assert Wires(Messages(replies[..k + 1])) == sofar + [last];
    ConcatAppend(sofar, last);
  }

  lemma ExchangeAdvances(env: Environment, input: Bytes, k: nat, unread: Bytes, wires: seq<Bytes>, sent: Bytes)
    requires Progress(env, input, k, unread, wires, sent)
    requires var r := ReadMessage(unread, MAX_BODY_BYTES, false); r.Done? && r.value.Some?
    requires ReplyTo(env, k, ReadMessage(unread, MAX_BODY_BYTES, false).value.value).Reply?
    ensures var r := ReadMessage(unread, MAX_BODY_BYTES, false);
            Progress(env, input, k + 1, r.rest, wires + Wires(Departure(env, k, r.value.value)),
                     sent + Render(ReplyTo(env, k, r.value.value).message))
  {
    hide ReadMessage, ReadAll, ReplyTo, Departure, Render;
    NextRequest(env, input, k, unread, wires, sent);
    RepliesAdvance(AllReplies(env, ReadAll(input, MAX_BODY_BYTES, false).0), k);
  }

  // ----- what the two ends read -----

  lemma {:induction false} ReadAllAreClean(b: Bytes, maxBody: nat, closeDelimited: bool, i: nat)
    requires i < |ReadAll(b, maxBody, closeDelimited).0|
    ensures var m := ReadAll(b, maxBody, closeDelimited).0[i];
            CleanStart(m.startLine) && CleanHeaders(m.headers) && |m.body| <= maxBody
    decreases |b|
  {
    hide ReadMessage;
    ReadMessageIsClean(b, maxBody, closeDelimited);
    ReadMessageWithinLimit(b, maxBody, closeDelimited);
    if i > 0 {
      ReadAllAreClean(ReadMessage(b, maxBody, closeDelimited).rest, maxBody, closeDelimited, i - 1);
    }
  }

  /** A server on the other end that reads with the same codec gets the request as the verdict left it
      exactly when it did not arrive chunked and its (possibly sanitized) body fits. */
  lemma UpstreamReadsForwarded(env: Environment, input: Bytes, i: nat, rest: Bytes)
    requires i < |ReadAll(input, MAX_BODY_BYTES, false).0|
    ensures var request := ReadAll(input, MAX_BODY_BYTES, false).0[i];
            var m := Outgoing(env, i, request);
            ReadMessage(Render(m) + rest, MAX_BODY_BYTES, false) == Done(Some(Reframed(m)), rest)
            <==> !IsChunked(request.headers) && |m.body| <= MAX_BODY_BYTES
  {
    var request := ReadAll(input, MAX_BODY_BYTES, false).0[i];
    ReadAllAreClean(input, MAX_BODY_BYTES, false, i);
    ChunkedIsNotLength(request.headers);
    RoundTripIff(Outgoing(env, i, request), rest, MAX_BODY_BYTES, false);
  }

  /** A request over the limit is one request with the front of its body, and the tunnel takes the tail for the
      requests that follow: they are scanned, answered and forwarded as TunnelOutcome says of every request. */
  lemma OversizedTailIsNext(m: HttpMessage, rest: Bytes)
    requires CleanStart(m.startLine) && CleanHeaders(KeptHeaders(m.headers)) && !IsChunked(KeptHeaders(m.headers))
    requires MAX_BODY_BYTES < |m.body| < USIZE_END
    ensures var (tail, end) := ReadAll(m.body[MAX_BODY_BYTES..] + rest, MAX_BODY_BYTES, false);
            ReadAll(Render(m) + rest, MAX_BODY_BYTES, false)
            == ([Reframed(m).(body := m.body[..MAX_BODY_BYTES])] + tail, end)
  {
    hide ReadMessage, Render, CleanStart, CleanHeaders, IsChunked;
    OversizedBody(m, rest, MAX_BODY_BYTES, false);
  }

  lemma OneHeaderIsFramable(start: string, h: Header, body: Bytes, maxBody: nat)
    requires CleanStart(start) && CleanHeader(h) && |body| <= maxBody
    requires !Named(h, "content-length") && !Named(h, "transfer-encoding")
    ensures Framable(HttpMessage(start, [h], body), maxBody)
  {
  }

  /** A block page is always readable by the client. */
  lemma BlockPageIsFramable(direction: string, findingCount: nat, maxBody: nat)
    requires |BlockPage(direction, findingCount).body| <= maxBody
    ensures Framable(BlockPage(direction, findingCount), maxBody)
  {
    BlockPageHead();
    OneHeaderIsFramable(FORBIDDEN, JSON_TYPE, BlockPage(direction, findingCount).body, maxBody);
  }

  lemma BlockPageHead()
    ensures CleanStart(FORBIDDEN)
    ensures CleanHeader(JSON_TYPE) && !Named(JSON_TYPE, "content-length") && !Named(JSON_TYPE, "transfer-encoding")
  {
    assert |"Content-Type"| != |"content-length"| && |"Content-Type"| != |"transfer-encoding"|;
  }

  function PowerOfTen(k: nat): nat {
    if k == 0 then 1 else 10 * PowerOfTen(k - 1)
  }

  lemma {:induction false} DigitsBounded(n: nat, k: nat)
    requires k >= 1 && n < PowerOfTen(k)
    ensures |Decimal(n)| <= k
  {
    hide PositionalValue;
    if n >= 10 {
      assert PowerOfTen(1) == 10 * PowerOfTen(0);
      DivideByRadix(n, 10);
      DigitsBounded(n / 10, k - 1);
    }
  }

  lemma PageFits(direction: string, findingCount: Usize)
    requires |direction| <= 10
    ensures |BlockPage(direction, findingCount).body| <= MAX_BODY_BYTES
  {
    hide Encode, Print;
    TwentyDigits();
    DigitsBounded(findingCount, 20);
    var front, back := "{\"error\":{\"message\":\"", " blocked by SafePrompt policy\",\"finding_count\":";
    EncodedLength(front + direction + back + Decimal(findingCount) + "}}");
  }

  lemma TwentyDigits()
    ensures PowerOfTen(20) >= USIZE_END
  {
    assert PowerOfTen(5) == 100_000;
    assert PowerOfTen(10) == 100_000 * 100_000;
    assert PowerOfTen(15) == 100_000 * 100_000 * 100_000;
    assert PowerOfTen(20) == 100_000 * 100_000 * 100_000 * 100_000;
  }

  lemma {:induction false} EncodedLength(s: string)
    ensures |Encode(s)| <= 4 * |s|
  {
    if s != "" {
      EncodedLength(s[1..]);
    }
  }

  /** The reply is a block page, or an upstream response that did not arrive chunked and whose (possibly sanitized)
      body fits. */
  predicate Readable(env: Environment, k: nat, request: HttpMessage)
    requires ReplyTo(env, k, request).Reply?
  {
    Stopped(env, k, request) ||
    var response := ReadMessage(env.upstream(k, Outgoing(env, k, request)).value, MAX_BODY_BYTES, true).value.value;
    var scan := env.inspectResponse(k, response.body);
    scan.action.Stops() || (!IsChunked(response.headers) && |Masked(response, scan).body| <= MAX_BODY_BYTES)
  }

  /** The client's side of UpstreamReadsForwarded: it gets a reply as the verdicts left it exactly when it is
      readable in this sense, whatever follows. */
  lemma ClientReadsReplyIff(env: Environment, k: nat, request: HttpMessage, rest: Bytes)
    requires ReplyTo(env, k, request).Reply?
    ensures var m := ReplyTo(env, k, request).message;
            && (Framable(m, MAX_BODY_BYTES) <==> Readable(env, k, request))
            && (ReadMessage(Render(m) + rest, MAX_BODY_BYTES, true) == Done(Some(Reframed(m)), rest)
                <==> Readable(env, k, request))
  {
    hide ReadMessage, Framable, Render, BlockPage, IsChunked;
    var m := ReplyTo(env, k, request).message;
    RoundTripIff(m, rest, MAX_BODY_BYTES, true);
    if Stopped(env, k, request) {
      PageIsFramable("Request", ScanRequest(env, k, request).findingCount);
    } else {
      var bytes := env.upstream(k, Outgoing(env, k, request)).value;
      var response := ReadMessage(bytes, MAX_BODY_BYTES, true).value.value;
      var scan := env.inspectResponse(k, response.body);
      if scan.action.Stops() {
        PageIsFramable("Response", scan.findingCount);
      } else {
        ReadMessageIsClean(bytes, MAX_BODY_BYTES, true);
        CleanIsFramable(Masked(response, scan));
      }
    }
  }

  lemma PageIsFramable(direction: string, findingCount: Usize)
    requires |direction| <= 10
    ensures Framable(BlockPage(direction, findingCount), MAX_BODY_BYTES)
  {
    hide Framable, BlockPage;
    PageFits(direction, findingCount);
    BlockPageIsFramable(direction, findingCount, MAX_BODY_BYTES);
  }

  lemma CleanIsFramable(m: HttpMessage)
    requires CleanStart(m.startLine) && CleanHeaders(m.headers)
    ensures Framable(m, MAX_BODY_BYTES) <==> !IsChunked(m.headers) && |m.body| <= MAX_BODY_BYTES
  {
    hide CleanStart, CleanHeader, IsChunked;
    ChunkedIsNotLength(m.headers);
  }

  /** The client reads back exactly the replies, in order, to a clean end, whenever each of them is readable. */
  lemma ClientReadsReplies(env: Environment, input: Bytes, wires: seq<Bytes>, sent: Bytes, failure: Option<Failure>)
    requires TunnelOutcome(env, input, wires, sent, failure)
    requires AllReadable(env, ReadAll(input, MAX_BODY_BYTES, false).0)
    ensures var replies := AllReplies(env, ReadAll(input, MAX_BODY_BYTES, false).0);
            ReadAll(sent, MAX_BODY_BYTES, true) == (ReframedAll(Messages(replies[..Answered(replies)])), None)
  {
    var requests := ReadAll(input, MAX_BODY_BYTES, false).0;
    ReadableIsFramable(env, requests);
    PipelineRoundTrip(Messages(AllReplies(env, requests)[..Answered(AllReplies(env, requests))]), MAX_BODY_BYTES, true);
  }

  predicate AllReadable(env: Environment, requests: seq<HttpMessage>) {
    forall i :: 0 <= i < Answered(AllReplies(env, requests)) ==>
      ReplyTo(env, i, requests[i]).Reply? && Readable(env, i, requests[i])
  }

  lemma ReadableIsFramable(env: Environment, requests: seq<HttpMessage>)
    requires AllReadable(env, requests)
    ensures var replies := AllReplies(env, requests);
            forall m :: m in Messages(replies[..Answered(replies)]) ==> Framable(m, MAX_BODY_BYTES)
  {
    hide Readable, Framable, ReplyTo, Answered;
    var replies := AllReplies(env, requests);
    forall i | 0 <= i < Answered(replies) ensures Framable(replies[i].message, MAX_BODY_BYTES) {
      assert replies[i] == ReplyTo(env, i, requests[i]);
      ClientReadsReplyIff(env, i, requests[i], []);
    }
  }

  // ----- the loop -----

  class Session {
    const env: Environment
    const client: Http1Io.Connection
    const toClient: Http1Io.Writer
    /** The bytes written to each upstream connection, one connection per forwarded request. */
    var upstreamWires: seq<Bytes>

    constructor (env: Environment, client: Http1Io.Connection, toClient: Http1Io.Writer)
      ensures this.env == env && this.client == client && this.toClient == toClient && upstreamWires == []
    {
      this.env := env;
      this.client := client;
      this.toClient := toClient;
      upstreamWires := [];
    }

    /** The body of the loop for the k-th request, up to its reply. */
    method Exchange(k: nat, request: HttpMessage) returns (reply: Reply)
      modifies this
      ensures reply == ReplyTo(env, k, request)
      ensures upstreamWires == old(upstreamWires)
                               + Wires(Departure(env, k, request))
    {
      hide ScanRequest, BlockPage, Encode, ReadMessage, Render;
      var scan := ScanRequest(env, k, request);
      if scan.action.EnforcementAction() == Block {
        return Reply(BlockPage("Request", scan.findingCount));
      }
      var outgoing := if scan.action == Redact then request.(body := Encode(scan.sanitized)) else request;
      var reached := env.upstream(k, outgoing);
      if reached == None {
        return NoReply(UpstreamUnreachable);
      }
      var toUpstream := new Http1Io.Writer();
      toUpstream.WriteMessage(outgoing);
      upstreamWires := upstreamWires + [toUpstream.sent];
      assert toUpstream.sent == Render(outgoing);
      var fromUpstream := new Http1Io.Connection(reached.value);
      var answer := fromUpstream.ReadMessage(MAX_BODY_BYTES, true);
      if answer.Err? {
        return NoReply(ReadFailed(answer.error));
      }
      if answer.value == None {
        return NoReply(UpstreamSilent);
      }
      var response := answer.value.value;
      var responseScan := env.inspectResponse(k, response.body);
      if responseScan.action.EnforcementAction() == Block {
        return Reply(BlockPage("Response", responseScan.findingCount));
      } else if responseScan.action == Redact {
        return Reply(response.(body := Encode(responseScan.sanitized)));
      } else {
        return Reply(response);
      }
    }

    /** `intercept_and_scan` after the handshake. */
    method InterceptAndScan() returns (failure: Option<Failure>)
      requires upstreamWires == [] && toClient.sent == []
      modifies this, client, toClient
      ensures TunnelOutcome(env, old(client.unread), upstreamWires, toClient.sent, failure)
    {
      hide ReadMessage, ReadAll, ReplyTo, Departure, Render, Progress, TunnelOutcome;
      ghost var input := client.unread;
      var k := 0;
      NothingYet(env, input);
      while true
        invariant Progress(env, input, k, client.unread, upstreamWires, toClient.sent)
        decreases |client.unread|
      {
        ghost var before, wires, sent := client.unread, upstreamWires, toClient.sent;
        var read := client.ReadMessage(MAX_BODY_BYTES, false);
        if read.Err? {
          StreamEnds(env, input, k, before, wires, sent);
          return Some(ReadFailed(read.error));
        }
        if read.value == None {
          StreamEnds(env, input, k, before, wires, sent);
          return None;
        }
        var request := read.value.value;
        ReadMessageWithinLimit(before, MAX_BODY_BYTES, false);
        var reply := Exchange(k, request);
        if reply.NoReply? {
          ExchangeFails(env, input, k, before, wires, sent);
          return Some(reply.failure);
        }
        toClient.WriteMessage(reply.message);
        ExchangeAdvances(env, input, k, before, wires, sent);
        k := k + 1;
      }
    }
  }
}
