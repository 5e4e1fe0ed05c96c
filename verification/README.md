# Verified models of the SafePrompt agent's small engines

SafePrompt is a data-loss-prevention agent: a TLS-intercepting proxy, a browser extension and a local service that
scan prompts before they leave a machine. Under its servers sit a few hand-written engines: an HTTP/1.1 codec,
check-digit arithmetic, search-and-replace redaction, time-window limiters, and a policy guarded by two locks. This
project models those engines in Dafny and proves what they guarantee, over all inputs and all runs. Where a stated
intention fails, the code is kept as it is: a lemma gives the exact condition under which the intention holds, and
another gives an input on which it fails.

## How the model is laid out

| modules | component |
|---|---|
| `Utf8`, `Text`, `Http1`, `Http1RoundTrip`, `Http1Chunked`, `Http1Cut`, `Http1CutAny`, `Http1Headers`, `Http1Io` | reader and writer of HTTP/1.1 messages |
| `Verdicts`, `Tunnel` | the request/response loop of one intercepted tunnel |
| `Replace`, `Redaction`, `Json`, `JsonRedaction`, `Keywords`, `ContentLeaves`, `Docx`, `DocxRuns` | redaction, keyword search, rewriting request bodies, text of word-processor files |
| `SignedRequests`, `RateLimiter`, `RestartLimiter` | limits over time |
| `PolicyState` | policy and provenance behind two locks |
| `CheckDigits`, `Verhoeff`, `LuhnModN`, `WeightedMod10`, `Iban`, `ContextWindow` | check digits and the context test of the PII scanner |

Code that changes state step by step is modelled by classes and methods with loops (`Http1Io`, `Tunnel.Session`,
`JsonRedaction.RedactInPlace`, `PolicyState.Inspector`, the limiters, the checksum loops). Each is proved equal to a
function of its input or old state, and the laws are proved of that function.

Assumptions, each visible in a type or a precondition:

- A stream is the finite sequence of bytes that arrive before it ends; writes succeed.
- `usize` is 64 bits wide. A chunk size that overflows the running total ends the connection with `SizeOverflow`
  (a debug build panics on the sum, a release build on the allocation).
- Detection (regular expressions, policy rules, signature checks) is an arbitrary parameter.
- Time is a non-decreasing natural number. The replay proofs use one clock for both of the code's
  clocks, but two readings for each call: the wall clock first, the nonce cache's time later and under its lock.
- In `RestartLimiter` time counts from the earliest `Instant` of the platform, below which `checked_sub` fails. That
  branch can be reached where an instant cannot precede the origin of the clock, as on Windows within one window of
  boot. Where instants may lie before the origin, as with the signed seconds of Unix, every run is `Settled`.
- Case mappings in `Keywords` and `ContextWindow` send one character to one character and keep offsets. The
  tables themselves are parameters.

## Where the code and its documentation differ

- The file header of `http1.rs` (lines 3-6) promises that re-framing keeps a chunked message readable, and the writer
  drops only Content-Length: `Http1RoundTrip.ReframeIff`, `Http1Chunked.ReframedChunkedBodyIsLost`.
- `read_message` is documented to fail when the connection closes inside a message (lines 32-35). Whether it does
  depends on what is visible. A head of any sender cut short is an error when the headers visible so far ask for a
  body, or the cut splits a character, and is a complete message otherwise: `Http1CutAny.CutHeadIff`. A body with a
  Content-Length cut short is an error only in front of the smaller of that length and the limit:
  `Http1CutAny.LengthBodyIff`. A length written with leading zeros asks for nothing where only zeros are visible:
  `Http1CutAny.LeadingZeroLength`. A chunked body is taken for complete wherever the visible part of a size line reads
  as zero: `Http1Cut.CutChunkedIff`, `Http1Cut.LeadingZeroIsEnd`. Inside a close-delimited body the read never fails:
  `Http1Cut.CutCloseDelimited`. For messages as this writer frames them all of this comes to `Http1Cut.CutIff`.
- A Content-Length over the limit is capped (line 86), not refused as a chunked body is. The tail of such a body stays
  unread, and the tunnel takes it for the next requests: `Http1RoundTrip.OversizedBody`, `Tunnel.OversizedTailIsNext`.
- Policy and provenance are documented as always updated together (`crates/inspector/src/lib.rs:125-129`). The sync
  path takes the two locks one after the other: `PolicyState.AlwaysAgreesIff`, `PolicyState.EditDuringSyncDisagrees`.
- The sync path promises to log the overwriting of a live local override (lines 306-315). It looks for one before it
  takes the policy lock, and misses those that come in between: `PolicyState.UnwarnedIff`.
- The comment at `crates/inspector/src/lib.rs:273-276` says the policy lock is held for one evaluation. The code holds
  it for the whole inspection, which is what makes `PolicyState.InspectionsUseOnePolicy` true.
- A signed request can be accepted twice when it is first recorded no later than the second of its own timestamp, and
  later ones too by a call that lags between its two readings of the time: `SignedRequests.ReplayableIff`.
- The scan for `<w:t>` elements (`crates/file_inspector/src/lib.rs:151-155`) stops at every tag that begins so, such as
  a table's, and takes the markup since an open one for text: `DocxRuns.RunTextsIff`.
- The context window is documented in characters (`crates/pii/src/lib.rs:920-921`) and counted in bytes. When the
  promise is kept nevertheless: `ContextWindow.CharacterWindowIff`.
- Before the clock has reached one window, the restart limiter takes the present instant as its cutoff and forgets
  restarts that are still recent (`RestartLimiter.HistoryIsWindowIff`). A crash loop there never backs off:
  `RestartLimiter.CrashLoopNeverBacksOff`.
- `aba_checksum_valid` unwraps the ASCII value of each character, and the pattern in front of it admits the decimal
  digits of every script (line 132): `WeightedMod10.AbaIs`, `WeightedMod10.ForeignDigitPanics`.
- Custom keywords are replaced by a label that repeats the keyword, so every keyword in capitals, without spaces or
  brackets, survives its own redaction: `Redaction.CapitalKeywordSurvives`.

## Model

| member | source | states |
|---|---|---|
| `Http1RoundTrip.RoundTripIff` | crates/connect_proxy/src/http1.rs:47-164 | Reading a written message, whatever follows it, returns that message with its stale Content-Length replaced and leaves exactly what follows, if and only if the message is framable: trimmed line-free start line and headers, colon-free names, no chunked Transfer-Encoding, body within the limit. |
| `Http1RoundTrip.PipelineRoundTrip` | crates/connect_proxy/src/http1.rs:47-164 | A concatenation of any number of written messages is read back as those messages in order, to the last byte and without error. |
| `Http1RoundTrip.WrittenBack` | crates/connect_proxy/src/http1.rs:74-98 | Also for bodies over the limit or a kept Transfer-Encoding: start line and headers come back, and the body is read by the framing of the headers as written. Their length is the body's, and they are chunked exactly when the kept headers are. |
| `Http1RoundTrip.ReadMessageIsClean` | crates/connect_proxy/src/http1.rs:51-72 | Every start line and header that is read, from any bytes, is one the writer can write back unchanged. |
| `Http1RoundTrip.ReadMessageWithinLimit` | crates/connect_proxy/src/http1.rs:83-98 | No body read exceeds the limit in any of the three framings, and every message consumes at least one byte. |
| `Http1RoundTrip.CutBodyIsError` | crates/connect_proxy/src/http1.rs:85-91 | A framable message as the writer frames it, with its Content-Length, cut anywhere inside its body is an end-of-file error. |
| `Http1RoundTrip.CutHeadIsAccepted` | crates/connect_proxy/src/http1.rs:61-72 | A connection that ends right after the start line is read as a complete message without headers and body, by either kind of reader. |
| `Http1Cut.CutIff` | crates/connect_proxy/src/http1.rs:47-101 | For every framable message, every place to cut what is written of it, and either kind of reader: in front of the first digit of the Content-Length the cut is an error exactly when it splits a character or leaves nothing but white space, from that digit on exactly when there is a body. A cut that is no error is read as no message or one with an empty body. |
| `Http1Cut.CutChunkedIff` | crates/connect_proxy/src/http1.rs:106-142 | A message with any chunked body that fits, cut anywhere in that body: it is read exactly when the cut falls in a size line whose visible part parses to zero, or behind the last size line without splitting a character, and then with exactly the chunks in front. |
| `Http1Cut.LeadingZeroIsEnd` | crates/connect_proxy/src/http1.rs:113-129 | So behind the first zero of a size written with leading zeros, a cut message is read as complete, without this chunk and all behind it. |
| `Http1Cut.CanonicalCut` | crates/connect_proxy/src/http1.rs:106-142 | From a sender that writes no leading zeros a cut inside the body is an error or leaves the data complete. |
| `Http1Cut.CutCloseDelimited` | crates/connect_proxy/src/http1.rs:92-95 | A body that ends with the connection can be cut anywhere: what is left is read as a complete message. |
| `Http1CutAny.CutHeadIff` | crates/connect_proxy/src/http1.rs:47-101 | For a head of any sender, with header lines of any form, cut anywhere: an error exactly when the cut splits a character or leaves nothing but white space, or when the headers visible announce chunks or a length that is not zero. Otherwise the visible headers are the message, with no body. |
| `Http1CutAny.LengthBodyIff` | crates/connect_proxy/src/http1.rs:85-91 | For any sender's head with a length, and whatever arrives behind it: an error exactly when fewer bytes arrive than the smaller of length and limit; otherwise that many are the body and the others stay unread. |
| `Http1CutAny.CommonForm` | crates/connect_proxy/src/http1.rs:61-72 | Every list of clean headers is the content of such a head. |
| `Http1CutAny.LeadingZeroLength` | crates/connect_proxy/src/http1.rs:78-91 | Behind the first zero of a length written with leading zeros, whatever it is, the cut message is read as complete, with no body. |
| `Http1RoundTrip.OversizedBody` | crates/connect_proxy/src/http1.rs:85-91 | Of a message whose body is over the limit, the front of the body is read as the body, and its tail is left in front of what follows. |
| `Http1RoundTrip.ReframeIff` | crates/connect_proxy/src/http1.rs:144-164 | For any bytes that read as a message: writing that message and reading it again gives it back exactly when it was not chunked. |
| `Http1RoundTrip.ReframeWithoutTransferEncoding` | crates/connect_proxy/src/http1.rs:144-164 | With Transfer-Encoding dropped as well, the re-framed message keeps start line and body for every message, chunked ones included. |
| `Http1Chunked.CanonicalSizeLine` | crates/connect_proxy/src/http1.rs:112-117 | A hexadecimal size with any extension announces exactly that size. |
| `Http1Chunked.ChunkedInverts` | crates/connect_proxy/src/http1.rs:106-142 | For any split into non-empty chunks, any extensions and trailers, decoding returns the concatenated data and leaves exactly the bytes behind the blank line if and only if the data fits the limit; otherwise it is refused for its size. |
| `Http1Chunked.ChunkedMessageBack` | crates/connect_proxy/src/http1.rs:74-84 | A whole chunked message is read with its headers and its joined data, whatever follows it. |
| `Http1Chunked.ReframedChunkedBodyIsLost` | crates/connect_proxy/src/http1.rs:151-157 | A chunked request is read, written again, and the second read fails on its body. |
| `Http1Chunked.HelloIsLost` | crates/connect_proxy/src/http1.rs:151-157 | The same behind any start line and with any header that announces chunks. |
| `Http1Chunked.ReadChunkedStep` | crates/connect_proxy/src/http1.rs:131-139 | A chunk's data is appended within the limit, and any two bytes behind it are skipped. |
| `Http1Headers.FramingIgnoresCase` | crates/connect_proxy/src/http1.rs:74-98 | Header lists that differ only in the case of their names frame every body alike. |
| `Http1Headers.ChunkedIff` | crates/connect_proxy/src/http1.rs:74-76 | A header announces chunks exactly when its name is Transfer-Encoding in any case and its value contains the word in any case, wherever it stands. |
| `Http1Headers.OrdinaryChunkedMessage` | crates/connect_proxy/src/http1.rs:74-84 | The request of an ordinary client with `Transfer-Encoding: chunked` is read by its chunks. |
| `Http1Headers.FirstLength` | crates/connect_proxy/src/http1.rs:78-81 | The first Content-Length, in any case, decides, and one that does not parse counts as none. |
| `Http1Headers.PlusSign` | crates/connect_proxy/src/http1.rs:81-81 | A length may have one plus sign, not two, and needs a digit. |
| `Http1Headers.PaddedSize` | crates/connect_proxy/src/http1.rs:114-117 | A chunk size is the hexadecimal number in either case of its digits, between any white space and an optional extension. |
| `Http1Headers.BodyWithoutLength` | crates/connect_proxy/src/http1.rs:92-98 | Behind a head that announces nothing a request has no body and a response all that arrives up to the limit; the others stay unread. |
| `Http1Headers.BareNewline` | crates/connect_proxy/src/http1.rs:64-65 | A line may end with a bare newline. |
| `Http1Headers.KeptInOrder` | crates/connect_proxy/src/http1.rs:151-156 | The writer drops the lengths, in any case, and keeps all other headers in their order. |
| `Http1Cut.RenderIs` | crates/connect_proxy/src/http1.rs:149-159 | What is written: start line, kept headers, the length of the body, a blank line, the body. |
| `Http1Io.Connection.ReadMessage` | crates/connect_proxy/src/http1.rs:47-101 | The loop over the stream returns what the specification reads and leaves its remainder unread. |
| `Http1Io.Connection.ReadHeaderLines` | crates/connect_proxy/src/http1.rs:61-72 | The header loop collects exactly the specified headers and stops behind the blank line. |
| `Http1Io.Connection.ReadBody` | crates/connect_proxy/src/http1.rs:74-98 | The three framings, in the code's order, agree with the specification. |
| `Http1Io.Connection.ReadChunkedBody` | crates/connect_proxy/src/http1.rs:106-142 | The chunk loop with its growing buffer decodes what the recursive specification decodes. |
| `Http1Io.Connection.ReadTrailers` | crates/connect_proxy/src/http1.rs:120-128 | Trailer lines are skipped up to the blank line or the end of input. |
| `Http1Io.Writer.WriteMessage` | crates/connect_proxy/src/http1.rs:144-164 | The buffer built step by step is appended as the rendered message, nothing before it changed. |
| `Tunnel.Session.InterceptAndScan` | crates/connect_proxy/src/server.rs:306-395 | One run of the tunnel: upstream receives exactly the departures of the requests read, in order; the client gets exactly one reply per answered request, in order; the first failure ends the tunnel with its reason. |
| `Tunnel.Session.Exchange` | crates/connect_proxy/src/server.rs:316-394 | One request is answered by the specified reply and adds its own departure and no other. |
| `Tunnel.AnsweredLeavesIff` | crates/common/src/lib.rs:69-74 | An answered request reached upstream exactly when its verdict is neither Block nor RequireApproval. |
| `Tunnel.ForwardedExactly` | crates/connect_proxy/src/server.rs:328-349 | The messages sent upstream are exactly the requests let through, each with its sanitized body if and only if the verdict is Redact. |
| `Tunnel.DepartsAs` | crates/connect_proxy/src/server.rs:343-349 | What leaves is the request with the sanitized text for its body under Redact, and the request itself otherwise. |
| `Tunnel.RedactHidesRequest` | crates/connect_proxy/src/server.rs:343-349 | Under Redact the original body has no influence on what leaves: requests with the same head and scan leave alike. |
| `Tunnel.StoppedIs` | crates/connect_proxy/src/server.rs:328-341 | Of a request under Block or RequireApproval nothing leaves, and the client gets the block page. |
| `Tunnel.RepliesAs` | crates/connect_proxy/src/server.rs:373-392 | The reply is a block page under Block and RequireApproval, the response with the sanitized text under Redact, and the response itself otherwise. |
| `Tunnel.FailsAs` | crates/connect_proxy/src/server.rs:360-367 | Without a response there is no reply: upstream cannot be reached, cannot be read, or closes without a word. |
| `Tunnel.VerdictHidesResponse` | crates/connect_proxy/src/server.rs:369-392 | Under Redact the upstream body has no influence on the reply beyond its scan, under a verdict that stops it neither has the rest of the response. |
| `Tunnel.BlockPageIs` | crates/connect_proxy/src/server.rs:330-338 | The block page: status, header and text. |
| `Tunnel.UploadIff` | crates/connect_proxy/src/server.rs:316-317 | The first Content-Type decides what is an upload, by the front of its value, without regard to case in either. |
| `Tunnel.UploadNotMasked` | crates/connect_proxy/src/server.rs:277-281 | An upload leaves untouched or not at all; Redact stops it like Block. |
| `Tunnel.OtherScannedByBody` | crates/connect_proxy/src/server.rs:319-322 | Any other request is scanned by its body. |
| `Tunnel.UpstreamReadsForwarded` | crates/connect_proxy/src/server.rs:349-364 | Upstream reads the message that was meant exactly when the request was not chunked and the outgoing body fits the limit. |
| `Tunnel.OversizedTailIsNext` | crates/connect_proxy/src/server.rs:306-309 | The requests of a tunnel behind one with a body over the limit are those that the tail of that body and what follows it spell. |
| `Tunnel.ClientReadsReplyIff` | crates/connect_proxy/src/server.rs:328-394 | The client reads a reply as the verdicts left it, whatever follows it, exactly when the reply is a block page, or an upstream response that did not arrive chunked and whose outgoing body fits. |
| `Tunnel.ClientReadsReplies` | crates/connect_proxy/src/server.rs:306-395 | Parsing the bytes sent to the client gives the replies back, one by one and to a clean end, when each of them meets that condition. |
| `Tunnel.BlockPageIsFramable` | crates/connect_proxy/src/server.rs:330-338 | The block page always is framable, within a limit its body fits. |
| `Replace.ReplacedLeftmost` | crates/common/src/lib.rs:221-221 | Substitution replaces the leftmost occurrence, keeps what precedes it and goes on behind it. |
| `Replace.ReplacedAcross` | crates/common/src/lib.rs:221-221 | Substitution works on both sides of a character outside the pattern independently. |
| `Replace.OccursAcross` | crates/common/src/lib.rs:221-221 | No occurrence of a pattern spans a character the pattern does not contain. |
| `Redaction.RedactText` | crates/common/src/lib.rs:218-224 | The loop over the findings computes the ordered fold of substitutions. |
| `Redaction.OneBehindTheOther` | crates/common/src/lib.rs:219-223 | Findings are applied one behind the other, the first one first. |
| `Redaction.WithoutReplacement` | crates/common/src/lib.rs:220-220 | Findings without a replacement have no effect, wherever they stand. |
| `Redaction.OneFinding` | crates/common/src/lib.rs:221-221 | One finding is one substitution, also of an empty snippet. |
| `Redaction.CompleteIff` | crates/common/src/lib.rs:218-224 | For bracketed replacements and bracket-free snippets, in any order and with any overlap: no snippet survives in any text if and only if no replacement that can actually be reached writes a snippet back. |
| `Redaction.CompleteWhenReplacementsClean` | crates/common/src/lib.rs:218-224 | In particular nothing survives when no label contains a snippet. |
| `Redaction.KeywordCompleteIff` | crates/inspector/src/lib.rs:95-101 | Redacting a custom keyword's match removes it from every text exactly when the generated label does not contain it. |
| `Redaction.KeywordRemoved` | crates/inspector/src/lib.rs:95-101 | Redaction removes a keyword's match from every text when it has a character that neither the pattern in capitals nor the frame of the label contains, as every keyword in lower case does. |
| `Redaction.LowerKeywordRemoved` | crates/inspector/src/lib.rs:100-100 | The keyword secret is replaced by [REDACTED_SECRET] and gone from every text. |
| `Redaction.CapitalKeywordSurvives` | crates/inspector/src/lib.rs:100-100 | The generated label contains every bracket- and space-free keyword in capitals, so the redacted text still contains the keyword. |
| `Redaction.KeywordRedSurvives` | crates/inspector/src/lib.rs:100-100 | The label the scanner generates for the keyword RED is [REDACTED_RED]. |
| `JsonRedaction.RedactInPlace` | crates/common/src/lib.rs:227-248 | The mutating walk over the tree's string cells refines a pure recursive map. |
| `JsonRedaction.RedactCell` | crates/common/src/lib.rs:229-235 | A string leaf becomes the ordered fold of substitutions. |
| `JsonRedaction.RedactParts` | crates/common/src/lib.rs:236-245 | Children are redacted one after another without touching each other. |
| `JsonRedaction.SkeletonKept` | crates/common/src/lib.rs:227-248 | Shape, keys, array lengths, numbers, booleans and nulls stay. |
| `JsonRedaction.LookupRedacted` | crates/common/src/lib.rs:227-248 | At every path the redacted tree holds the redaction of what was there, and nothing where nothing was. |
| `JsonRedaction.LeafRedacted` | crates/common/src/lib.rs:229-246 | Every string leaf becomes the ordered substitutions of its text; numbers, booleans and nulls stay at their paths. |
| `JsonRedaction.LeavesClean` | crates/common/src/lib.rs:227-248 | Under the condition of the text case no string leaf contains a snippet. |
| `Keywords.ScanCustomKeywords` | crates/inspector/src/lib.rs:77-107 | All rules in order; empty patterns find nothing. |
| `Keywords.ScanRule` | crates/inspector/src/lib.rs:88-104 | The search loop appends one finding per reported offset and terminates. |
| `Keywords.RulesInOrder` | crates/inspector/src/lib.rs:78-82 | The findings of all rules come in the order of the rules. |
| `Keywords.OneRule` | crates/inspector/src/lib.rs:79-82 | Those of one rule are its matches, and none for an empty pattern. |
| `Keywords.FindingsAreSound` | crates/inspector/src/lib.rs:83-101 | Every finding is a whole-word occurrence, equal to the pattern up to case, disjoint from and behind all earlier ones. |
| `Keywords.FindingIs` | crates/inspector/src/lib.rs:92-101 | A finding names its pattern, quotes the text as written, carries the label, and stands between characters that are neither alphanumeric nor an underscore. |
| `Keywords.LabelIs` | crates/inspector/src/lib.rs:100-100 | The label is the pattern in capitals, with an underscore for every space, behind REDACTED_ and in brackets. |
| `Keywords.LabelIgnoresCase` | crates/inspector/src/lib.rs:100-100 | Patterns with the same capitals have the same label. |
| `Keywords.CaseIgnored` | crates/inspector/src/lib.rs:85-87 | Without regard to case, texts and patterns that differ in case only give the same matches. |
| `Keywords.CaseRegarded` | crates/inspector/src/lib.rs:83-84 | With regard to case, the case mappings play no part. |
| `Keywords.CompleteIff` | crates/inspector/src/lib.rs:88-104 | Every whole-word occurrence in every text is reported if and only if each self-overlap of the pattern starts behind a word character. |
| `Keywords.RuleCompleteIff` | crates/inspector/src/lib.rs:83-104 | The same of every rule and the texts it is applied to, with and without regard to case. |
| `Keywords.WordPatternsComplete` | crates/inspector/src/lib.rs:73-75 | Patterns of word characters satisfy it. |
| `Keywords.OverlapIsMissed` | crates/inspector/src/lib.rs:103-103 | For any pattern that does not, a text in which a whole word is skipped. |
| `Keywords.RepeatedWordIsLost` | crates/inspector/src/lib.rs:103-103 | The pattern "a a" loses its second occurrence in "a a a". |
| `ContentLeaves.CollectContentLocations` | browser-extension/src/main-world-interceptor.js:554-568 | The walk appends exactly the specified locations to the list it is given. |
| `ContentLeaves.CollectExactly` | browser-extension/src/main-world-interceptor.js:554-568 | The locations are, without duplicates, exactly the string leaves whose own key or whose directly enclosing array's key is a content name. |
| `ContentLeaves.ContentNames` | browser-extension/src/main-world-interceptor.js:541-541 | The seven names of content fields. |
| `ContentLeaves.NoJsonReplaced` | browser-extension/src/main-world-interceptor.js:653-656 | A body that is no JSON, or the literal null, is replaced as a whole. |
| `ContentLeaves.TopLevelWins` | browser-extension/src/main-world-interceptor.js:605-614 | When a content string stands at the top level, exactly the content strings there remain. |
| `ContentLeaves.OneLeafRewritten` | browser-extension/src/main-world-interceptor.js:647-657 | With one location left, the written body has the sanitized text there and agrees with the original at every path that does not lead to it. |
| `ContentLeaves.UpdateOneLeaf` | browser-extension/src/main-world-interceptor.js:649-651 | Assigning one leaf changes that leaf and the containers on the way to it, nothing else. |
| `ContentLeaves.AppliedIffSubstituted` | browser-extension/src/main-world-interceptor.js:664-666 | Redaction is reported as applied exactly when some sanitized text makes the written body differ from the parsed one. |
| `Docx.DecodeEncode` | crates/file_inspector/src/lib.rs:189-195 | Decoding an escaped text gives, for every text, the text with its own literal entities decoded once more. |
| `Docx.DecodeInvertsIff` | crates/file_inspector/src/lib.rs:189-195 | It gives the text back if and only if the text contains none of the literals `&lt;` `&gt;` `&quot;` `&apos;` that the later passes would decode. |
| `Docx.AmpLastInverts` | crates/file_inspector/src/lib.rs:189-195 | With the ampersand decoded last, decoding inverts escaping for every text (section 4.6 of XML 1.0). |
| `Docx.OnePass` | crates/file_inspector/src/lib.rs:190-194 | One pass of the chain decodes one kind of entity and leaves the others, wherever it stands in the chain. |
| `Docx.DecodeAcross` | crates/file_inspector/src/lib.rs:189-195 | What stands on the two sides of a bracket or a space is decoded on its own. |
| `Docx.KnownText` | crates/file_inspector/src/lib.rs:189-195 | The five entities in full. |
| `DocxRuns.ExtractWtRuns` | crates/file_inspector/src/lib.rs:164-187 | The loop over the remaining markup computes the recursive extraction. |
| `DocxRuns.RunsExtracted` | crates/file_inspector/src/lib.rs:164-187 | For any runs with attributes, self-closing tags that begin like a run's, and runs behind open tags that begin so: the decoded run texts in order, each followed by a space, with the decoded markup since such an open tag in front. |
| `DocxRuns.RunTextsIff` | crates/file_inspector/src/lib.rs:164-195 | For every such document: the texts come back verbatim, each followed by a space, if and only if no run stands behind an open tag that begins like its own and no text contains a literal entity. |
| `DocxRuns.FrontShows` | crates/file_inspector/src/lib.rs:168-182 | Markup taken for text always shows: no shortening of the texts by decoding can make up for it. |
| `DocxRuns.KnownDocument` | crates/file_inspector/src/lib.rs:164-187 | A self-closing run and one with an attribute, in full. |
| `SignedRequests.NonceCache.CheckAndRecord` | crates/local_api/src/lib.rs:503-513 | New cache and answer: old entries dropped, a kept nonce refused, any other recorded. |
| `SignedRequests.VerifySignedRequest` | crates/local_api/src/lib.rs:588-612 | Headers, timestamp, signature, nonce, in that order; only a request that passes the first three changes the cache. |
| `SignedRequests.AcceptedIff` | crates/local_api/src/lib.rs:588-612 | Over every run: a call is accepted exactly when its request is signed and was read within 60 seconds of its timestamp on either side, and its nonce has not been accepted within the last 60 seconds. |
| `SignedRequests.ForgerLeavesCache` | crates/local_api/src/lib.rs:592-611 | Any request that is not signed or not in time is refused and uses up no nonce. |
| `SignedRequests.ParsePrintedSeconds` | crates/local_api/src/lib.rs:596-596 | A timestamp is read as the number it writes, with either sign or none, within 64 bits. |
| `SignedRequests.AtMostOncePerWindow` | crates/local_api/src/lib.rs:496-514 | In every run, two acceptances of one nonce are at least the replay window apart. |
| `SignedRequests.LateRequestNotReplayed` | crates/local_api/src/lib.rs:588-612 | A request is never accepted again by a call of at most a given lag between its two readings, when even the earliest wall reading of such a call, one window after the first was recorded, is past the timestamp's limit. |
| `SignedRequests.EarlyRequestReplayed` | crates/local_api/src/lib.rs:588-612 | Any other accepted request is accepted again one window later by a call of at most that lag. |
| `SignedRequests.ReplayableIff` | crates/local_api/src/lib.rs:588-612 | After any run, for every lag: the request just accepted can be accepted again in some continuation by a call of at most that lag if and only if it is still in time by that measure. |
| `SignedRequests.WithoutLag` | crates/local_api/src/lib.rs:597-600 | With no lag that is the case exactly when the second of the first recording is not later than the timestamp. |
| `RateLimiter.Limiter.Allow` | crates/local_api/src/lib.rs:542-556 | One call's answer and the new window. |
| `RateLimiter.EachWindowWithinBudget` | crates/local_api/src/lib.rs:529-557 | In every run each fixed window allows at most the budget. |
| `RateLimiter.RefusedIffWindowFull` | crates/local_api/src/lib.rs:550-555 | A call is refused if and only if its window has already allowed exactly the budget. |
| `RateLimiter.AtMostTwiceTheBudget` | crates/local_api/src/lib.rs:529-557 | Any half-open interval of one window's length contains at most twice the budget of allowed calls. |
| `RateLimiter.TwiceTheBudgetIsReached` | crates/local_api/src/lib.rs:529-557 | For every budget and window longer than one tick there is a run that reaches it. |
| `RestartLimiter.Limiter.RecordAndNextDelay` | apps/watchdog/src/main.rs:47-58 | The deque after the pushes and pops, and the delay it implies. |
| `RestartLimiter.HistoryIs` | apps/watchdog/src/main.rs:47-52 | Over every run, also before a window has passed: the deque holds exactly the restarts since the highest cutoff so far. |
| `RestartLimiter.HistoryIsWindowIff` | apps/watchdog/src/main.rs:47-52 | For every run on every clock: the deque is exactly the restarts of the last window unless two of these came at different instants before the clock had reached one window. |
| `RestartLimiter.HistoryIsWindow` | apps/watchdog/src/main.rs:47-58 | With at most one such early instant, the deque is sorted and holds exactly the restarts of the last window, and the delay backs off exactly when they exceed the limit. |
| `RestartLimiter.EarlyRestartForgotten` | apps/watchdog/src/main.rs:49-49 | A run in which a restart of the last window has been dropped. |
| `RestartLimiter.NormalBounded` | apps/watchdog/src/main.rs:53-57 | With at most one early instant, any closed window contains at most the limit of normal-delay answers. |
| `RestartLimiter.RestartsBounded` | apps/watchdog/src/main.rs:43-58 | With at most one early instant and each delay slept out, any closed window contains at most limit + window / backoff + 1 restarts. |
| `RestartLimiter.EarlyNeverOver` | apps/watchdog/src/main.rs:47-58 | The condition is needed: restarts at different instants before the clock has reached one window are never answered with the backoff delay, however many they are. |
| `RestartLimiter.CrashLoopNeverBacksOff` | apps/watchdog/src/main.rs:43-58 | A loop that sleeps its delays then restarts once per normal delay for a whole window, beyond both bounds. |
| `RestartLimiter.WatchdogBound` | apps/watchdog/src/main.rs:389-394 | With the watchdog's own settings: at most eight restarts a minute, and sixty in the first minute of such a clock. |
| `RestartLimiter.RunWatchdog` | apps/watchdog/src/main.rs:409-456 | The supervision loop keeps the delays, records once per cycle that did not fail to spawn, waits five seconds behind each that did, and so meets that bound over the whole run. |
| `PolicyState.Inspector.ApplyLocalPolicyEdit` | crates/inspector/src/lib.rs:299-304 | As one step: provenance names the new policy as a local override with the next version. |
| `PolicyState.Inspector.ApplySyncedPolicy` | crates/inspector/src/lib.rs:316-329 | As one step: provenance names the central version and clears the override; the warning is logged exactly when an edit is overwritten. Between the locks `UnwarnedIff` holds instead. |
| `PolicyState.AgreeAtRestIff` | crates/inspector/src/lib.rs:299-329 | In every reachable state without a writer in progress, provenance describes the policy unless the last policy write was an edit and the last provenance write a sync's. |
| `PolicyState.AlwaysAgreesIff` | crates/inspector/src/lib.rs:299-329 | They agree at every such moment of a run if and only if no edit's policy write falls between a sync's policy write and its provenance write. |
| `PolicyState.EditDuringSyncDisagrees` | crates/inspector/src/lib.rs:326-328 | A reachable run that ends with the local policy in force and provenance naming the central one. |
| `PolicyState.UnwarnedIff` | crates/inspector/src/lib.rs:306-326 | For every sync in every run: it replaces a local edit without the warning exactly when no override was live at its read, and an edit's policy write fell between its read and its write or was still in force under an earlier sync's stamp. |
| `PolicyState.EditBehindReadUnwarned` | crates/inspector/src/lib.rs:317-326 | A run in which a live override is overwritten unwarned although policy and provenance always agree. |
| `PolicyState.InspectionsUseOnePolicy` | crates/inspector/src/lib.rs:427-440 | In every reachable state, an inspection in progress sees the policy it started with, for the pause test, the findings, the action and the filter; a finished one saw a single policy, and nothing behind the test when it was paused. |
| `Verhoeff.AadhaarChecksumValid` | crates/pii/src/lib.rs:698-730 | The table walk over the first twelve digits computes the specified total. |
| `Verhoeff.DigitsOfParts` | crates/pii/src/lib.rs:721-721 | The digits of a text are taken in their order, part by part. |
| `Verhoeff.DigitsOfOne` | crates/pii/src/lib.rs:721-721 | Of single characters the ASCII digits count, all others are passed over. |
| `Verhoeff.Associative` | crates/pii/src/lib.rs:699-710 | Table D is associative. |
| `Verhoeff.PermStep` | crates/pii/src/lib.rs:711-720 | Each row of table P is row 1 applied to the row before it, around the cycle of eight. |
| `Verhoeff.AntiSymmetric` | crates/pii/src/lib.rs:711-720 | Swapping two unequal digits changes their joint contribution. |
| `Verhoeff.SingleErrorDetected` | crates/pii/src/lib.rs:698-730 | Changing any one of the first twelve digits of a valid number makes it invalid. |
| `Verhoeff.SwapDetected` | crates/pii/src/lib.rs:698-730 | So does swapping any two unequal neighbours among them. |
| `Verhoeff.UniqueCheckDigit` | crates/pii/src/lib.rs:698-730 | Every prefix of eleven digits is completed by exactly one digit, given in closed form. |
| `Verhoeff.KnownNumber` | crates/pii/src/lib.rs:698-730 | A valid number, digit by digit. |
| `LuhnModN.LuhnChecksumValid` | crates/pii/src/lib.rs:664-676 | The loop computes the Luhn sum in base 10, at any length. |
| `LuhnModN.FrontPair` | crates/pii/src/lib.rs:664-674 | From the right, of each two digits the second counts once and the first twice, less n - 1 when doubling it leaves the base. |
| `LuhnModN.ValidPairs` | crates/pii/src/lib.rs:675-675 | Two digits are valid exactly when that sum is 0, n or 2n. |
| `LuhnModN.CodePointIs` | crates/pii/src/lib.rs:784-784 | The alphabet of the codes: digits, then letters. |
| `LuhnModN.GstinChecksumValid` | crates/pii/src/lib.rs:783-803 | Accepts exactly the 15-character codes over the alphabet whose Luhn sum in base 36, check character included, is divisible by 36. |
| `LuhnModN.SingleErrorDetected` | crates/pii/src/lib.rs:664-676 | In both bases every change of one digit, at any position and length, makes a valid number invalid. |
| `LuhnModN.UniqueCheckDigit` | crates/pii/src/lib.rs:801-802 | At most one last digit completes a prefix. |
| `LuhnModN.CheckDigitExists` | crates/pii/src/lib.rs:801-802 | And one does. |
| `LuhnModN.SwapDetectedIff` | crates/pii/src/lib.rs:664-676 | A swap of neighbours goes unnoticed if and only if they are equal or 0 and the highest digit (09 and 90 for cards). |
| `WeightedMod10.SingleErrorMissedIff` | crates/pii/src/lib.rs:968-975 | Replacing a value keeps the check digit if and only if old and new agree modulo 10. |
| `WeightedMod10.SwapMissedIff` | crates/pii/src/lib.rs:968-975 | Swapping neighbours keeps it if and only if they agree modulo 5. |
| `WeightedMod10.AbaIs` | crates/pii/src/lib.rs:764-772 | The fold over the characters panics exactly when one of the first nine is not an ASCII digit, and otherwise accepts exactly when their weighted sum is divisible by 10. |
| `WeightedMod10.AbaAcceptsIff` | crates/pii/src/lib.rs:764-772 | Of nine characters it accepts those digits for which 3 (d1 + d4 + d7) + 7 (d2 + d5 + d8) + (d3 + d6 + d9) is divisible by 10. |
| `WeightedMod10.ForeignDigitPanics` | crates/pii/src/lib.rs:132-132 | A number the pattern admits, with an Arabic-Indic digit, on which the unwrap fails. |
| `WeightedMod10.AbaSingleErrorDetected` | crates/pii/src/lib.rs:764-772 | No change of one character leaves a valid routing number valid: another digit makes it invalid, any other character the unwrap fail. |
| `WeightedMod10.AbaSwapMissedIff` | crates/pii/src/lib.rs:764-772 | A swap of neighbours is missed if and only if they are equal or five apart. |
| `WeightedMod10.MrzCheckDigit` | crates/pii/src/lib.rs:968-975 | The loop computes the weighted sum modulo 10, or None when a character has no value. |
| `WeightedMod10.FieldFormula` | crates/pii/src/lib.rs:968-975 | The published formula, with the weights 7, 3 and 1, for the fields of six and of nine characters. |
| `WeightedMod10.KnownField` | crates/pii/src/lib.rs:968-975 | A date of birth with its check digit. |
| `WeightedMod10.ValuesAre` | crates/pii/src/lib.rs:955-962 | Digits stand for themselves, letters for 10 to 35, the filler for 0. |
| `WeightedMod10.FieldValidIff` | crates/pii/src/lib.rs:988-999 | A field over the alphabet has exactly one valid check character. |
| `WeightedMod10.ForeignFieldValidIff` | crates/pii/src/lib.rs:988-999 | A field with a foreign character, which the scanner's pattern never delivers, passes exactly when its check character is no digit: two absent values compare equal. |
| `WeightedMod10.LineErrorMissedIff` | crates/pii/src/lib.rs:988-999 | One wrong character in a valid line is missed exactly outside the three checked fields, or inside one where the values agree modulo 10. |
| `Iban.IbanChecksumValid` | crates/pii/src/lib.rs:736-760 | The streaming loop, in 64-bit arithmetic without overflow, accepts exactly the numbers whose rearranged and expanded integer is 1 modulo 97. |
| `Iban.RemainderIsNumberMod97` | crates/pii/src/lib.rs:747-758 | The remainder kept along the way equals the big integer modulo 97, at any length (ISO/IEC 7064). |
| `Iban.SingleErrorDetected` | crates/pii/src/lib.rs:736-760 | Replacing any digit by another digit or any letter by another letter makes a valid number invalid. |
| `Iban.SwapMissedIff` | crates/pii/src/lib.rs:736-760 | A swap of neighbours other than the fourth and fifth characters is missed if and only if they are equal or one of the pairs 1B, 2M, 3X, and the country code keeps its letters. |
| `Iban.SwapAcrossIff` | crates/pii/src/lib.rs:736-760 | The swap of the fourth and fifth, which the rearrangement moves to the two ends: two digits or two letters must be equal; for a digit and a letter a closed condition on their values and the number of digits in between. |
| `Iban.CheckDigitsIff` | crates/pii/src/lib.rs:736-760 | For every country and account: a number is accepted exactly when the account has 11 to 30 characters and the check digits are the prescribed ones, or their alias 97 away (00 for 97, 01 for 98, 99 for 02). |
| `Iban.ExpandIs` | crates/pii/src/lib.rs:750-755 | Digits stand for themselves, letters for 10 to 35 in two digits. |
| `Iban.UpperIgnoresCase` | crates/pii/src/lib.rs:737-737 | A lower-case letter counts as its capital. |
| `ContextWindow.FloorCharBoundary` | crates/pii/src/lib.rs:938-943 | The walk down ends at the last character boundary at or before the index. |
| `ContextWindow.CeilCharBoundary` | crates/pii/src/lib.rs:946-951 | The walk up ends at the first character boundary at or after it. |
| `ContextWindow.HasContextKeyword` | crates/pii/src/lib.rs:927-933 | The window can always be cut out, and the answer is whether some keyword stands in the text, up to case, between its two edges. |
| `ContextWindow.WithinIff` | crates/pii/src/lib.rs:931-932 | A keyword counts in any case: it stands between two offsets exactly when a part of the text between them spells it in lower case. |
| `Utf8.BoundariesAreOffsets` | crates/pii/src/lib.rs:935-943 | Every character boundary of a text's bytes is the offset of one of its characters. |
| `ContextWindow.WindowEdges` | crates/pii/src/lib.rs:928-930 | The window reaches at least forty bytes to either side of the match, or to the end of the text, and at most forty-three. |
| `ContextWindow.BytesInsideCharacters` | crates/pii/src/lib.rs:920-930 | The window of bytes never reaches beyond the documented forty characters to either side. |
| `ContextWindow.LeftEdgeIff` | crates/pii/src/lib.rs:929-929 | Its left edge covers the documented characters exactly when all of them but the farthest take fewer than forty bytes. |
| `ContextWindow.RightEdgeIff` | crates/pii/src/lib.rs:930-930 | So does its right edge. |
| `ContextWindow.CharacterWindowIff` | crates/pii/src/lib.rs:920-933 | The documented promise: for every list of keywords the answer is whether one stands within forty characters of the match, if and only if both edges cover them. |
| `ContextWindow.NearKeywordMissed` | crates/pii/src/lib.rs:920-933 | A label in front of two-byte characters, within the documented window, is found up to eighteen of them and missed from nineteen on. |

## Left out

- Detection itself: regular expressions, OCR, PDF and archive readers, entity recognition, risk and policy rules. Matches and verdicts are arbitrary inputs.
- The servers: TLS, certificates, sockets, routing, the CONNECT handshake (`read_connect_target`, `read_connect_response`), and failing writes.
- Fields of a multipart upload: their scan is one arbitrary verdict, with the code's own turn from Redact to Block kept.
- JSON text: parsing and serializing are taken as inverse, so `apply_redactions` starts from the parsed tree. Object keys of a parsed body are distinct.
- Aliasing of JavaScript objects: a rewritten body is a new tree that differs in one leaf.
- Case mappings that change the number of characters or bytes (such as the lower case of a dotted capital I): with them the offsets of `scan_custom_keywords` no longer fit the original text.
- Redaction.KeywordCompleteIff: keywords that contain brackets are excluded, as they are from CompleteIff.
- JsonRedaction.LeavesClean: has the bracket condition of CompleteIff.
- Redaction.CompleteIff: replacements without brackets and snippets that contain brackets are excluded. There a snippet can arise where a replacement meets the text around it.
- LuhnModN.LuhnChecksumValid: does not model the 32-bit sum, which takes hundreds of millions of digits to overflow.
- Iban.IbanChecksumValid: candidates are ASCII, as the scanner's own pattern delivers them.
- SignedRequests.VerifySignedRequest: the signature is an arbitrary verdict on the request, and the difference of clock and timestamp does not overflow 64 bits.
- PolicyState.AlwaysAgreesIff: one sync at a time, as the agent's single sync loop has it. Any number of edits and inspections interleave.
- RestartLimiter.RunWatchdog: the flag that the status file is written from and the reasons a child stops are not modelled. A turn is what the loop does with it.
- Mutexes of the nonce cache and the rate limiter: each call is one step.
- Licensing, metrics, configuration, audit paging, content-script registration and the user interface.
