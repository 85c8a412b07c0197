# BitMind actions: a verified model

This project models two actions that an agent plugin gives its host runtime.
`DETECT_IMAGE` asks a remote service whether an image is AI-generated.
`DETECT_MATRIX` asks a remote service for an "AI influence" score of a URL.

Each action has a `validate` gate and a `handler`:

- The gate passes when the message text contains a URL and the `bitmind` secret is configured.
- The handler extracts the first URL from the text with `https?://[^\s]+`, sends one POST, and renders the answer as a reply.
- The image handler gives its result to the callback and also returns it.
- The matrix handler delivers only through the callback. It guards against re-entry with an `isMatrixAnalyzing` flag on the conversation state, and nothing ever clears that flag.

Modules:

- `UrlMatch` (url_match.dfy) is the extractor used by both actions. `IsUrlToken` defines the language of the regular expression. `IsLeftmostLongest` defines the match that `String.prototype.match` reports. `FirstMatch` and `FirstUrl` are proved to compute exactly that match, or to return nothing when the text has no match. `IsWhitespace` is the ECMAScript `\s` class: the WhiteSpace and LineTerminator code points of sections 12.2 and 12.3 of ECMA-262 (2023 edition).
- `Text` (text.dfy) renders integers as template literals do, parses them back, and tests prefixes, suffixes and substrings.
- `Host` (host.dfy) holds what both actions share:
  - the truthiness of the secret;
  - the `Authorization` header;
  - `Response`, the outcome of `fetch` plus `response.json()`: ok with a body, not ok with a status text, or rejected with a message;
  - `Thrown`, what a handler throws;
  - `Math.round`.
- `BitMind` (bitmind.dfy) is the image action. It is written as pure functions. The handler takes the remote outcome as a parameter and returns a record with the request it sent, the value it gave the callback, and how it ended.
- `Matrix` (matrix.dfy) is the URL-scoring action. The work after the guard is the pure function `Analyze`. `ConversationState` is a class with the mutable flag. `Handler` is a method that reads the flag, sets it, and then does the work.
- `Wrappers` (wrappers.dfy) holds `Option`.

What the handlers receive from the host is narrowed to a few plain values:

- the message text, which may be absent;
- the `skipBitMindAction` flag;
- the `bitmind` secret, which may be absent;
- for the image action, whether the callback is a function;
- the outcome the remote call would produce.

Two details of the error paths:

- A failed call throws `Failed to detect image: BitMind API request failed: <statusText>`. The `catch` block wraps the error thrown inside the `try` block. The matrix action does the same with its own wording.
- When there is no text or no URL, the handlers throw a TypeError. This happens at `match(...)[0]`, outside the `try` block, so that error is not wrapped. In the matrix action the flag has already been set when this happens.

## Model

| member | source | states |
|---|---|---|
| UrlMatch.IsWhitespace | src/plugins/bitmind/index.ts:25 | the `\s` class of the pattern: the WhiteSpace and LineTerminator code points of ECMA-262 |
| UrlMatch.IsUrlToken | src/plugins/bitmind/index.ts:25 | the language of `https?://[^\s]+`: `http://` or `https://` followed by one or more characters, none of them whitespace |
| UrlMatch.MatchAt | src/plugins/bitmind/index.ts:25 | the pattern matches the substring between two indices of the text |
| UrlMatch.HasMatch | src/plugins/bitmind/index.ts:25-26 | `match(...)` does not return null: some substring of the text is a token of the language |
| UrlMatch.StartsMatch | src/plugins/bitmind/index.ts:25 | a match starts at an index: a scheme there, followed by one character that is not whitespace |
| UrlMatch.IsLeftmostLongest | src/plugins/bitmind/index.ts:25 | the match `String.prototype.match` reports: a match, no match starting further left, and none longer from the same start |
| UrlMatch.SchemeLength | src/plugins/bitmind/index.ts:25 | `https?://` matches at an index as `https://` (8 characters), as `http://` (7), or not at all, and the scheme fits inside the text |
| UrlMatch.FindStart | src/plugins/bitmind/index.ts:25 | returns the earliest index at or after `from` where a match starts; None exactly when no index in that range starts a match |
| UrlMatch.RunEnd | src/plugins/bitmind/index.ts:25 | greedy `[^\s]+`: the returned run holds no whitespace and is followed by whitespace or by the end of the text |
| UrlMatch.TokenNoWhitespace | src/plugins/bitmind/index.ts:25 | no token of the language contains whitespace, scheme included |
| UrlMatch.MatchStarts | src/plugins/bitmind/index.ts:25 | every match of the pattern starts where the scanner looks for one, with the scheme SchemeLength reports |
| UrlMatch.TokenExtend | src/plugins/bitmind/index.ts:25 | a token followed by a non-whitespace character extends to a longer token, so the greedy match stops only at whitespace or at the end |
| UrlMatch.GreedyMatch | src/plugins/bitmind/index.ts:25 | from a match start, the whole non-whitespace run is a match and no longer match exists |
| UrlMatch.FirstMatch | src/plugins/bitmind/index.ts:25 | the span returned is the leftmost-longest match of `https?://[^\s]+`; None only when the text has no match at all |
| UrlMatch.FirstUrl | src/plugins/bitmind/index.ts:54-55 | `match(...)[0]` is None exactly when the text holds no match; otherwise it is the substring at the leftmost-longest match |
| UrlMatch.LeftmostLongestUnique | src/plugins/matrix/index.ts:13 | the leftmost-longest match is unique, so both actions' gates and handlers see the same URL |
| UrlMatch.UrlExtent | src/plugins/bitmind/index.ts:54-55 | the extracted URL begins with `http://` or `https://` at its index in the text, has a character after `://`, holds no whitespace, and is followed by whitespace or the end of the text |
| UrlMatch.FirstUrlWins | src/plugins/matrix/index.ts:39-40 | when the text before a URL has no match and ends in whitespace, and the URL is followed by whitespace or the end, that URL is the one extracted, whatever follows |
| UrlMatch.StartInPrefix | src/plugins/matrix/index.ts:39 | a match start inside a prefix that ends in whitespace lies wholly inside the prefix |
| UrlMatch.NoStartInPrefix | src/plugins/matrix/index.ts:39 | no match starts inside a match-free prefix that ends in whitespace |
| Text.NatToString | src/plugins/bitmind/index.ts:82 | decimal digits of a percentage: non-empty, digits only, no leading zero |
| Text.IntToString | src/plugins/matrix/index.ts:65 | `${percentage}`: an optional leading minus sign followed by digits |
| Text.NatRoundTrip | src/plugins/bitmind/index.ts:82 | the digits read back as the number they render |
| Text.IntRoundTrip | src/plugins/matrix/index.ts:65 | parsing an integer's rendering gives the integer back, so different percentages render differently |
| Text.ContainsPiece | src/plugins/matrix/index.ts:65-71 | each piece of a template's concatenation occurs in the rendered text |
| Host.Truthy | src/plugins/bitmind/index.ts:31 | the secret passes the gate when it is present and not the empty string |
| Host.Authorization | src/plugins/bitmind/index.ts:63 | the header is `Bearer ` followed by the secret, and exactly `Bearer undefined` when the secret is absent |
| Host.Round | src/plugins/bitmind/index.ts:82 | `Math.round` gives the integer in (x - 0.5, x + 0.5] |
| Host.Percent | src/plugins/matrix/index.ts:64 | `Math.round(x * 100)` lies within half of x * 100, and between 0 and 100 for x in [0, 1] |
| BitMind.Validate | src/plugins/bitmind/index.ts:22-38 | true exactly when the text is present, holds a match, and the secret is present and non-empty; false without text or URL whatever the secret; false without a truthy secret whatever the text |
| BitMind.VerdictPhrase | src/plugins/bitmind/index.ts:80-81 | the verdict phrase: "appears to be" when `isAI`, "does not appear to be" otherwise |
| BitMind.ReplyText | src/plugins/bitmind/index.ts:80-82 | the reply template: fixed text, verdict phrase, fixed text, the percentage and `%`, closing text |
| BitMind.VerdictPhraseIff | src/plugins/bitmind/index.ts:80-81 | the verdict phrase contains "appears to be" iff `isAI`, and "does not appear to be" iff not |
| BitMind.ReplyRoundTrip | src/plugins/bitmind/index.ts:80-82 | the verdict and the percentage can both be read back from the reply text |
| BitMind.NegativeReplyLacksAppears | src/plugins/bitmind/index.ts:80-82 | the reply for a negative verdict contains "appears to be" nowhere, whatever the percentage |
| BitMind.ReplyShows | src/plugins/bitmind/index.ts:80-82 | the reply contains the verdict phrase, and the percentage followed by `%` |
| BitMind.ReplyExample | src/plugins/bitmind/index.ts:80-82 | `{isAI: true, confidence: 0.87}` gives a reply containing "appears to be" and "87%" |
| BitMind.Handle | src/plugins/bitmind/index.ts:40-100 | skip flag: returns null and sends and delivers nothing. No text or URL: TypeError. Otherwise it sends the first URL with the secret. On failure it throws the wrapped status text and does not invoke the callback. On success it returns a result carrying `isAI`, `confidence` and the reply, and passes that same object to the callback when it is a function |
| BitMind.FailureMessage | src/plugins/bitmind/index.ts:71-98 | the thrown message: `Failed to detect image: ` wrapping the non-ok error `BitMind API request failed: <statusText>` or the rejection's message |
| BitMind.FailureNamesStatus | src/plugins/bitmind/index.ts:69-98 | the error thrown for a non-ok response contains its status text |
| BitMind.SuccessVerdict | src/plugins/bitmind/index.ts:80-94 | after a successful call the returned reply contains "appears to be" if and only if `isAI`, and contains "does not appear to be" when not `isAI` |
| BitMind.ValidatedRequest | src/plugins/bitmind/index.ts:53-55 | once `validate` passes, the handler does not fail reading the URL and sends the very match the gate found |
| Matrix.Validate | src/plugins/matrix/index.ts:10-28 | true exactly when the text is present, holds a match, and the secret is present and non-empty; false otherwise |
| Matrix.BandOf | src/plugins/matrix/index.ts:66-70 | high iff percentage > 75, moderate iff 40 < percentage <= 75, low iff percentage <= 40; 75 is moderate and 40 is low |
| Matrix.BandMonotone | src/plugins/matrix/index.ts:66-70 | a higher percentage never selects a less severe band |
| Matrix.PhrasePartition | src/plugins/matrix/index.ts:66-70 | the three phrases are distinct, and each percentage selects exactly one of them by the three ranges |
| Matrix.ScoreBands | src/plugins/matrix/index.ts:64-70 | scores 0.8, 0.5 and 0.4 give 80 (high), 50 (moderate) and 40 (low) |
| Matrix.BandPhrase | src/plugins/matrix/index.ts:66-70 | the closing phrase of each band |
| Matrix.ReplyText | src/plugins/matrix/index.ts:65-71 | the reply template: fixed text, the percentage and `%`, fixed text, the band's phrase |
| Matrix.ReadBandOf | src/plugins/matrix/index.ts:66-70 | the closing phrase identifies its band |
| Matrix.ReplyRoundTrip | src/plugins/matrix/index.ts:65-71 | the percentage and its band can be read back from the reply text |
| Matrix.ReplyShows | src/plugins/matrix/index.ts:65-71 | the reply embeds the percentage followed by `%` and ends with the phrase of its band |
| Matrix.FailureMessage | src/plugins/matrix/index.ts:56-79 | the thrown message: `Failed to analyze URL: ` wrapping the non-ok error `Trinity Matrix API request failed: <statusText>` or the rejection's message |
| Matrix.FailureNamesStatus | src/plugins/matrix/index.ts:54-79 | the error thrown for a non-ok response contains its status text |
| Matrix.Analyze | src/plugins/matrix/index.ts:36-80 | no text or URL: TypeError, nothing sent. Otherwise it sends the first URL with the secret. On failure it throws the wrapped status text and does not invoke the callback. On success the callback gets the unmodified score and the reply for its percentage |
| Matrix.ValidatedRequest | src/plugins/matrix/index.ts:38-40 | once `validate` passes, the handler does not fail reading the URL and sends the very match the gate found |
| Matrix.ConversationState.constructor | src/plugins/matrix/index.ts:31-34 | the conversation state holding the `isMatrixAnalyzing` flag the handler reads and sets |
| Matrix.Handler | src/plugins/matrix/index.ts:30-81 | a set flag turns the call away; nothing is sent, delivered or thrown. Otherwise it sets the flag and does the work. The flag is true afterwards on every path |
| Matrix.HandlerTwice | src/plugins/matrix/index.ts:31-34 | a second invocation on the same state is a no-op, whatever the first one did |

Each function is deterministic, so extracting twice from the same text gives the same URL.

## Left out

- HTTP and JSON: the request is recorded as a value (endpoint, `Authorization` header, URL), and the response is the parameter `remote`. The `Content-Type` header and the JSON encoding of the body are not modelled.
- Logging: no behaviour depends on it.
- Floating point: confidence and score are `real`, so `Math.round(x * 100)` is computed exactly. IEEE-754 rounding of `x * 100` can differ next to a `.5` boundary.
- Number rendering: only integers are rendered. A percentage of magnitude 1e21 or more would print with an exponent in JavaScript. A response body without a numeric field would give `NaN`. The model assumes a numeric field.
- Host objects: `message.content`, `runtime.character.settings.secrets` and `state` are assumed to exist. Without them, `handler` throws a TypeError where the source reads them. Only the text and the secret are optional.
- Callback: the matrix handler's callback is always assumed to be a function, as its type says. A callback that throws is not modelled. The image handler passes the callback the very object it then returns (src/plugins/bitmind/index.ts:91-94), so a callback that mutates that object changes the returned value. `BitMind.Handle` states only that the delivered and returned values are equal; object identity and mutation by the callback are not modelled.
- Host dispatch: the host calls `validate` before `handler`. That ordering is not modelled. Each handler is modelled on every input, and `ValidatedRequest` relates the two.
- Async and concurrency: the flag is modelled only for sequential invocations.
- Static data: the `Plugin` descriptors, `similes` and `examples` are data only.
- Text encoding: JavaScript strings are UTF-16 code units, while a Dafny `char` is a Unicode scalar value. Every `\s` character is in the Basic Multilingual Plane, so both views select the same characters.
