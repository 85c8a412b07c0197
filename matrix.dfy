/**
 * The URL-scoring action (`DETECT_MATRIX`, src/plugins/matrix/index.ts): its
 * validation gate, the three-band reading of the score, the reply it renders, and
 * its handler, which guards against re-entry with a flag on the conversation state.
 * The call to the remote service is a parameter (what `fetch` would yield).
 */
module Matrix {
  import opened Wrappers
  import opened UrlMatch
  import opened Text
  import opened Host

  const Endpoint: string := "https://trinity-api.bitmindlabs.ai/ai-score"

  /** The POST the handler sends: endpoint, `Authorization` header and the body's
      `url` field. */
  datatype ScoreRequest = ScoreRequest(endpoint: string, authorization: string, url: string)

  /** What the callback receives. */
  datatype ScorePayload = ScorePayload(text: string, score: real)

  /** One invocation of the handler: the request it sent, the value it passed to the
      callback, and the error it threw, if any (it returns nothing). */
  datatype MatrixRun = MatrixRun(request: Option<ScoreRequest>, delivered: Option<ScorePayload>, thrown: Option<Thrown>)

  /** `validate`: the message's text holds a URL and the `bitmind` secret is set.
      The action carries its own copy of the same gate as `BitMind.Validate`. */
  function Validate(text: Option<string>, secret: Option<string>): (ok: bool)
    ensures ok <==> text.Some? && HasMatch(text.value) && Truthy(secret)
    ensures text.None? || !HasMatch(text.value) ==> !ok
    ensures !Truthy(secret) ==> !ok
  {
    match text
    case None => false
    case Some(t) => FirstUrl(t).Some? && Truthy(secret)
  }

  /** The qualitative reading of the percentage. */
  datatype Band = High | Moderate | Low

  /** The nested conditional on the percentage: `> 75`, else `> 40`, else the rest;
      each bound is exclusive, so 75 is moderate and 40 is low. */
  function BandOf(percentage: int): (b: Band)
    ensures b == High <==> percentage > 75
    ensures b == Moderate <==> 40 < percentage <= 75
    ensures b == Low <==> percentage <= 40
  {
    if percentage > 75 then High else if percentage > 40 then Moderate else Low
  }

  function Severity(b: Band): nat
  {
    match b
    case Low => 0
    case Moderate => 1
    case High => 2
  }

  /** A higher percentage never reads as less severe. */
  lemma BandMonotone(p: int, q: int)
    requires p <= q
    ensures Severity(BandOf(p)) <= Severity(BandOf(q))
  {
  }

  /** Scores of 0.8, 0.5 and 0.4 read as high, moderate and low: 40 is not above 40. */
  lemma ScoreBands()
    ensures Percent(0.8) == 80 && BandOf(Percent(0.8)) == High
    ensures Percent(0.5) == 50 && BandOf(Percent(0.5)) == Moderate
    ensures Percent(0.4) == 40 && BandOf(Percent(0.4)) == Low
  {
  }

  const HighPhrase: string := "high synthetic probability detected. approach with caution."
  const ModeratePhrase: string := "moderate AI patterns present. verification recommended."
  const LowPhrase: string := "low synthetic markers. likely authentic content."

  function BandPhrase(b: Band): string
  {
    match b
    case High => HighPhrase
    case Moderate => ModeratePhrase
    case Low => LowPhrase
  }

  /** The three phrases are different and each percentage selects exactly one. */
  lemma PhrasePartition(percentage: int)
    ensures HighPhrase != ModeratePhrase && ModeratePhrase != LowPhrase && HighPhrase != LowPhrase
    ensures BandPhrase(BandOf(percentage)) == HighPhrase <==> percentage > 75
    ensures BandPhrase(BandOf(percentage)) == ModeratePhrase <==> 40 < percentage <= 75
    ensures BandPhrase(BandOf(percentage)) == LowPhrase <==> percentage <= 40
  {
    assert HighPhrase[|HighPhrase| - 2] == 'n';
    assert ModeratePhrase[|ModeratePhrase| - 2] == 'd';
    assert LowPhrase[|LowPhrase| - 2] == 't';
  }

  const ReplyHead: string := "matrix scan complete. url shows "
  const ReplyMiddle: string := " AI influence rating. "

  /** `responseText`, for the rounded percentage. */
  function ReplyText(percentage: int): string
  {
    ReplyHead + (IntToString(percentage) + "%") + ReplyMiddle + BandPhrase(BandOf(percentage))
  }

  /** Reads the percentage and the band back from a reply. */
  function ReadReply(t: string): Option<(int, Band)>
  {
    if !StartsWith(t, ReplyHead) then None
    else match ReadBand(t[|ReplyHead|..])
      case None => None
      case Some((b, d)) =>
        match ReadPercent(d)
        case None => None
        case Some(p) => Some((p, b))
  }

  /** Reads the percentage and its `%` in front of the rating text. */
  function ReadPercent(d: string): Option<int>
  {
    if !EndsWith(d, ReplyMiddle) then None
    else
      var e := d[..|d| - |ReplyMiddle|];
      if EndsWith(e, "%") then ParseInt(e[..|e| - 1]) else None
  }

  lemma ReadPercentOf(p: int)
    ensures ReadPercent(IntToString(p) + "%" + ReplyMiddle) == Some(p)
  {
    SuffixOf(IntToString(p) + "%", ReplyMiddle);
    SuffixOf(IntToString(p), "%");
    IntRoundTrip(p);
  }

  /** Reads the closing phrase; returns its band and the text in front of it. */
  function ReadBand(r: string): Option<(Band, string)>
  {
    if EndsWith(r, HighPhrase) then Some((High, r[..|r| - |HighPhrase|]))
    else if EndsWith(r, ModeratePhrase) then Some((Moderate, r[..|r| - |ModeratePhrase|]))
    else if EndsWith(r, LowPhrase) then Some((Low, r[..|r| - |LowPhrase|]))
    else None
  }

  lemma ReadBandOf(b: Band, d: string)
    ensures ReadBand(d + BandPhrase(b)) == Some((b, d))
  {
    var q := BandPhrase(b);
    var r := d + q;
    SuffixOf(d, q);
    assert r[|r| - 2] == q[|q| - 2];
    if b != High {
      assert !EndsWith(r, HighPhrase) by {
        assert HighPhrase[|HighPhrase| - 2] == 'n';
        assert q[|q| - 2] != 'n';
        if |HighPhrase| <= |r| { assert r[|r| - |HighPhrase|..][|HighPhrase| - 2] == r[|r| - 2]; }
      }
    }
    if b == Low {
      assert !EndsWith(r, ModeratePhrase) by {
        assert ModeratePhrase[|ModeratePhrase| - 2] == 'd';
        assert q[|q| - 2] == 't';
        if |ModeratePhrase| <= |r| { assert r[|r| - |ModeratePhrase|..][|ModeratePhrase| - 2] == r[|r| - 2]; }
      }
    }
  }

  /** The reply shows the percentage and its band unambiguously: both can be read
      back from the text. */
  lemma ReplyRoundTrip(percentage: int)
    ensures ReadReply(ReplyText(percentage)) == Some((percentage, BandOf(percentage)))
  {
    var d := IntToString(percentage) + "%" + ReplyMiddle;
    var r := d + BandPhrase(BandOf(percentage));
    Regroup4(ReplyHead, IntToString(percentage) + "%", ReplyMiddle, BandPhrase(BandOf(percentage)));
    PrefixOf(ReplyHead, r);
    ReadBandOf(BandOf(percentage), d);
    ReadPercentOf(percentage);
  }

  /** The reply embeds the percentage followed by `%`, and ends with the phrase of
      the percentage's band. */
  lemma ReplyShows(percentage: int)
    ensures Contains(ReplyText(percentage), IntToString(percentage) + "%")
    ensures EndsWith(ReplyText(percentage), BandPhrase(BandOf(percentage)))
  {
    ContainsParts4(ReplyHead, IntToString(percentage) + "%", ReplyMiddle, BandPhrase(BandOf(percentage)));
  }

  /** The message of the error the handler throws when the remote call fails: the
      `catch` block wraps whatever the `try` block threw. */
  function FailureMessage(remote: Response<real>): string
    requires !remote.Ok?
  {
    "Failed to analyze URL: "
    + (if remote.NotOk? then "Trinity Matrix API request failed: " + remote.statusText else remote.message)
  }

  /** A non-ok response's status text appears in the thrown error's message. */
  lemma FailureNamesStatus(statusText: string)
    ensures Contains(FailureMessage(NotOk(statusText)), statusText)
  {
    assert FailureMessage(NotOk(statusText)) == "Failed to analyze URL: Trinity Matrix API request failed: " + statusText;
    ContainsEnd("Failed to analyze URL: Trinity Matrix API request failed: ", statusText);
  }

  /** The handler's work once the guard has let it through. */
  function Analyze(text: Option<string>, secret: Option<string>, remote: Response<real>): (run: MatrixRun)
    // Reading `text.match(...)[0]` throws, outside the `try`, when there is no text
    // or no URL in it.
    ensures run.request.Some? <==> text.Some? && HasMatch(text.value)
    ensures run.request.None? ==> run == MatrixRun(None, None, Some(TypeError))
    // The request carries the first URL of the text and the configured secret.
    ensures run.request.Some? ==>
      run.request.value == ScoreRequest(Endpoint, Authorization(secret), FirstUrl(text.value).value)
    // A failed call throws, naming the status text, and the callback is not invoked.
    ensures run.request.Some? && !remote.Ok? ==>
      run.delivered.None? && run.thrown == Some(Error(FailureMessage(remote)))
    // A successful call delivers the unmodified score and the reply for its percentage.
    ensures run.request.Some? && remote.Ok? ==>
      run.thrown.None? && run.delivered == Some(ScorePayload(ReplyText(Percent(remote.body)), remote.body))
  {
    if text.None? then MatrixRun(None, None, Some(TypeError))
    else match FirstUrl(text.value)
      case None => MatrixRun(None, None, Some(TypeError))
      case Some(url) =>
        var request := ScoreRequest(Endpoint, Authorization(secret), url);
        match remote
        case Ok(score) => MatrixRun(Some(request), Some(ScorePayload(ReplyText(Percent(score)), score)), None)
        case _ => MatrixRun(Some(request), None, Some(Error(FailureMessage(remote))))
  }

  /** What `validate` accepted, `handler` acts on: once the gate passes, the handler
      never fails on reading the URL, and it sends the very match the gate found. */
  lemma ValidatedRequest(text: Option<string>, secret: Option<string>, remote: Response<real>)
    requires Validate(text, secret)
    ensures var run := Analyze(text, secret, remote);
      run.thrown != Some(TypeError)
      && run.request == Some(ScoreRequest(Endpoint, "Bearer " + secret.value, FirstUrl(text.value).value))
  {
  }

  /** The host's per-conversation state, narrowed to the one flag the handler uses. */
  class ConversationState {
    var isMatrixAnalyzing: bool

    constructor (isMatrixAnalyzing: bool)
      ensures this.isMatrixAnalyzing == isMatrixAnalyzing
    {
      this.isMatrixAnalyzing := isMatrixAnalyzing;
    }
  }

  /** The run of an invocation the guard turned away: nothing sent, nothing
      delivered, nothing thrown. */
  const Skipped: MatrixRun := MatrixRun(None, None, None)

  /** `handler`: returns at once when the flag is set; otherwise sets it and does the
      work. Nothing clears the flag, whether the work succeeds or throws. */
  method Handler(state: ConversationState, text: Option<string>, secret: Option<string>,
                 remote: Response<real>) returns (run: MatrixRun)
    modifies state
    ensures state.isMatrixAnalyzing
    ensures old(state.isMatrixAnalyzing) ==> run == Skipped
    ensures !old(state.isMatrixAnalyzing) ==> run == Analyze(text, secret, remote)
  {
    if state.isMatrixAnalyzing {
      return Skipped;
    }
    state.isMatrixAnalyzing := true;
    run := Analyze(text, secret, remote);
  }

  /** Two invocations on the same state: the second is turned away, whatever its
      inputs and however the first ended. */
  method HandlerTwice(state: ConversationState,
                      text1: Option<string>, secret1: Option<string>, remote1: Response<real>,
                      text2: Option<string>, secret2: Option<string>, remote2: Response<real>)
    returns (first: MatrixRun, second: MatrixRun)
    modifies state
    ensures state.isMatrixAnalyzing
    ensures old(state.isMatrixAnalyzing) ==> first == Skipped
    ensures !old(state.isMatrixAnalyzing) ==> first == Analyze(text1, secret1, remote1)
    ensures second == Skipped
  {
    first := Handler(state, text1, secret1, remote1);
    second := Handler(state, text2, secret2, remote2);
  }
}
