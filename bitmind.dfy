/**
 * The image-detection action (`DETECT_IMAGE`, src/plugins/bitmind/index.ts): its
 * validation gate, the reply it renders and its handler. The handler only computes:
 * the call to the remote service is a parameter (what `fetch` would yield), and the
 * callback's invocation is part of the result.
 */
module BitMind {
  import opened Wrappers
  import opened UrlMatch
  import opened Text
  import opened Host

  const Endpoint: string := "https://subnet-api.bitmindlabs.ai/detect-image"

  /** The parsed body of a successful response. */
  datatype Detection = Detection(isAI: bool, confidence: real)

  /** The POST the handler sends: endpoint, `Authorization` header and the body's
      `image` field. */
  datatype DetectRequest = DetectRequest(endpoint: string, authorization: string, image: string)

  /** `resultData`: what the callback receives and the handler returns. */
  datatype ImageResult = ImageResult(text: string, isAI: bool, confidence: real)

  /** How the handler's promise settles. */
  datatype Outcome = Returned(value: Option<ImageResult>) | Threw(error: Thrown)

  /** One invocation of the handler: the request it sent, the value it passed to the
      callback, and how it ended. */
  datatype ImageRun = ImageRun(request: Option<DetectRequest>, delivered: Option<ImageResult>, outcome: Outcome)

  /** `validate`: the message's text holds a URL and the `bitmind` secret is set. */
  function Validate(text: Option<string>, secret: Option<string>): (ok: bool)
    ensures ok <==> text.Some? && HasMatch(text.value) && Truthy(secret)
    ensures text.None? || !HasMatch(text.value) ==> !ok
    ensures !Truthy(secret) ==> !ok
  {
    match text
    case None => false
    case Some(t) => FirstUrl(t).Some? && Truthy(secret)
  }

  // The template's text before the verdict, in three phrases.
  const ReplyHead: string := "According to BitMind's " + "Deepfake Detection Subnet, " + "the image "
  const Appears: string := "appears to be"
  const DoesNotAppear: string := "does not appear to be"
  const ReplyMiddle: string := " AI-generated \n              ("
  const ReplyTail: string := " confidence of AI generation)."

  function VerdictPhrase(isAI: bool): string
  {
    if isAI then Appears else DoesNotAppear
  }

  /** The negative phrase does not contain the positive one, so the phrase in the
      reply contains "appears to be" exactly when the image is judged AI-generated. */
  lemma VerdictPhraseIff(isAI: bool)
    ensures Contains(VerdictPhrase(isAI), Appears) <==> isAI
    ensures Contains(VerdictPhrase(isAI), DoesNotAppear) <==> !isAI
  {
    if isAI {
      assert OccursAt(Appears, Appears, 0);
    } else {
      assert OccursAt(DoesNotAppear, DoesNotAppear, 0);
      forall k | 0 <= k <= |DoesNotAppear| - |Appears| ensures !OccursAt(DoesNotAppear, Appears, k) {
        assert DoesNotAppear[k..k + |Appears|][0] == DoesNotAppear[k];
      }
    }
  }

  /** `responseText`, for a verdict and the rounded confidence percentage. */
  function ReplyText(isAI: bool, percent: int): string
  {
    ReplyHead + VerdictPhrase(isAI) + ReplyMiddle + (IntToString(percent) + "%") + ReplyTail
  }

  /** Reads a verdict and a percentage back from a reply. */
  function ReadReply(t: string): Option<(bool, int)>
  {
    if !StartsWith(t, ReplyHead) then None
    else match ReadVerdict(t[|ReplyHead|..])
      case None => None
      case Some((isAI, d)) =>
        match ReadPercent(d)
        case None => None
        case Some(p) => Some((isAI, p))
  }

  /** Reads the verdict phrase and the fixed text after it; returns the verdict and
      what follows. */
  function ReadVerdict(r: string): Option<(bool, string)>
  {
    if StartsWith(r, Appears + ReplyMiddle) then Some((true, r[|Appears + ReplyMiddle|..]))
    else if StartsWith(r, DoesNotAppear + ReplyMiddle) then Some((false, r[|DoesNotAppear + ReplyMiddle|..]))
    else None
  }

  /** Reads the percentage and its `%` in front of the closing text. */
  function ReadPercent(d: string): Option<int>
  {
    if !EndsWith(d, ReplyTail) then None
    else
      var e := d[..|d| - |ReplyTail|];
      if EndsWith(e, "%") then ParseInt(e[..|e| - 1]) else None
  }

  lemma ReadVerdictOf(isAI: bool, d: string)
    ensures ReadVerdict(VerdictPhrase(isAI) + ReplyMiddle + d) == Some((isAI, d))
  {
    var yes := Appears + ReplyMiddle;
    var lead := VerdictPhrase(isAI) + ReplyMiddle;
    PrefixOf(lead, d);
    if !isAI {
      var r := lead + d;
      assert r[0] == 'd';
      assert !StartsWith(r, yes) by { assert yes[0] == 'a'; }
    }
  }

  lemma ReadPercentOf(p: int)
    ensures ReadPercent(IntToString(p) + "%" + ReplyTail) == Some(p)
  {
    SuffixOf(IntToString(p) + "%", ReplyTail);
    SuffixOf(IntToString(p), "%");
    IntRoundTrip(p);
  }

  /** The reply shows its verdict and percentage unambiguously: both can be read
      back from the text. */
  lemma ReplyRoundTrip(isAI: bool, percent: int)
    ensures ReadReply(ReplyText(isAI, percent)) == Some((isAI, percent))
  {
    var d := IntToString(percent) + "%" + ReplyTail;
    var r := VerdictPhrase(isAI) + ReplyMiddle + d;
    Regroup5(ReplyHead, VerdictPhrase(isAI), ReplyMiddle, IntToString(percent) + "%", ReplyTail);
    PrefixOf(ReplyHead, r);
    ReadVerdictOf(isAI, d);
    ReadPercentOf(percent);
  }

  /** The fixed text of the reply around the negative phrase, cut at each `p`. */
  lemma NegativeReplyPieces()
    ensures ReplyHead + DoesNotAppear
         == ("According to BitMind's " + "Dee") + "p"
          + ("fake Detection Subnet, " + "the image " + "does not a") + "pp" + "ear to be"
  {
    HeadPieces();
    assert DoesNotAppear == "does not a" + "pp" + "ear to be";
    Regroup8("According to BitMind's ", "Dee", "p", "fake Detection Subnet, ", "the image ",
             "does not a", "pp", "ear to be");
  }

  lemma HeadPieces()
    ensures ReplyHead == "According to BitMind's " + "Dee" + "p" + "fake Detection Subnet, " + "the image "
  {
    assert "Deepfake Detection Subnet, " == "Dee" + "p" + "fake Detection Subnet, ";
    SplitMiddle(ReplyHead, "According to BitMind's ", "Deepfake Detection Subnet, ", "the image ",
                "Dee", "p", "fake Detection Subnet, ");
  }

  lemma NegativeReplyCuts()
    ensures Lacks("According to BitMind's " + "Dee", 'p')
    ensures Lacks("fake Detection Subnet, " + "the image " + "does not a", 'p')
    ensures Lacks("ear to be" + ReplyMiddle, 'p') && Lacks(ReplyTail, 'p')
  {
    assert Lacks("According to BitMind's ", 'p') && Lacks("Dee", 'p');
    LacksConcat("According to BitMind's ", "Dee", 'p');
    assert Lacks("fake Detection Subnet, ", 'p') && Lacks("the image ", 'p') && Lacks("does not a", 'p');
    LacksConcat("fake Detection Subnet, ", "the image ", 'p');
    LacksConcat("fake Detection Subnet, " + "the image ", "does not a", 'p');
    assert Lacks("ear to be", 'p') && Lacks(ReplyMiddle, 'p');
    LacksConcat("ear to be", ReplyMiddle, 'p');
  }

  /** Regroups the negative reply around its doubled `p`. */
  lemma RegroupAtPair(x: string, y: string, a: string, b: string, c: string, d: string)
    ensures x + "p" + y + "pp" + a + b + c + d == x + "p" + y + "pp" + (a + b + c + d)
  {
  }

  /** A negative reply nowhere reads "appears to be": its only doubled `p` is the
      one in "does not appear to be", which a space follows where the positive
      phrase continues with `s`. */
  lemma NegativeReplyLacksAppears(percent: int)
    ensures !Contains(ReplyText(false, percent), Appears)
  {
    var x := "According to BitMind's " + "Dee";
    var y := "fake Detection Subnet, " + "the image " + "does not a";
    var m := "ear to be" + ReplyMiddle;
    var digits := IntToString(percent) + "%";
    var r := m + digits + ReplyTail;
    NegativeReplyPieces();
    NegativeReplyCuts();
    RegroupAtPair(x, y, "ear to be", ReplyMiddle, digits, ReplyTail);
    assert Lacks(digits, 'p');
    LacksConcat(m, digits, 'p');
    LacksConcat(m + digits, ReplyTail, 'p');
    assert Appears[1] == 'p' && Appears[2] == 'p' && Appears[6] == 's';
    assert r[3] == "ear to be"[3] == ' ';
    AbsentAroundPair(x, y, r, Appears);
  }

  /** The reply holds the verdict phrase and the percentage followed by `%`. */
  lemma ReplyShows(isAI: bool, percent: int)
    ensures Contains(ReplyText(isAI, percent), VerdictPhrase(isAI))
    ensures Contains(ReplyText(isAI, percent), IntToString(percent) + "%")
  {
    ContainsParts5(ReplyHead, VerdictPhrase(isAI), ReplyMiddle, IntToString(percent) + "%", ReplyTail);
  }

  /** A response of `{isAI: true, confidence: 0.87}` reads "appears to be" and "87%". */
  lemma ReplyExample()
    ensures Contains(ReplyText(true, Percent(0.87)), Appears)
    ensures Contains(ReplyText(true, Percent(0.87)), "87%")
  {
    assert Percent(0.87) == 87;
    assert IntToString(87) == "87" by {
      assert NatToString(8) == "8";
    }
    assert IntToString(87) + "%" == "87%";
    ReplyShows(true, 87);
  }

  /** The message of the error the handler throws when the remote call fails: the
      `catch` block wraps whatever the `try` block threw. */
  function FailureMessage(remote: Response<Detection>): string
    requires !remote.Ok?
  {
    "Failed to detect image: "
    + (if remote.NotOk? then "BitMind API request failed: " + remote.statusText else remote.message)
  }

  /** `handler`. `callbackIsFunction` is `typeof callback === 'function'`. */
  function Handle(text: Option<string>, skipBitMindAction: bool, secret: Option<string>,
                  callbackIsFunction: bool, remote: Response<Detection>): (run: ImageRun)
    // The skip flag ends the invocation before anything else happens.
    ensures skipBitMindAction ==> run == ImageRun(None, None, Returned(None))
    // Reading `text.match(...)[0]` throws when there is no text or no URL in it.
    ensures !skipBitMindAction && (text.None? || !HasMatch(text.value)) ==> run == ImageRun(None, None, Threw(TypeError))
    // The request carries the first URL of the text and the configured secret.
    ensures run.request.Some? <==> !skipBitMindAction && text.Some? && HasMatch(text.value)
    ensures run.request.Some? ==>
      run.request.value == DetectRequest(Endpoint, Authorization(secret), FirstUrl(text.value).value)
    // A failed call throws, naming the status text, and the callback is not invoked.
    ensures run.request.Some? && !remote.Ok? ==>
      run.delivered.None? && run.outcome == Threw(Error(FailureMessage(remote)))
    // A successful call returns the result, and passes that same object to the
    // callback when there is one.
    ensures run.request.Some? && remote.Ok? ==>
      run.outcome.Returned? && run.outcome.value.Some?
      && run.delivered == (if callbackIsFunction then run.outcome.value else None)
    ensures run.request.Some? && remote.Ok? ==>
      var r := run.outcome.value.value;
      r.isAI == remote.body.isAI && r.confidence == remote.body.confidence
      && r.text == ReplyText(remote.body.isAI, Percent(remote.body.confidence))
    ensures run.delivered.Some? ==> run.outcome == Returned(run.delivered)
  {
    if skipBitMindAction then ImageRun(None, None, Returned(None))
    else if text.None? then ImageRun(None, None, Threw(TypeError))
    else match FirstUrl(text.value)
      case None => ImageRun(None, None, Threw(TypeError))
      case Some(imageUrl) =>
        var request := DetectRequest(Endpoint, Authorization(secret), imageUrl);
        match remote
        case Ok(result) =>
          var resultData := ImageResult(ReplyText(result.isAI, Percent(result.confidence)),
                                        result.isAI, result.confidence);
          ImageRun(Some(request), if callbackIsFunction then Some(resultData) else None,
                   Returned(Some(resultData)))
        case _ => ImageRun(Some(request), None, Threw(Error(FailureMessage(remote))))
  }

  /** A non-ok response's status text appears in the thrown error's message. */
  lemma FailureNamesStatus(statusText: string)
    ensures Contains(FailureMessage(NotOk(statusText)), statusText)
  {
    var m := FailureMessage(NotOk(statusText));
    assert m == "Failed to detect image: BitMind API request failed: " + statusText;
    ContainsEnd("Failed to detect image: BitMind API request failed: ", statusText);
  }

  /** After a successful call the reply text reads "appears to be" exactly when the
      service judged the image AI-generated, and "does not appear to be" otherwise. */
  lemma SuccessVerdict(text: Option<string>, secret: Option<string>, callbackIsFunction: bool, d: Detection)
    requires text.Some? && HasMatch(text.value)
    ensures var run := Handle(text, false, secret, callbackIsFunction, Ok(d));
      run.outcome.Returned? && run.outcome.value.Some?
      && (Contains(run.outcome.value.value.text, Appears) <==> d.isAI)
      && (!d.isAI ==> Contains(run.outcome.value.value.text, DoesNotAppear))
  {
    var p := Percent(d.confidence);
    ReplyShows(d.isAI, p);
    if !d.isAI {
      NegativeReplyLacksAppears(p);
    }
  }

  /** What `validate` accepted, `handler` acts on: once the gate passes, the handler
      never fails on reading the URL, and it sends the very match the gate found. */
  lemma ValidatedRequest(text: Option<string>, secret: Option<string>, callbackIsFunction: bool,
                         remote: Response<Detection>)
    requires Validate(text, secret)
    ensures var run := Handle(text, false, secret, callbackIsFunction, remote);
      run.outcome != Threw(TypeError)
      && run.request == Some(DetectRequest(Endpoint, "Bearer " + secret.value, FirstUrl(text.value).value))
  {
  }
}
