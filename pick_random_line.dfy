/**
 * The request handler of scripts/pick-random-line.js: it rewrites a request URL that
 * carries a second URL, reads the `url` and `line` query parameters, fetches the
 * document and answers with one of its lines or with an `Error! ...` text.
 */
module PickRandomLine {
  import opened Wrappers
  import opened JsString
  import opened JsNumber
  import opened LineSplit
  import opened RandomDraws
  import opened UriComponent

  // ---------------------------------------------------------------------------
  // getLineFromString
  // ---------------------------------------------------------------------------

  /** The random retry loop, when it runs, meets a draw that lands on a visible segment. */
  predicate DrawsSuffice(str: string, lineNumber: Option<Number>, draws: seq<Draw>) {
    lineNumber.None? && !IsBlank(str) ==> Reaches(Split(str), draws)
  }

  /**
   * What `getLineFromString(str, lineNumber)` returns: `null` for a blank document;
   * for a number, the segment at that 1-based position when it exists and is not the
   * empty string; for `null`, the first segment the draws land on whose `trim()` is
   * not empty.
   */
  function LineFromString(str: string, lineNumber: Option<Number>, draws: seq<Draw>): Option<string>
    requires DrawsSuffice(str, lineNumber, draws)
  {
    if Trim(str) == [] then None
    else
      TrimEmptyIffBlank(str);
      var parts := Split(str);
      match lineNumber
      case Some(n) =>
        if n.Int? && n.value >= 1 && n.value <= |parts| && parts[n.value - 1] != []
        then Some(parts[n.value - 1])
        else None
      case None => Some(RandomLine(parts, draws))
  }

  /** `getLineFromString`, with its do-while retry loop over the draws. */
  method GetLineFromString(str: string, lineNumber: Option<Number>, draws: seq<Draw>)
    returns (line: Option<string>)
    requires DrawsSuffice(str, lineNumber, draws)
    ensures line == LineFromString(str, lineNumber, draws)
  {
    if Trim(str) == [] {
      return None;
    }
    TrimEmptyIffBlank(str);
    var parts := Split(str);
    if lineNumber.Some? {
      var n := lineNumber.value;
      if n.Int? && n.value >= 1 && n.value <= |parts| && parts[n.value - 1] != [] {
        line := Some(parts[n.value - 1]);
      } else {
        line := None;
      }
    } else {
      ghost var stop := FirstHit(parts, draws);
      var k := 0;
      var idx := Pick(draws[k], |parts|);
      var picked := parts[idx];
      while Trim(picked) == []
        invariant k <= stop < |draws|
        invariant picked == parts[Pick(draws[k], |parts|)]
        decreases stop - k
      {
        TrimEmptyIffBlank(picked);
        k := k + 1;
        idx := Pick(draws[k], |parts|);
        picked := parts[idx];
      }
      TrimEmptyIffBlank(picked);
      assert k == stop;
      line := Some(picked);
    }
  }

  /** A document whose `trim()` is empty gives `null`, whatever line is asked for. */
  lemma BlankDocumentHasNoLine(str: string, lineNumber: Option<Number>, draws: seq<Draw>)
    requires IsBlank(str)
    ensures LineFromString(str, lineNumber, draws) == None
  {
    TrimEmptyIffBlank(str);
  }

  /**
   * Numbered selection: line `n` is returned exactly when `1 <= n <= |parts|` and the
   * segment is not the empty string (a segment of spaces is returned); NaN gives `null`.
   */
  lemma NumberedSelection(str: string, n: Number, draws: seq<Draw>)
    requires !IsBlank(str)
    ensures var parts := Split(str);
      LineFromString(str, Some(n), draws) ==
        if n.Int? && 1 <= n.value <= |parts| && parts[n.value - 1] != []
        then Some(parts[n.value - 1]) else None
  {
    TrimEmptyIffBlank(str);
  }

  /**
   * A segment made only of whitespace is still returned when asked for by number,
   * because the numbered branch tests the segment for emptiness, not for blankness.
   */
  lemma {:induction false} WhitespaceSegmentIsReturned(a: string, w: string, b: string, draws: seq<Draw>)
    requires NoSeparator(a) && NoSeparator(w) && NoSeparator(b)
    requires !IsBlank(a) && w != [] && IsBlank(w)
    ensures LineFromString(a + "\n" + w + "\n" + b, Some(Int(2)), draws) == Some(w)
  {
    ThreeLinesVisible(a, w, b);
    NumberedSelection(a + "\n" + w + "\n" + b, Int(2), draws);
    SplitOfThreeLines(a, w, b);
  }

  /** A visible character at the front keeps a document of three lines from being blank. */
  lemma ThreeLinesVisible(a: string, b: string, c: string)
    requires !IsBlank(a)
    ensures !IsBlank(a + "\n" + b + "\n" + c)
  {
    VisiblePrefix(a, "\n");
    VisiblePrefix(a + "\n", b);
    VisiblePrefix(a + "\n" + b, "\n");
    VisiblePrefix(a + "\n" + b + "\n", c);
  }

  lemma VisiblePrefix(a: string, t: string)
    requires !IsBlank(a)
    ensures !IsBlank(a + t)
  {
    var m :| 0 <= m < |a| && !IsWhitespace(a[m]);
    assert (a + t)[m] == a[m];
  }

  /**
   * In a document of three lines whose middle one is not empty, line 2 is the middle line, and every
   * number outside 1..3 finds nothing.
   */
  lemma {:induction false} ThreeLineScenario(a: string, b: string, c: string, n: int, draws: seq<Draw>)
    requires NoSeparator(a) && NoSeparator(b) && NoSeparator(c)
    requires !IsBlank(a) && b != []
    ensures LineFromString(a + "\n" + b + "\n" + c, Some(Int(2)), draws) == Some(b)
    ensures n < 1 || n > 3 ==> LineFromString(a + "\n" + b + "\n" + c, Some(Int(n)), draws) == None
  {
    var s := a + "\n" + b + "\n" + c;
    ThreeLinesVisible(a, b, c);
    NumberedSelection(s, Int(2), draws);
    NumberedSelection(s, Int(n), draws);
    SplitOfThreeLines(a, b, c);
  }

  /**
   * The random choice lands on a segment whose `trim()` is not empty, so the loop
   * always finds a line once the document is not blank.
   */
  lemma RandomSelection(str: string, draws: seq<Draw>)
    requires !IsBlank(str) && Reaches(Split(str), draws)
    ensures exists i ::
      0 <= i < |Split(str)| && !IsBlank(Split(str)[i]) &&
      LineFromString(str, None, draws) == Some(Split(str)[i])
  {
    TrimEmptyIffBlank(str);
    var parts := Split(str);
    var i := Pick(draws[FirstHit(parts, draws)], |parts|);
    assert LineFromString(str, None, draws) == Some(parts[i]);
  }

  /**
   * Every segment that is not blank is a possible result of the random choice, and a
   * non-blank document always has one: the admissible set is exactly its visible segments.
   */
  lemma RandomSelectionCoversVisible(str: string, i: nat)
    requires i < |Split(str)| && !IsBlank(Split(str)[i])
    ensures !IsBlank(str)
    ensures exists draws ::
      Reaches(Split(str), draws) && LineFromString(str, None, draws) == Some(Split(str)[i])
  {
    var parts := Split(str);
    VisibleSegmentInVisibleDocument(str, i);
    ReachableWhenVisible(parts, i);
    var r: Draw := (i as real) / (|parts| as real);
    TrimEmptyIffBlank(str);
    assert LineFromString(str, None, [r]) == Some(parts[i]);
  }

  /** A non-blank document has a visible segment for the random choice to land on. */
  lemma RandomChoiceExists(str: string)
    requires !IsBlank(str)
    ensures exists i :: 0 <= i < |Split(str)| && !IsBlank(Split(str)[i])
  {
    SplitKeepsVisible(str);
  }

  /**
   * What is returned is a non-empty stretch of the document, free of line breaks, with
   * a line break or an end of the document on either side: never fabricated or padded.
   */
  lemma SelectedLineIsDelimited(str: string, lineNumber: Option<Number>, draws: seq<Draw>)
    requires DrawsSuffice(str, lineNumber, draws)
    ensures var line := LineFromString(str, lineNumber, draws);
      line.Some? ==>
        && line.value != [] && NoSeparator(line.value)
        && exists p :: IsDelimitedAt(str, line.value, p)
  {
    var line := LineFromString(str, lineNumber, draws);
    if line.Some? {
      TrimEmptyIffBlank(str);
      var parts := Split(str);
      var i: nat := if lineNumber.Some? then lineNumber.value.value - 1
                    else Pick(draws[FirstHit(parts, draws)], |parts|);
      assert line.value == parts[i];
      SplitHasNoSeparator(str);
      SegmentIsDelimited(str, i);
    }
  }

  // ---------------------------------------------------------------------------
  // handleRequest: the `line` parameter
  // ---------------------------------------------------------------------------

  /**
   * The line number handed to `getLine`: `null` when `line` is absent, empty or
   * `isNaN`, and `parseInt(line)` otherwise.
   */
  function LineNumberParameter(query: map<string, string>): Option<Number> {
    if "line" !in query || query["line"] == [] || IsNaN(query["line"]) then None
    else Some(ParseInt(query["line"]))
  }

  /**
   * Absent, empty and non-numeric `line` values mean a random line; the decimal form
   * of an integer means that integer.
   */
  lemma LineParameterMapping(query: map<string, string>, i: int)
    ensures "line" !in query ==> LineNumberParameter(query) == None
    ensures "line" in query && (query["line"] == [] || IsNaN(query["line"])) ==>
      LineNumberParameter(query) == None
    ensures "line" in query && query["line"] == NumberToString(Int(i)) ==>
      LineNumberParameter(query) == Some(Int(i))
  {
    if "line" in query && query["line"] == NumberToString(Int(i)) {
      NumberToStringIsNumeric(i);
      ParseIntNumberToString(i);
    }
  }

  /**
   * A `line` of whitespace alone is numeric for `isNaN` (it converts to 0) but
   * `parseInt` finds no digits in it, so the line number is NaN.
   */
  lemma BlankLineParameterIsNaN(query: map<string, string>)
    requires "line" in query && query["line"] != [] && IsBlank(query["line"])
    ensures LineNumberParameter(query) == Some(NaN)
  {
    var s := query["line"];
    TrimEmptyIffBlank(s);
  }

  // ---------------------------------------------------------------------------
  // getLine: turning the fetched document into an answer
  // ---------------------------------------------------------------------------

  /**
   * What the one request to the remote document produced: the accumulated body, an
   * `error` event on the response (`handleRemoteResponse`), or an `error` event on the
   * request itself, each with the error's string form.
   */
  datatype Fetched = Document(data: string) | ResponseError(err: string) | RequestError(err: string)

  /** The callback `getLine` ends with: `onSuccess(line)` or `onFailure(message)`. */
  datatype Reply = Success(line: string) | Failure(message: string)

  predicate FetchDrawsSuffice(fetched: Fetched, lineNumber: Option<Number>, draws: seq<Draw>) {
    fetched.Document? ==> DrawsSuffice(fetched.data, lineNumber, draws)
  }

  /** The failure message for a line that was not found. */
  function NotFound(lineNumber: Option<Number>): Reply {
    if lineNumber.Some? then Failure("Line " + NumberToString(lineNumber.value) + " is empty or nonexistent!")
    else Failure("Could not find a non-empty line!")
  }

  /** The callback `getLine` calls once the remote request is over. */
  function Outcome(fetched: Fetched, lineNumber: Option<Number>, draws: seq<Draw>): Reply
    requires FetchDrawsSuffice(fetched, lineNumber, draws)
  {
    match fetched
    case ResponseError(err) => Failure("Connection error: " + err)
    case RequestError(err) => Failure(err)
    case Document(data) =>
      if Trim(data) == [] then Failure("Empty document!")
      else
        match LineFromString(data, lineNumber, draws)
        case Some(line) => if line != [] then Success(line) else NotFound(lineNumber)
        case None => NotFound(lineNumber)
  }

  /** `getLine` after the transfer: check the body, pick the line, call back. */
  method GetLine(fetched: Fetched, lineNumber: Option<Number>, draws: seq<Draw>) returns (reply: Reply)
    requires FetchDrawsSuffice(fetched, lineNumber, draws)
    ensures reply == Outcome(fetched, lineNumber, draws)
  {
    match fetched
    case ResponseError(err) => reply := Failure("Connection error: " + err);
    case RequestError(err) => reply := Failure(err);
    case Document(data) =>
      if Trim(data) == [] {
        reply := Failure("Empty document!");
      } else {
        var line := GetLineFromString(data, lineNumber, draws);
        if line.Some? && line.value != [] {
          reply := Success(line.value);
        } else {
          reply := NotFound(lineNumber);
        }
      }
  }

  /** A blank body fails with "Empty document!" whatever the line number. */
  lemma EmptyDocumentMessage(data: string, lineNumber: Option<Number>, draws: seq<Draw>)
    requires IsBlank(data)
    ensures Outcome(Document(data), lineNumber, draws) == Failure("Empty document!")
  {
    TrimEmptyIffBlank(data);
  }

  /**
   * With no line number the answer is always a visible segment of the document: the
   * "Could not find a non-empty line!" failure cannot happen.
   */
  lemma RandomOutcomeSucceeds(data: string, draws: seq<Draw>)
    requires !IsBlank(data) && Reaches(Split(data), draws)
    ensures Outcome(Document(data), None, draws).Success?
    ensures Outcome(Document(data), None, draws) != Failure("Could not find a non-empty line!")
    ensures exists i ::
      0 <= i < |Split(data)| && !IsBlank(Split(data)[i]) &&
      Outcome(Document(data), None, draws) == Success(Split(data)[i])
  {
    TrimEmptyIffBlank(data);
    RandomSelection(data, draws);
    var i :| 0 <= i < |Split(data)| && !IsBlank(Split(data)[i]) &&
      LineFromString(data, None, draws) == Some(Split(data)[i]);
    assert Split(data)[i] != [];
  }

  /**
   * With line number `n` the answer is that segment, unmodified, when it exists and is
   * not empty, and otherwise "Line n is empty or nonexistent!".
   */
  lemma NumberedOutcome(data: string, n: Number, draws: seq<Draw>)
    requires !IsBlank(data)
    ensures var parts := Split(data);
      Outcome(Document(data), Some(n), draws) ==
        if n.Int? && 1 <= n.value <= |parts| && parts[n.value - 1] != []
        then Success(parts[n.value - 1])
        else Failure("Line " + NumberToString(n) + " is empty or nonexistent!")
  {
    TrimEmptyIffBlank(data);
    NumberedSelection(data, n, draws);
  }

  /** A failed transfer is reported as it came. */
  lemma TransferErrorMessages(err: string, lineNumber: Option<Number>, draws: seq<Draw>)
    ensures Outcome(ResponseError(err), lineNumber, draws) == Failure("Connection error: " + err)
    ensures Outcome(RequestError(err), lineNumber, draws) == Failure(err)
  {
  }

  // ---------------------------------------------------------------------------
  // handleRequest
  // ---------------------------------------------------------------------------

  const InvalidRequest := "Invalid request! You must provide the 'url' parameter."

  /** What `handleRequest` writes for a callback: the line itself, or `"Error! " + message`. */
  function Body(reply: Reply): string {
    match reply
    case Success(line) => line
    case Failure(message) => "Error! " + message
  }

  /**
   * The effect of one request: the text written to the response, the URL handed to
   * `getLine` (`None` when it is not called), and whether the completion callback ran.
   */
  datatype Response = Response(body: string, requested: Option<string>, completed: bool)

  /** `parts.query.url` is present and truthy. */
  predicate HasUrl(query: map<string, string>) {
    "url" in query && query["url"] != []
  }

  predicate QueryDrawsSuffice(query: map<string, string>, remote: string -> Fetched, draws: seq<Draw>) {
    HasUrl(query) ==> FetchDrawsSuffice(remote(query["url"]), LineNumberParameter(query), draws)
  }

  /** The response to a request whose parsed query is `query`. */
  function Respond(query: map<string, string>, remote: string -> Fetched, draws: seq<Draw>): Response
    requires QueryDrawsSuffice(query, remote, draws)
  {
    if HasUrl(query) then
      var url := query["url"];
      Response(Body(Outcome(remote(url), LineNumberParameter(query), draws)), Some(url), true)
    else
      Response(InvalidRequest, None, false)
  }

  /**
   * `handleRequest`: rewrite the request URL, parse its query with `parseQuery`
   * (standing for `url.parse(..., true).query`), and fetch through `remote`.
   */
  method HandleRequest(requestUrl: string, parseQuery: string -> map<string, string>,
                       remote: string -> Fetched, draws: seq<Draw>) returns (response: Response)
    requires QueryDrawsSuffice(parseQuery(RewriteRequestUrl(requestUrl)), remote, draws)
    ensures response == Respond(parseQuery(RewriteRequestUrl(requestUrl)), remote, draws)
  {
    var rewritten := RewriteRequestUrl(requestUrl);
    var query := parseQuery(rewritten);
    if HasUrl(query) {
      var url := query["url"];
      var reply := GetLine(remote(url), LineNumberParameter(query), draws);
      response := Response(Body(reply), Some(url), true);
    } else {
      response := Response(InvalidRequest, None, false);
    }
  }

  /**
   * Without a truthy `url` the answer is the "Invalid request!" text, nothing is
   * fetched whatever the remote side would do, and the completion callback is not run.
   */
  lemma MissingUrlIsRejected(query: map<string, string>, remote: string -> Fetched, draws: seq<Draw>)
    requires !HasUrl(query)
    ensures Respond(query, remote, draws) == Response(InvalidRequest, None, false)
  {
  }

  /** A reply is either a failure or a segment of the fetched document. */
  lemma {:induction false} OutcomeIsSegmentOrFailure(fetched: Fetched, lineNumber: Option<Number>, draws: seq<Draw>)
    requires FetchDrawsSuffice(fetched, lineNumber, draws)
    ensures var reply := Outcome(fetched, lineNumber, draws);
      reply.Failure? ||
      (fetched.Document? && exists i :: 0 <= i < |Split(fetched.data)| && reply.line == Split(fetched.data)[i])
  {
    if fetched.Document? && !IsBlank(fetched.data) {
      var data := fetched.data;
      match lineNumber
      case None =>
        RandomOutcomeSucceeds(data, draws);
      case Some(n) =>
        NumberedOutcome(data, n, draws);
    } else if fetched.Document? {
      EmptyDocumentMessage(fetched.data, lineNumber, draws);
    }
  }

  /** A failure is written with the "Error! " prefix. */
  lemma FailureBody(message: string)
    ensures |Body(Failure(message))| >= 7 && Body(Failure(message))[..7] == "Error! "
  {
    assert ("Error! " + message)[..7] == "Error! ";
  }

  /**
   * With a `url`, exactly that URL is handed to `getLine`, and the body written is
   * either a segment of the document it yields or an "Error! " text.
   */
  lemma {:induction false} PresentUrlIsFetched(query: map<string, string>, remote: string -> Fetched, draws: seq<Draw>)
    requires HasUrl(query) && QueryDrawsSuffice(query, remote, draws)
    ensures var r := Respond(query, remote, draws); var fetched := remote(query["url"]);
      && r.requested == Some(query["url"]) && r.completed
      && ((|r.body| >= 7 && r.body[..7] == "Error! ") ||
          (fetched.Document? && exists i :: 0 <= i < |Split(fetched.data)| && r.body == Split(fetched.data)[i]))
  {
    var fetched := remote(query["url"]);
    var reply := Outcome(fetched, LineNumberParameter(query), draws);
    OutcomeIsSegmentOrFailure(fetched, LineNumberParameter(query), draws);
    if reply.Failure? {
      FailureBody(reply.message);
    } else {
      var i :| 0 <= i < |Split(fetched.data)| && reply.line == Split(fetched.data)[i];
      assert Respond(query, remote, draws).body == Split(fetched.data)[i];
    }
  }

  // ---------------------------------------------------------------------------
  // handleRequest: a URL inside the URL
  // ---------------------------------------------------------------------------

  /** The characters `.` does not match in a JavaScript regular expression. */
  predicate IsLineTerminator(c: char) {
    c == '\n' || c == '\r' || c == '\U{2028}' || c == '\U{2029}'
  }

  /**
   * `word` (written in lower case) occurs at position `p` of `u` when ASCII case is
   * ignored, as the `i` flag does.
   */
  predicate OccursIgnoringCase(u: string, p: nat, word: string) {
    p + |word| <= |u| && forall j :: 0 <= j < |word| ==> ToLowerChar(u[p + j]) == word[j]
  }

  /** `https?:\/\/` matches at position `p` of `u`. */
  predicate SchemeAt(u: string, p: nat) {
    OccursIgnoringCase(u, p, "http://") || OccursIgnoringCase(u, p, "https://")
  }

  /** The largest position `q` with `1 <= q < p` where a scheme starts. */
  function LastSchemeBefore(u: string, p: nat): (r: Option<nat>)
    requires p <= |u|
    ensures r.Some? ==> 1 <= r.value < p && SchemeAt(u, r.value)
    ensures r.Some? ==> forall q :: r.value < q < p ==> !SchemeAt(u, q)
    ensures r.None? ==> forall q :: 1 <= q < p ==> !SchemeAt(u, q)
  {
    if p <= 1 then None
    else if SchemeAt(u, p - 1) then Some(p - 1)
    else LastSchemeBefore(u, p - 1)
  }

  /**
   * Where `/^(.+)(https?:\/\/.*)$/i` splits `u`: the greedy `(.+)` backs off from the end,
   * so group 2 starts at the last scheme that has a character before it; `.` never
   * matches a line terminator, so a URL holding one does not match at all.
   */
  function UrlInUrlSplit(u: string): Option<nat> {
    if exists i :: 0 <= i < |u| && IsLineTerminator(u[i]) then None
    else LastSchemeBefore(u, |u|)
  }

  /**
   * The rewrite at the start of `handleRequest`. The global regex's `lastIndex` is 0
   * whenever `exec` runs, because `replace` resets it, so each call behaves alike.
   */
  function RewriteRequestUrl(u: string): string {
    match UrlInUrlSplit(u)
    case None => u
    case Some(p) => u[..p] + Encode(u[p..])
  }

  /** The regex matches exactly when no line terminator occurs and some scheme has a character before it. */
  lemma UrlInUrlMatches(u: string)
    ensures UrlInUrlSplit(u).Some? <==>
      (forall i :: 0 <= i < |u| ==> !IsLineTerminator(u[i])) &&
      (exists p :: 1 <= p <= |u| && SchemeAt(u, p))
  {
    if exists p :: 1 <= p <= |u| && SchemeAt(u, p) {
      var p :| 1 <= p <= |u| && SchemeAt(u, p);
      assert p < |u|;
    }
  }

  /** Characters that delimit the parts of a URL or start a replacement pattern. */
  predicate IsUrlSyntax(c: char) {
    c == ':' || c == '/' || c == '?' || c == '&' || c == '=' || c == '#' || c == '$'
  }

  /** An encoded text holds no URL syntax. */
  lemma EncodedHasNoSyntax(t: string)
    ensures forall i :: 0 <= i < |Encode(t)| ==> !IsUrlSyntax(Encode(t)[i])
  {
    EncodeAlphabet(t);
  }

  /** Appending an encoded text keeps the prefix, decodes back, and adds no URL syntax. */
  lemma {:induction false} EncodedTail(a: string, t: string, r: string)
    requires r == a + Encode(t)
    ensures r[..|a|] == a
    ensures Decode(r[|a|..]) == Some(t)
    ensures forall i :: |a| <= i < |r| ==> !IsUrlSyntax(r[i])
  {
    var e := Encode(t);
    assert r[|a|..] == e;
    DecodeEncode(t);
    EncodedHasNoSyntax(t);
    forall i | |a| <= i < |r| ensures !IsUrlSyntax(r[i]) {
      assert r[i] == e[i - |a|];
    }
  }

  /**
   * When the regex matches at `p`: everything before the last embedded scheme is kept
   * as it was, the rest becomes its `encodeURIComponent`, which decodes back to it and
   * holds none of `:`, `/`, `?`, `&`, `=`, `#` or `$`, so the embedded URL brings no
   * query delimiters of its own and the `$1` replacement pattern stays literal.
   */
  lemma {:induction false} RewriteEncodesSuffix(u: string, p: nat)
    requires UrlInUrlSplit(u) == Some(p)
    ensures 1 <= p < |u| && SchemeAt(u, p)
    ensures forall q :: p < q < |u| ==> !SchemeAt(u, q)
    ensures var r := RewriteRequestUrl(u);
      && p <= |r| && r[..p] == u[..p]
      && Decode(r[p..]) == Some(u[p..])
      && forall i :: p <= i < |r| ==> !IsUrlSyntax(r[i])
  {
    EncodedTail(u[..p], u[p..], RewriteRequestUrl(u));
  }

  /** A request URL the regex does not match is used as it is. */
  lemma RewriteWithoutMatch(u: string)
    requires UrlInUrlSplit(u).None?
    ensures RewriteRequestUrl(u) == u
  {
  }
}
