/**
 * The line picker of lib/scripts/pick-random-line.js: a second version of the
 * selection logic with a numbered lookup, a random pick and a text search, and its
 * own parameter check. A thrown `Error` is an `Err` carrying its message; `null` and
 * `undefined` results are `Ok(None)`.
 */
module LibPickRandomLine {
  import opened Wrappers
  import opened JsString
  import opened JsNumber
  import opened LineSplit
  import opened RandomDraws

  const EmptyDocument := "The remote document is empty!"
  const MissingUrl := "The 'url' parameter is missing!"

  /** The text of `Could not find a line containing "<query>"!`. */
  function NoLineContaining(query: string): string {
    "Could not find a line containing \"" + query + "\"!"
  }

  // ---------------------------------------------------------------------------
  // getNumberedLineFromString
  // ---------------------------------------------------------------------------

  /** The random retry loop, when it runs, meets a draw that lands on a visible segment. */
  predicate NumberedDrawsSuffice(str: string, lineNumber: Option<Number>, draws: seq<Draw>) {
    lineNumber.None? ==> Reaches(Split(str), draws)
  }

  /**
   * What `getNumberedLineFromString(str, lineNumber)` gives: for a number, the segment
   * at that 1-based position when it is truthy and `null` otherwise; for `null`, the
   * first segment the draws land on whose `trim()` is not empty. The throw for an
   * empty line is kept where the source has it, and the contract shows it never fires.
   */
  function NumberedLine(str: string, lineNumber: Option<Number>, draws: seq<Draw>): (r: Result<Option<string>>)
    requires NumberedDrawsSuffice(str, lineNumber, draws)
    ensures r.Ok?
    ensures r.value.Some? ==> r.value.value != []
  {
    var parts := Split(str);
    match lineNumber
    case Some(n) =>
      if n.Int? && n.value >= 1 && n.value <= |parts| && parts[n.value - 1] != [] then
        var line := parts[n.value - 1];
        if line == [] then Err("Line " + NumberToString(n) + " does not exist!")
        else Ok(Some(line))
      else Ok(None)
    case None =>
      var line := RandomLine(parts, draws);
      TrimEmptyIffBlank(line);
      Ok(Some(line))
  }

  /** `getNumberedLineFromString`, with its do-while retry loop over the draws. */
  method GetNumberedLineFromString(str: string, lineNumber: Option<Number>, draws: seq<Draw>)
    returns (r: Result<Option<string>>)
    requires NumberedDrawsSuffice(str, lineNumber, draws)
    ensures r == NumberedLine(str, lineNumber, draws)
  {
    var parts := Split(str);
    if lineNumber.Some? {
      var n := lineNumber.value;
      r := Ok(None);
      if n.Int? && n.value >= 1 && n.value <= |parts| && parts[n.value - 1] != [] {
        var line := parts[n.value - 1];
        if line == [] {
          r := Err("Line " + NumberToString(n) + " does not exist!");
        } else {
          r := Ok(Some(line));
        }
      }
    } else {
      ghost var stop := FirstHit(parts, draws);
      var k := 0;
      var idx := Pick(draws[k], |parts|);
      var picked := parts[idx];
      while Trim(picked) == []
        invariant k <= stop < |draws|
        invariant picked == parts[Pick(draws[k], |parts|)]
        decreases stop - k
      {
        TrimEmptyIffBlank(picked);
        k := k + 1;
        idx := Pick(draws[k], |parts|);
        picked := parts[idx];
      }
      TrimEmptyIffBlank(picked);
      assert k == stop;
      r := Ok(Some(picked));
    }
  }

  /**
   * The function has no blank check of its own: on a blank document no draw lands on
   * a visible segment, so for `null` the retry loop would never stop. The precondition
   * excludes exactly that input; the one caller checks for a blank document first and
   * never passes `null`.
   */
  lemma BlankDocumentLoopNeverStops(str: string, draws: seq<Draw>)
    requires IsBlank(str)
    ensures !NumberedDrawsSuffice(str, None, draws)
  {
    var parts := Split(str);
    if Reaches(parts, draws) {
      var k :| 0 <= k < |draws| && Hits(parts, draws[k]);
      VisibleSegmentInVisibleDocument(str, Pick(draws[k], |parts|));
    }
  }

  /**
   * A number picks exactly segment `n` when `1 <= n <= |parts|` and it is not empty,
   * and `null` otherwise; nothing is thrown.
   */
  lemma NumberedSelection(str: string, n: Number, draws: seq<Draw>)
    ensures var parts := Split(str);
      NumberedLine(str, Some(n), draws) ==
        if n.Int? && 1 <= n.value <= |parts| && parts[n.value - 1] != []
        then Ok(Some(parts[n.value - 1])) else Ok(None)
  {
  }

  /** For `null` the loop ends on a visible segment. */
  lemma RandomSelection(str: string, draws: seq<Draw>)
    requires Reaches(Split(str), draws)
    ensures exists i ::
      0 <= i < |Split(str)| && !IsBlank(Split(str)[i]) &&
      NumberedLine(str, None, draws) == Ok(Some(Split(str)[i]))
  {
    var parts := Split(str);
    var i := Pick(draws[FirstHit(parts, draws)], |parts|);
    assert NumberedLine(str, None, draws) == Ok(Some(parts[i]));
  }

  // ---------------------------------------------------------------------------
  // searchLineInString
  // ---------------------------------------------------------------------------

  /** `line.toLowerCase().indexOf(query) >= 0`. */
  predicate LineMatches(line: string, query: string) {
    IndexOf(ToLower(line), query) >= 0
  }

  /** The segments that match `query`, in their order. */
  function MatchingLines(parts: seq<string>, query: string): (m: seq<string>)
    ensures |m| <= |parts|
  {
    if parts == [] then []
    else
      var last := parts[|parts| - 1];
      MatchingLines(parts[..|parts| - 1], query) + (if LineMatches(last, query) then [last] else [])
  }

  /**
   * What `searchLineInString(str, query)` gives: it throws when some segment matches,
   * and otherwise reads the empty `matchingLines` at `floor(Math.random() * 0)`, which
   * is `undefined` whatever the draw.
   */
  function Search(str: string, query: string): Result<Option<string>> {
    var matching := MatchingLines(Split(str), query);
    if |matching| != 0 then Err(NoLineContaining(query))
    else Ok(None)
  }

  /** `searchLineInString`, with its `for` loop filling `matchingLines`. */
  method SearchLineInString(str: string, query: string) returns (result: Result<Option<string>>)
    ensures result == Search(str, query)
  {
    var parts := Split(str);
    var matching: seq<string> := [];
    for i := 0 to |parts|
      invariant matching == MatchingLines(parts[..i], query)
    {
      var line := parts[i];
      assert parts[..i + 1][..i] == parts[..i];
      if IndexOf(ToLower(line), query) >= 0 {
        matching := matching + [line];
      }
    }
    assert parts[..|parts|] == parts;
    if |matching| != 0 {
      result := Err(NoLineContaining(query));
    } else {
      result := Ok(None);
    }
  }

  /** Filtering distributes over concatenation, so the order of the segments is kept. */
  lemma {:induction false} MatchingLinesAppend(a: seq<string>, b: seq<string>, query: string)
    ensures MatchingLines(a + b, query) == MatchingLines(a, query) + MatchingLines(b, query)
    decreases |b|
  {
    if b == [] {
      assert a + b == a;
    } else {
      var b' := b[..|b| - 1];
      var last := b[|b| - 1];
      assert (a + b)[..|a + b| - 1] == a + b';
      MatchingLinesAppend(a, b', query);
    }
  }

  /** A single segment is kept exactly when it matches. */
  lemma MatchingLinesSingle(line: string, query: string)
    ensures MatchingLines([line], query) == if LineMatches(line, query) then [line] else []
  {
    assert [line][..0] == [];
  }

  /** A line is among the matching lines exactly when it is a segment that matches. */
  lemma {:induction false} MatchingLinesMembers(parts: seq<string>, query: string, x: string)
    ensures x in MatchingLines(parts, query) <==> x in parts && LineMatches(x, query)
    decreases |parts|
  {
    if parts != [] {
      var init := parts[..|parts| - 1];
      MatchingLinesMembers(init, query, x);
      assert parts == init + [parts[|parts| - 1]];
    }
  }

  /** No line matches exactly when no segment does. */
  lemma {:induction false} MatchingLinesEmpty(parts: seq<string>, query: string)
    ensures MatchingLines(parts, query) == [] <==> forall i :: 0 <= i < |parts| ==> !LineMatches(parts[i], query)
  {
    if MatchingLines(parts, query) == [] {
      forall i | 0 <= i < |parts| ensures !LineMatches(parts[i], query) {
        MatchingLinesMembers(parts, query, parts[i]);
      }
    } else {
      var x := MatchingLines(parts, query)[0];
      MatchingLinesMembers(parts, query, x);
    }
  }

  /**
   * The search throws exactly when some segment matches, with the query in the
   * message; it never yields a line, whatever `Math.random()` returns.
   */
  lemma SearchThrowsIffMatch(str: string, query: string)
    ensures Search(str, query).Err? <==>
      exists i :: 0 <= i < |Split(str)| && LineMatches(Split(str)[i], query)
    ensures Search(str, query).Err? ==> Search(str, query).message == NoLineContaining(query)
    ensures Search(str, query).Ok? ==> Search(str, query).value == None
  {
    var parts := Split(str);
    MatchingLinesEmpty(parts, query);
    var matching := MatchingLines(parts, query);
    if |matching| != 0 {
      MatchingLinesMembers(parts, query, matching[0]);
      var i :| 0 <= i < |parts| && parts[i] == matching[0];
      assert LineMatches(Split(str)[i], query);
      assert exists j :: 0 <= j < |Split(str)| && LineMatches(Split(str)[j], query);
    } else {
      assert !exists j :: 0 <= j < |Split(str)| && LineMatches(Split(str)[j], query);
    }
  }

  /** Lower-casing leaves no ASCII capital, so a query holding one matches no line. */
  lemma CapitalQueryNeverMatches(line: string, query: string, k: nat)
    requires k < |query| && 'A' <= query[k] <= 'Z'
    ensures !LineMatches(line, query)
  {
    var low := ToLower(line);
    var j := IndexOf(low, query);
    if j >= 0 {
      assert low[j..j + |query|][k] == query[k];
      ToLowerHasNoCapital(line, j + k);
    }
  }

  /** So a search for a query with a capital letter never throws, and never yields a line. */
  lemma CapitalQueryYieldsNothing(str: string, query: string, k: nat)
    requires k < |query| && 'A' <= query[k] <= 'Z'
    ensures Search(str, query) == Ok(None)
  {
    var parts := Split(str);
    forall i | 0 <= i < |parts| ensures !LineMatches(parts[i], query) {
      CapitalQueryNeverMatches(parts[i], query, k);
    }
    SearchThrowsIffMatch(str, query);
  }

  /** "an" occurs in "Banana", and searching the document "Banana" for it throws. */
  lemma SearchForPresentTextThrows()
    ensures Search("Banana", "an") == Err("Could not find a line containing \"an\"!")
  {
    LowerBanana();
    assert OccursAt("banana", "an", 1);
    MatchesWhereOccurs("Banana", "an", 1);
    SingleLineSearch("Banana", "an");
  }

  lemma LowerBanana()
    ensures NoSeparator("Banana") && ToLower("Banana") == "banana"
  {
  }

  /** A line matches wherever the query occurs in its lowercased text. */
  lemma MatchesWhereOccurs(line: string, query: string, j: int)
    requires OccursAt(ToLower(line), query, j)
    ensures LineMatches(line, query)
  {
  }

  /** A document of one line throws exactly when that line matches. */
  lemma SingleLineSearch(line: string, query: string)
    requires NoSeparator(line)
    ensures Search(line, query) == if LineMatches(line, query) then Err(NoLineContaining(query)) else Ok(None)
  {
    SplitOfSegment(line);
    MatchingLinesSingle(line, query);
  }

  // ---------------------------------------------------------------------------
  // The search as it was evidently meant to work
  // ---------------------------------------------------------------------------

  /**
   * Lower-case the query as well as the line, fail only when nothing matches, and
   * otherwise pick one matching line at `floor(r * count)`.
   */
  function IntendedSearch(str: string, query: string, r: Draw): Result<string> {
    var q := ToLower(query);
    var matching := MatchingLines(Split(str), q);
    if |matching| == 0 then Err(NoLineContaining(query))
    else Ok(matching[Pick(r, |matching|)])
  }

  /** `toLowerCase` is idempotent. */
  lemma ToLowerIdempotent(s: string)
    ensures ToLower(ToLower(s)) == ToLower(s)
  {
    var t := ToLower(s);
    assert forall i :: 0 <= i < |s| ==> ToLower(t)[i] == t[i];
  }

  /**
   * The intended search fails exactly when no segment contains the query, ignoring
   * ASCII case; otherwise it yields such a segment.
   */
  lemma IntendedSearchFindsContainingLine(str: string, query: string, r: Draw)
    ensures IntendedSearch(str, query, r).Err? <==>
      forall i :: 0 <= i < |Split(str)| ==> !LineMatches(Split(str)[i], ToLower(query))
    ensures IntendedSearch(str, query, r).Ok? ==>
      IntendedSearch(str, query, r).value in Split(str) &&
      LineMatches(IntendedSearch(str, query, r).value, ToLower(query))
  {
    var parts := Split(str);
    var q := ToLower(query);
    MatchingLinesEmpty(parts, q);
    var matching := MatchingLines(parts, q);
    if |matching| != 0 {
      MatchingLinesMembers(parts, q, matching[Pick(r, |matching|)]);
      MatchingLinesMembers(parts, q, matching[0]);
      var i :| 0 <= i < |parts| && parts[i] == matching[0];
      assert LineMatches(parts[i], q);
    }
  }

  /** The intended search does not depend on the case of the query. */
  lemma IntendedSearchIgnoresQueryCase(str: string, query: string, r: Draw)
    ensures IntendedSearch(str, query, r).Ok? <==> IntendedSearch(str, ToLower(query), r).Ok?
    ensures IntendedSearch(str, query, r).Ok? ==>
      IntendedSearch(str, query, r) == IntendedSearch(str, ToLower(query), r)
  {
    ToLowerIdempotent(query);
  }

  /** Where the code as written finds nothing, the intended search finds the line "Banana". */
  lemma IntendedSearchFindsCapitalQuery(r: Draw)
    ensures Search("Banana", "Banana") == Ok(None)
    ensures IntendedSearch("Banana", "Banana", r) == Ok("Banana")
  {
    CapitalQueryYieldsNothing("Banana", "Banana", 0);
    LowerBanana();
    assert OccursAt("banana", "banana", 0);
    MatchesWhereOccurs("Banana", "banana", 0);
    SplitOfSegment("Banana");
    MatchingLinesSingle("Banana", "banana");
  }

  // ---------------------------------------------------------------------------
  // getLineFromString
  // ---------------------------------------------------------------------------

  /**
   * What `getLineFromString(str, line)` gives: a blank document throws; a `line` that `isNaN` rejects (and an
   * absent one, which `indexOf` reads as "undefined") is searched for; any other goes
   * to numbered selection with its `parseInt` value.
   */
  function LineFromString(str: string, line: Option<string>): Result<Option<string>> {
    if Trim(str) == [] then Err(EmptyDocument)
    else
      match line
      case None => Search(str, "undefined")
      case Some(text) =>
        if IsNaN(text) then Search(str, text)
        else NumberedLine(str, Some(ParseInt(text)), [])
  }

  /** `getLineFromString`. */
  method GetLineFromString(str: string, line: Option<string>) returns (result: Result<Option<string>>)
    ensures result == LineFromString(str, line)
  {
    if Trim(str) == [] {
      return Err(EmptyDocument);
    }
    if line.None? {
      result := SearchLineInString(str, "undefined");
    } else if IsNaN(line.value) {
      result := SearchLineInString(str, line.value);
    } else {
      result := GetNumberedLineFromString(str, Some(ParseInt(line.value)), []);
    }
  }

  /** A blank document throws "The remote document is empty!", whatever `line` is. */
  lemma BlankDocumentThrows(str: string, line: Option<string>)
    requires IsBlank(str)
    ensures LineFromString(str, line) == Err(EmptyDocument)
  {
    TrimEmptyIffBlank(str);
  }

  /**
   * For a document that is not blank, a numeric `line` goes to numbered selection and
   * never throws, and every other `line` goes to the search. Numbered selection is
   * always handed `Some(parseInt(line))`, a number or NaN, so its random branch is
   * never reached from here.
   */
  lemma Dispatch(str: string, text: string)
    requires !IsBlank(str)
    ensures IsNaN(text) ==> LineFromString(str, Some(text)) == Search(str, text)
    ensures !IsNaN(text) ==> LineFromString(str, Some(text)) == NumberedLine(str, Some(ParseInt(text)), [])
    ensures LineFromString(str, None) == Search(str, "undefined")
  {
    TrimEmptyIffBlank(str);
  }

  /** A search never yields a line: it throws or gives `undefined`. */
  lemma SearchYieldsNoLine(str: string, query: string)
    ensures Search(str, query) == Err(NoLineContaining(query)) || Search(str, query) == Ok(None)
  {
  }

  /**
   * Every `line` that goes to the search, an absent one included, yields no line:
   * the result is a thrown error or `undefined`.
   */
  lemma SearchedLinesYieldNothing(str: string, line: Option<string>)
    requires line.None? || IsNaN(line.value)
    ensures LineFromString(str, line).Err? || LineFromString(str, line) == Ok(None)
  {
    if line.None? {
      SearchYieldsNoLine(str, "undefined");
    } else {
      SearchYieldsNoLine(str, line.value);
    }
  }

  /**
   * So every line that comes out comes from numbered selection with the `parseInt`
   * value of `line`: by `NumberedLineShape` it is the segment at that number.
   */
  lemma OnlyNumberedLinesComeOut(str: string, text: string)
    requires LineFromString(str, Some(text)).Ok? && LineFromString(str, Some(text)).value.Some?
    ensures !IsNaN(text) && !IsBlank(str)
    ensures LineFromString(str, Some(text)) == NumberedLine(str, Some(ParseInt(text)), [])
  {
    TrimEmptyIffBlank(str);
    if IsNaN(text) {
      SearchedLinesYieldNothing(str, Some(text));
    } else {
      NumericLineDispatch(str, text);
    }
  }

  lemma NumericLineDispatch(str: string, text: string)
    requires !IsNaN(text) && Trim(str) != []
    ensures LineFromString(str, Some(text)) == NumberedLine(str, Some(ParseInt(text)), [])
  {
  }

  /** A line from numbered selection is the segment at that number. */
  lemma NumberedLineShape(str: string, n: Number)
    requires NumberedLine(str, Some(n), []).value.Some?
    ensures n.Int? && 1 <= n.value <= |Split(str)|
    ensures NumberedLine(str, Some(n), []) == Ok(Some(Split(str)[n.value - 1]))
  {
    NumberedSelection(str, n, []);
  }

  /**
   * `getLineFromString` with the corrected search in place of `searchLineInString`:
   * the same dispatch, with `r` the draw the search would use.
   */
  function IntendedLineFromString(str: string, line: Option<string>, r: Draw): Result<Option<string>> {
    if Trim(str) == [] then Err(EmptyDocument)
    else
      var query := if line.None? then "undefined" else line.value;
      if line.None? || IsNaN(query) then Found(IntendedSearch(str, query, r))
      else NumberedLine(str, Some(ParseInt(query)), [])
  }

  /** A search result as `getLineFromString` hands it on. */
  function Found(result: Result<string>): Result<Option<string>> {
    match result
    case Err(message) => Err(message)
    case Ok(line) => Ok(Some(line))
  }

  lemma IntendedSearchDispatch(str: string, text: string, r: Draw)
    requires Trim(str) != [] && IsNaN(text)
    ensures IntendedLineFromString(str, Some(text), r) == Found(IntendedSearch(str, text, r))
  {
  }

  /** The correction changes only the searched lines: numeric ones and blank documents are answered alike. */
  lemma IntendedLineFromStringKeepsNumbers(str: string, line: Option<string>, r: Draw)
    requires IsBlank(str) || (line.Some? && !IsNaN(line.value))
    ensures IntendedLineFromString(str, line, r) == LineFromString(str, line)
  {
    TrimEmptyIffBlank(str);
  }

  /**
   * With the correction a searched `line` of a non-blank document yields a segment
   * containing it, ignoring case, and fails only when there is none.
   */
  lemma IntendedLineFromStringFinds(str: string, text: string, r: Draw)
    requires !IsBlank(str) && IsNaN(text)
    ensures IntendedLineFromString(str, Some(text), r).Err? <==>
      forall i :: 0 <= i < |Split(str)| ==> !LineMatches(Split(str)[i], ToLower(text))
    ensures IntendedLineFromString(str, Some(text), r).Ok? ==>
      var found := IntendedLineFromString(str, Some(text), r).value;
      found.Some? && found.value in Split(str) && LineMatches(found.value, ToLower(text))
  {
    TrimEmptyIffBlank(str);
    IntendedSearchDispatch(str, text, r);
    IntendedSearchFindsContainingLine(str, text, r);
  }

  // ---------------------------------------------------------------------------
  // handleRequest: checking the parameters
  // ---------------------------------------------------------------------------

  /** The `params` object with the two fields the handler reads. */
  datatype Params = Params(url: Option<string>, line: Option<string>)

  /**
   * The check at the head of `handleRequest`: a missing `params`, a missing or empty
   * `url` and a `url` whose `trim()` is empty are rejected; otherwise `getLine` is
   * called with the `url` and `line` returned here.
   */
  function ValidateParams(params: Option<Params>): (r: Result<(string, Option<string>)>)
    ensures r.Err? <==> params.None? || params.value.url.None? || IsBlank(params.value.url.value)
    ensures r.Err? ==> r.message == MissingUrl
    ensures r.Ok? ==> r.value == (params.value.url.value, params.value.line)
  {
    if params.None? || params.value.url.None? || params.value.url.value == [] then Err(MissingUrl)
    else
      var url := params.value.url.value;
      TrimEmptyIffBlank(url);
      if Trim(url) == [] then Err(MissingUrl) else Ok((url, params.value.line))
  }
}
