/**
 * `str.split(/[\n\r]+/g)`: cutting a document into segments at every maximal run
 * of line-feed and carriage-return characters.
 */
module LineSplit {
  import opened JsString

  /** The characters of the class `[\n\r]`. */
  predicate IsSeparator(c: char) {
    c == '\n' || c == '\r'
  }

  predicate NoSeparator(s: string) {
    forall j :: 0 <= j < |s| ==> !IsSeparator(s[j])
  }

  predicate AllSeparators(s: string) {
    forall j :: 0 <= j < |s| ==> IsSeparator(s[j])
  }

  /** Where the first match of `[\n\r]+` at or after `i` starts (`|s|` when there is none). */
  function SegmentEnd(s: string, i: nat): (k: nat)
    requires i <= |s|
    ensures i <= k <= |s|
    ensures k < |s| ==> IsSeparator(s[k])
    decreases |s| - i
  {
    if i == |s| || IsSeparator(s[i]) then i else SegmentEnd(s, i + 1)
  }

  /** Where the greedy match of `[\n\r]+` that starts at `i` ends. */
  function RunEnd(s: string, i: nat): (k: nat)
    requires i <= |s|
    ensures i <= k <= |s|
    ensures k < |s| ==> !IsSeparator(s[k])
    ensures i < |s| && IsSeparator(s[i]) ==> i < k
    decreases |s| - i
  {
    if i < |s| && IsSeparator(s[i]) then RunEnd(s, i + 1) else i
  }

  /** A segment holds no separator. */
  lemma {:induction false} SegmentEndClear(s: string, i: nat)
    requires i <= |s|
    ensures forall j :: i <= j < SegmentEnd(s, i) ==> !IsSeparator(s[j])
    decreases |s| - i
  {
    if i < |s| && !IsSeparator(s[i]) {
      SegmentEndClear(s, i + 1);
    }
  }

  /** A run holds only separators. */
  lemma {:induction false} RunEndFull(s: string, i: nat)
    requires i <= |s|
    ensures forall j :: i <= j < RunEnd(s, i) ==> IsSeparator(s[j])
    decreases |s| - i
  {
    if i < |s| && IsSeparator(s[i]) {
      RunEndFull(s, i + 1);
    }
  }

  /** A stretch free of separators that ends at one (or at the end) is the segment. */
  lemma {:induction false} SegmentEndAt(s: string, i: nat, k: nat)
    requires i <= k <= |s|
    requires forall j :: i <= j < k ==> !IsSeparator(s[j])
    requires k == |s| || IsSeparator(s[k])
    ensures SegmentEnd(s, i) == k
    decreases k - i
  {
    if i < k {
      SegmentEndAt(s, i + 1, k);
    }
  }

  /** The segments of `s[i..]`, in order. */
  function SplitFrom(s: string, i: nat): (parts: seq<string>)
    requires i <= |s|
    ensures |parts| >= 1
    decreases |s| - i
  {
    var k := SegmentEnd(s, i);
    if k == |s| then [s[i..]]
    else [s[i..k]] + SplitFrom(s, RunEnd(s, k))
  }

  /** The separator runs that `SplitFrom` cuts at, in order. */
  function SeparatorsFrom(s: string, i: nat): (runs: seq<string>)
    requires i <= |s|
    decreases |s| - i
  {
    var k := SegmentEnd(s, i);
    if k == |s| then []
    else [s[k..RunEnd(s, k)]] + SeparatorsFrom(s, RunEnd(s, k))
  }

  /** The segments of `s`, in order. */
  function Split(s: string): (parts: seq<string>)
    ensures |parts| >= 1
  {
    SplitFrom(s, 0)
  }

  /** The separator runs that `Split` cuts at, in order. */
  function Separators(s: string): seq<string> {
    SeparatorsFrom(s, 0)
  }

  /** Glue segments back together with the separator runs between them. */
  function Join(parts: seq<string>, runs: seq<string>): string
    requires |parts| == |runs| + 1
  {
    if runs == [] then parts[0] else parts[0] + runs[0] + Join(parts[1..], runs[1..])
  }

  // ---------------------------------------------------------------------------
  // Splitting loses nothing
  // ---------------------------------------------------------------------------

  lemma {:induction false} SplitCountFrom(s: string, i: nat)
    requires i <= |s|
    ensures |SplitFrom(s, i)| == |SeparatorsFrom(s, i)| + 1
    decreases |s| - i
  {
    var k := SegmentEnd(s, i);
    if k < |s| {
      SplitCountFrom(s, RunEnd(s, k));
    }
  }

  lemma {:induction false} SplitJoinFrom(s: string, i: nat)
    requires i <= |s|
    ensures |SplitFrom(s, i)| == |SeparatorsFrom(s, i)| + 1
    ensures Join(SplitFrom(s, i), SeparatorsFrom(s, i)) == s[i..]
    decreases |s| - i
  {
    SplitCountFrom(s, i);
    var k := SegmentEnd(s, i);
    if k < |s| {
      var m := RunEnd(s, k);
      SplitJoinFrom(s, m);
      JoinCons(s[i..k], SplitFrom(s, m), s[k..m], SeparatorsFrom(s, m));
      SlicesConcat(s, i, k, m);
    }
  }

  lemma JoinCons(part: string, parts: seq<string>, run: string, runs: seq<string>)
    requires |parts| == |runs| + 1
    ensures Join([part] + parts, [run] + runs) == part + run + Join(parts, runs)
  {
    assert ([part] + parts)[1..] == parts;
    assert ([run] + runs)[1..] == runs;
  }

  lemma SlicesConcat(s: string, i: nat, k: nat, m: nat)
    requires i <= k <= m <= |s|
    ensures s[i..k] + s[k..m] + s[m..] == s[i..]
  {
    assert s[i..k] + s[k..m] == s[i..m];
  }

  /**
   * The document is its segments interleaved with the separator runs, one run
   * between each two neighbouring segments.
   */
  lemma SplitJoin(s: string)
    ensures |Split(s)| == |Separators(s)| + 1
    ensures Join(Split(s), Separators(s)) == s
  {
    SplitJoinFrom(s, 0);
  }

  lemma {:induction false} SeparatorsAreRunsFrom(s: string, i: nat)
    requires i <= |s|
    ensures forall r :: 0 <= r < |SeparatorsFrom(s, i)| ==>
      SeparatorsFrom(s, i)[r] != [] && AllSeparators(SeparatorsFrom(s, i)[r])
    decreases |s| - i
  {
    var k := SegmentEnd(s, i);
    if k < |s| {
      var m := RunEnd(s, k);
      RunEndFull(s, k);
      SeparatorsAreRunsFrom(s, m);
      var run := s[k..m];
      assert forall j :: 0 <= j < |run| ==> run[j] == s[k + j];
      assert SeparatorsFrom(s, i) == [run] + SeparatorsFrom(s, m);
    }
  }

  /** Each separator run is a non-empty stretch of `\n` and `\r`. */
  lemma SeparatorsAreRuns(s: string)
    ensures forall r :: 0 <= r < |Separators(s)| ==>
      Separators(s)[r] != [] && AllSeparators(Separators(s)[r])
  {
    SeparatorsAreRunsFrom(s, 0);
  }

  // ---------------------------------------------------------------------------
  // The shape of the segments
  // ---------------------------------------------------------------------------

  lemma {:induction false} SplitHasNoSeparatorFrom(s: string, i: nat)
    requires i <= |s|
    ensures forall p :: 0 <= p < |SplitFrom(s, i)| ==> NoSeparator(SplitFrom(s, i)[p])
    decreases |s| - i
  {
    var k := SegmentEnd(s, i);
    SegmentEndClear(s, i);
    var first := s[i..k];
    assert forall j :: 0 <= j < |first| ==> first[j] == s[i + j];
    if k < |s| {
      var m := RunEnd(s, k);
      SplitHasNoSeparatorFrom(s, m);
      assert SplitFrom(s, i) == [first] + SplitFrom(s, m);
    }
  }

  /** No segment holds a `\n` or `\r`. */
  lemma SplitHasNoSeparator(s: string)
    ensures forall p :: 0 <= p < |Split(s)| ==> NoSeparator(Split(s)[p])
  {
    SplitHasNoSeparatorFrom(s, 0);
  }

  lemma {:induction false} SplitInnerNonEmptyFrom(s: string, i: nat)
    requires i <= |s|
    ensures forall p :: 0 < p < |SplitFrom(s, i)| - 1 ==> SplitFrom(s, i)[p] != []
    decreases |s| - i
  {
    var k := SegmentEnd(s, i);
    if k < |s| {
      var m := RunEnd(s, k);
      var rest := SplitFrom(s, m);
      SplitInnerNonEmptyFrom(s, m);
      assert SplitFrom(s, i) == [s[i..k]] + rest;
      if |rest| > 1 {
        assert SegmentEnd(s, m) < |s|;
        assert SegmentEnd(s, m) > m;
        assert rest[0] == s[m..SegmentEnd(s, m)];
      }
    }
  }

  /** After a greedy run the next segment is non-empty unless the document ended there. */
  lemma SplitInnerNonEmpty(s: string)
    ensures forall p :: 0 < p < |Split(s)| - 1 ==> Split(s)[p] != []
  {
    SplitInnerNonEmptyFrom(s, 0);
  }

  lemma {:induction false} SplitLastFrom(s: string, i: nat)
    requires i <= |s|
    ensures var parts := SplitFrom(s, i);
      parts[|parts| - 1] == [] <==> (i == |s| || IsSeparator(s[|s| - 1]))
    decreases |s| - i
  {
    var k := SegmentEnd(s, i);
    if k < |s| {
      var m := RunEnd(s, k);
      RunEndFull(s, k);
      SplitLastFrom(s, m);
      var rest := SplitFrom(s, m);
      assert SplitFrom(s, i)[|SplitFrom(s, i)| - 1] == rest[|rest| - 1];
    } else {
      SegmentEndClear(s, i);
    }
  }

  /**
   * The first segment is empty exactly when the document is empty or starts with a
   * separator, and the last exactly when it is empty or ends with one.
   */
  lemma SplitEnds(s: string)
    ensures Split(s)[0] == [] <==> (s == [] || IsSeparator(s[0]))
    ensures Split(s)[|Split(s)| - 1] == [] <==> (s == [] || IsSeparator(s[|s| - 1]))
  {
    SplitLastFrom(s, 0);
  }

  lemma {:induction false} SplitKeepsVisibleFrom(s: string, i: nat, j: nat)
    requires i <= j < |s| && !IsWhitespace(s[j])
    ensures exists p :: 0 <= p < |SplitFrom(s, i)| && !IsBlank(SplitFrom(s, i)[p])
    decreases |s| - i
  {
    var k := SegmentEnd(s, i);
    if j < k {
      assert SplitFrom(s, i)[0] == s[i..k];
      assert s[i..k][j - i] == s[j];
    } else {
      var m := RunEnd(s, k);
      RunEndFull(s, k);
      assert j >= m;
      SplitKeepsVisibleFrom(s, m, j);
      var p :| 0 <= p < |SplitFrom(s, m)| && !IsBlank(SplitFrom(s, m)[p]);
      assert SplitFrom(s, i)[p + 1] == SplitFrom(s, m)[p];
    }
  }

  /**
   * A document that is not blank has a segment that is not blank: the separators
   * are themselves whitespace, so a visible character survives the split.
   */
  lemma SplitKeepsVisible(s: string)
    requires !IsBlank(s)
    ensures exists p :: 0 <= p < |Split(s)| && !IsBlank(Split(s)[p])
  {
    var j :| 0 <= j < |s| && !IsWhitespace(s[j]);
    SplitKeepsVisibleFrom(s, 0, j);
    var p :| 0 <= p < |SplitFrom(s, 0)| && !IsBlank(SplitFrom(s, 0)[p]);
    assert Split(s)[p] == SplitFrom(s, 0)[p];
  }

  // ---------------------------------------------------------------------------
  // Where the segments sit in the document
  // ---------------------------------------------------------------------------

  /** `x` occurs at `p` in `s`, with a line break or an end of `s` on either side. */
  predicate IsDelimitedAt(s: string, x: string, p: int) {
    && OccursAt(s, x, p)
    && (p == 0 || IsSeparator(s[p - 1]))
    && (p + |x| == |s| || IsSeparator(s[p + |x|]))
  }

  lemma {:induction false} SegmentIsDelimitedFrom(s: string, i: nat, p: nat)
    requires i <= |s| && (i == 0 || IsSeparator(s[i - 1]))
    requires p < |SplitFrom(s, i)|
    ensures exists q :: IsDelimitedAt(s, SplitFrom(s, i)[p], q)
    decreases |s| - i
  {
    var k := SegmentEnd(s, i);
    if p == 0 {
      assert SplitFrom(s, i)[0] == s[i..k];
      assert IsDelimitedAt(s, s[i..k], i);
    } else {
      var m := RunEnd(s, k);
      assert SplitFrom(s, i)[p] == SplitFrom(s, m)[p - 1];
      RunEndFull(s, k);
      assert IsSeparator(s[m - 1]);
      SegmentIsDelimitedFrom(s, m, p - 1);
      var q :| IsDelimitedAt(s, SplitFrom(s, m)[p - 1], q);
      assert IsDelimitedAt(s, SplitFrom(s, i)[p], q);
    }
  }

  /** Every segment is a stretch of the document bounded by line breaks or by its ends. */
  lemma SegmentIsDelimited(s: string, p: nat)
    requires p < |Split(s)|
    ensures exists q :: IsDelimitedAt(s, Split(s)[p], q)
  {
    SegmentIsDelimitedFrom(s, 0, p);
  }

  /** A segment with a visible character comes from a document with one. */
  lemma VisibleSegmentInVisibleDocument(s: string, p: nat)
    requires p < |Split(s)| && !IsBlank(Split(s)[p])
    ensures !IsBlank(s)
  {
    var x := Split(s)[p];
    SegmentIsDelimited(s, p);
    var q :| IsDelimitedAt(s, x, q);
    var m :| 0 <= m < |x| && !IsWhitespace(x[m]);
    assert s[q..q + |x|][m] == s[q + m];
  }

  // ---------------------------------------------------------------------------
  // Splitting documents built from known lines
  // ---------------------------------------------------------------------------

  /** What follows a prefix is split the same way with or without the prefix. */
  lemma {:induction false} SegmentEndShift(a: string, t: string, i: nat)
    requires i <= |t|
    ensures SegmentEnd(a + t, |a| + i) == |a| + SegmentEnd(t, i)
    decreases |t| - i
  {
    if i < |t| {
      assert (a + t)[|a| + i] == t[i];
      SegmentEndShift(a, t, i + 1);
    }
  }

  lemma {:induction false} RunEndShift(a: string, t: string, i: nat)
    requires i <= |t|
    ensures RunEnd(a + t, |a| + i) == |a| + RunEnd(t, i)
    decreases |t| - i
  {
    if i < |t| {
      assert (a + t)[|a| + i] == t[i];
      RunEndShift(a, t, i + 1);
    }
  }

  lemma {:induction false} SplitShift(a: string, t: string, i: nat)
    requires i <= |t|
    ensures SplitFrom(a + t, |a| + i) == SplitFrom(t, i)
    decreases |t| - i
  {
    SegmentEndShift(a, t, i);
    var k := SegmentEnd(t, i);
    SliceAfterPrefix(a, t, i, k);
    if k < |t| {
      RunEndShift(a, t, k);
      SplitShift(a, t, RunEnd(t, k));
    } else {
      SuffixAfterPrefix(a, t, i);
    }
  }

  lemma SliceAfterPrefix(a: string, t: string, x: nat, y: nat)
    requires x <= y <= |t|
    ensures (a + t)[|a| + x..|a| + y] == t[x..y]
  {
  }

  lemma SuffixAfterPrefix(a: string, t: string, x: nat)
    requires x <= |t|
    ensures (a + t)[|a| + x..] == t[x..]
  {
  }

  /** A stretch without separators is a single segment. */
  lemma SplitOfSegment(a: string)
    requires NoSeparator(a)
    ensures Split(a) == [a]
  {
    SegmentEndAt(a, 0, |a|);
  }

  /** Cutting at a single line break between a segment and the rest of the document. */
  lemma SplitAtBreak(a: string, b: string)
    requires NoSeparator(a)
    requires b == [] || !IsSeparator(b[0])
    ensures Split(a + "\n" + b) == [a] + Split(b)
  {
    var s := a + "\n" + b;
    var a' := a + "\n";
    assert s == a' + b;
    assert forall j :: 0 <= j < |a| ==> s[j] == a[j];
    SegmentEndAt(s, 0, |a|);
    RunEndShift(a', b, 0);
    assert RunEnd(s, |a|) == |a'|;
    SplitShift(a', b, 0);
    assert s[..|a|] == a;
  }

  /** Two separator-free lines joined by a line feed split back into the two. */
  lemma SplitOfTwoLines(b: string, c: string)
    requires NoSeparator(b) && NoSeparator(c)
    ensures Split(b + "\n" + c) == [b, c]
  {
    SplitOfSegment(c);
    SplitAtBreak(b, c);
  }

  /** Three separator-free lines joined by single line feeds split back into the three. */
  lemma SplitOfThreeLines(a: string, b: string, c: string)
    requires NoSeparator(a) && NoSeparator(b) && NoSeparator(c)
    requires b != []
    ensures Split(a + "\n" + b + "\n" + c) == [a, b, c]
  {
    var bc := b + "\n" + c;
    SplitOfTwoLines(b, c);
    assert bc[0] == b[0];
    SplitAtBreak(a, bc);
    assert Split(a + "\n" + bc) == [a, b, c];
    assert a + "\n" + bc == a + "\n" + b + "\n" + c;
  }
}
