/**
 * `HeaderFoldingProvider.provideFoldingRanges`: collect the indices of the
 * lines the folding pattern matches, then pair each header with the line
 * before the next header (or the last line) and keep the pairs whose end is
 * past their start. The regular expression engine is abstract: the compiled
 * pattern is a predicate on line texts, and compiling may fail.
 */
module Folding {
  import opened Wrappers

  /** `vscode.FoldingRangeKind`. */
  datatype FoldingRangeKind = Comment | Imports | Region

  /** `vscode.FoldingRange`: zero-based, inclusive start and end lines. */
  datatype FoldingRange = FoldingRange(start: int, end: int, kind: FoldingRangeKind)

  /** The failure of `new RegExp(pattern)` on an invalid pattern. */
  datatype FoldError = InvalidPattern(pattern: string)

  /** The folding pattern used when the setting is absent. */
  const DefaultFoldingPattern := "^(#|//|/\\*)\\s?.*----\\s*$"

  /** `cfg.get<string>('sectionHeaders.foldingRegex') ?? default`. */
  function FoldingPattern(setting: Option<string>): (p: string)
    ensures setting.None? ==> p == DefaultFoldingPattern
    ensures setting.Some? ==> p == setting.value
  {
    setting.GetOr(DefaultFoldingPattern)
  }

  /** `h` is strictly increasing. */
  predicate Increasing(h: seq<nat>)
  {
    forall a, b :: 0 <= a < b < |h| ==> h[a] < h[b]
  }

  /** `headerLines`: the indices of the matching lines, in ascending order. */
  function HeaderLines(lines: seq<string>, test: string -> bool): (h: seq<nat>)
    ensures |h| <= |lines|
  {
    if lines == [] then []
    else
      var init := lines[..|lines| - 1];
      HeaderLines(init, test) + (if test(lines[|lines| - 1]) then [|lines| - 1] else [])
  }

  /**
   * The header indices ascend strictly, each is a matching line, and every
   * matching line is among them.
   */
  lemma {:induction false} HeaderLinesExact(lines: seq<string>, test: string -> bool)
    ensures var h := HeaderLines(lines, test);
      && (forall k :: 0 <= k < |h| ==> h[k] < |lines| && test(lines[h[k]]))
      && Increasing(h)
      && (forall i :: 0 <= i < |lines| && test(lines[i]) ==> i in h)
  {
    if lines != [] {
      var init := lines[..|lines| - 1];
      HeaderLinesExact(init, test);
    }
  }

  /**
   * The end line paired with the `k`-th header: the line before the next
   * header, or the last line for the final header.
   */
  function FoldEnd(h: seq<nat>, k: nat, lineCount: int): int
    requires k < |h|
  {
    if k + 1 < |h| then h[k + 1] - 1 else lineCount - 1
  }

  /** The ranges the pairing loop has pushed after its first `n` iterations. */
  function RangesUpTo(h: seq<nat>, lineCount: int, n: nat): (rs: seq<FoldingRange>)
    requires n <= |h|
    ensures |rs| <= n
    ensures forall r :: r in rs ==> r.kind == Region && r.start < r.end
  {
    if n == 0 then []
    else
      var start, end := h[n - 1], FoldEnd(h, n - 1, lineCount);
      RangesUpTo(h, lineCount, n - 1) + (if end > start then [FoldingRange(start, end, Region)] else [])
  }

  /** The ranges the provider returns once the pattern has compiled. */
  function FoldingRanges(lines: seq<string>, test: string -> bool): (rs: seq<FoldingRange>)
    ensures |rs| <= |lines|
    ensures forall r :: r in rs ==> r.kind == Region && r.start < r.end
  {
    var h := HeaderLines(lines, test);
    if |h| == 0 then [] else RangesUpTo(h, |lines|, |h|)
  }

  /**
   * `provideFoldingRanges` with the document's lines, the configured pattern
   * and the regular-expression compiler as inputs.
   */
  method ProvideFoldingRanges(lines: seq<string>, setting: Option<string>, compile: string -> Option<string -> bool>)
    returns (r: Result<seq<FoldingRange>, FoldError>)
    ensures compile(FoldingPattern(setting)).None? ==> r == Failure(InvalidPattern(FoldingPattern(setting)))
    ensures compile(FoldingPattern(setting)).Some? ==>
      r == Success(FoldingRanges(lines, compile(FoldingPattern(setting)).value))
  {
    var pattern := FoldingPattern(setting);
    var compiled := compile(pattern);
    if compiled.None? {
      return Failure(InvalidPattern(pattern));
    }
    var re := compiled.value;

    var headerLines: seq<nat> := [];
    for i := 0 to |lines|
      invariant headerLines == HeaderLines(lines[..i], re)
    {
      assert lines[..i + 1][..i] == lines[..i];
      if re(lines[i]) {
        headerLines := headerLines + [i];
      }
    }
    assert lines[..|lines|] == lines;
    if |headerLines| == 0 {
      return Success([]);
    }

    var ranges: seq<FoldingRange> := [];
    for i := 0 to |headerLines|
      invariant ranges == RangesUpTo(headerLines, |lines|, i)
    {
      var start := headerLines[i];
      var end := if i + 1 < |headerLines| then headerLines[i + 1] - 1 else |lines| - 1;
      if end > start {
        ranges := ranges + [FoldingRange(start, end, Region)];
      }
    }
    return Success(ranges);
  }

  /** The pairing pushes exactly one range per header whose end is past it. */
  lemma {:induction false} RangesUpToMembers(h: seq<nat>, lineCount: int, n: nat, r: FoldingRange)
    requires n <= |h|
    ensures r in RangesUpTo(h, lineCount, n) <==>
      exists k :: 0 <= k < n && FoldEnd(h, k, lineCount) > h[k]
                && r == FoldingRange(h[k], FoldEnd(h, k, lineCount), Region)
  {
    if n > 0 {
      RangesUpToMembers(h, lineCount, n - 1, r);
    }
  }

  /** Each range ends before the next one starts. */
  predicate Ordered(rs: seq<FoldingRange>)
  {
    forall a, b :: 0 <= a < b < |rs| ==> rs[a].end < rs[b].start
  }

  /** Ranges pushed so far are ordered and end before the next header. */
  lemma {:induction false} RangesUpToOrdered(h: seq<nat>, lineCount: int, n: nat)
    requires n <= |h|
    requires Increasing(h)
    ensures Ordered(RangesUpTo(h, lineCount, n))
    ensures n < |h| ==> forall r :: r in RangesUpTo(h, lineCount, n) ==> r.end < h[n]
  {
    if n > 0 {
      RangesUpToOrdered(h, lineCount, n - 1);
      var prev := RangesUpTo(h, lineCount, n - 1);
      var start, end := h[n - 1], FoldEnd(h, n - 1, lineCount);
      var tail := if end > start then [FoldingRange(start, end, Region)] else [];
      var rs := RangesUpTo(h, lineCount, n);
      assert rs == prev + tail;
      // Every earlier range ends before header n - 1, where the new one starts.
      assert forall r :: r in prev ==> r.end < h[n - 1];
      forall a, b | 0 <= a < b < |rs|
        ensures rs[a].end < rs[b].start
      {
        assert rs[a] == prev[a];
        if b >= |prev| {
          assert rs[a] in prev;
          assert rs[b] == tail[0];
        } else {
          assert rs[b] == prev[b];
        }
      }
      if n < |h| {
        forall r | r in rs
          ensures r.end < h[n]
        {
          if r in prev {
            assert h[n - 1] < h[n];
          }
        }
      }
    }
  }

  /**
   * A matching line after the `k`-th header is at or after the next header,
   * so in particular the `k`-th header is not the last one.
   */
  lemma NextHeaderNoLater(lines: seq<string>, test: string -> bool, k: nat, j: int)
    requires k < |HeaderLines(lines, test)|
    requires HeaderLines(lines, test)[k] < j < |lines| && test(lines[j])
    ensures k + 1 < |HeaderLines(lines, test)| && HeaderLines(lines, test)[k + 1] <= j
  {
    HeaderLinesExact(lines, test);
    var h := HeaderLines(lines, test);
    assert j in h;
    var m :| 0 <= m < |h| && h[m] == j;
    if k + 1 < m {
      assert h[k + 1] < h[m];
    }
  }

  /**
   * A fold as the lines alone determine it: it starts on a matching line,
   * ends after it, no line inside it after the header matches, and it stops
   * at the last line or just before the next matching line.
   */
  predicate IsFold(lines: seq<string>, test: string -> bool, r: FoldingRange)
  {
    && r.kind == Region
    && 0 <= r.start < r.end < |lines|
    && test(lines[r.start])
    && (forall j :: r.start < j <= r.end ==> !test(lines[j]))
    && (r.end == |lines| - 1 || test(lines[r.end + 1]))
  }

  /**
   * The provider returns exactly the folds the lines determine: every range
   * starts on a header, ends at the last line or just before the next header,
   * and has a body; every header with a body yields its range.
   */
  lemma FoldingRangesExact(lines: seq<string>, test: string -> bool, r: FoldingRange)
    ensures r in FoldingRanges(lines, test) <==> IsFold(lines, test, r)
  {
    if r in FoldingRanges(lines, test) {
      RangeIsFold(lines, test, r);
    }
    if IsFold(lines, test, r) {
      FoldIsRange(lines, test, r);
    }
  }

  /** Every returned range is a fold. */
  lemma RangeIsFold(lines: seq<string>, test: string -> bool, r: FoldingRange)
    requires r in FoldingRanges(lines, test)
    ensures IsFold(lines, test, r)
  {
    var h := HeaderLines(lines, test);
    RangesUpToMembers(h, |lines|, |h|, r);
    var k :| 0 <= k < |h| && FoldEnd(h, k, |lines|) > h[k]
              && r == FoldingRange(h[k], FoldEnd(h, k, |lines|), Region);
    PairedRangeIsFold(lines, test, k);
  }

  /** Every fold is returned. */
  lemma FoldIsRange(lines: seq<string>, test: string -> bool, r: FoldingRange)
    requires IsFold(lines, test, r)
    ensures r in FoldingRanges(lines, test)
  {
    var h := HeaderLines(lines, test);
    var k := FoldIsPairedRange(lines, test, r);
    RangesUpToMembers(h, |lines|, |h|, r);
  }

  /** The range paired with a header, when it has a body, is a fold. */
  lemma PairedRangeIsFold(lines: seq<string>, test: string -> bool, k: nat)
    requires k < |HeaderLines(lines, test)|
    requires var h := HeaderLines(lines, test); FoldEnd(h, k, |lines|) > h[k]
    ensures var h := HeaderLines(lines, test);
      IsFold(lines, test, FoldingRange(h[k], FoldEnd(h, k, |lines|), Region))
  {
    HeaderLinesExact(lines, test);
    var h := HeaderLines(lines, test);
    var end := FoldEnd(h, k, |lines|);
    forall j | h[k] < j <= end
      ensures !test(lines[j])
    {
      if test(lines[j]) {
        NextHeaderNoLater(lines, test, k, j);
      }
    }
  }

  /** Every fold is the range paired with the header it starts on. */
  lemma FoldIsPairedRange(lines: seq<string>, test: string -> bool, r: FoldingRange) returns (k: nat)
    requires IsFold(lines, test, r)
    ensures var h := HeaderLines(lines, test);
      && k < |h| && FoldEnd(h, k, |lines|) > h[k]
      && r == FoldingRange(h[k], FoldEnd(h, k, |lines|), Region)
  {
    HeaderLinesExact(lines, test);
    var h := HeaderLines(lines, test);
    var lc := |lines|;
    assert r.start in h;
    k :| 0 <= k < |h| && h[k] == r.start;
    if k + 1 < |h| {
      assert h[k] < h[k + 1] < lc;
      assert h[k + 1] > r.end;
      NextHeaderNoLater(lines, test, k, r.end + 1);
    } else if r.end < lc - 1 {
      NextHeaderNoLater(lines, test, k, r.end + 1);
    }
  }

  /**
   * The ranges are strictly ordered by start and do not overlap: each ends
   * before the next one starts.
   */
  lemma FoldingRangesOrdered(lines: seq<string>, test: string -> bool)
    ensures var rs := FoldingRanges(lines, test);
      forall a, b :: 0 <= a < b < |rs| ==> rs[a].start < rs[a].end < rs[b].start < rs[b].end
  {
    HeaderLinesExact(lines, test);
    var h := HeaderLines(lines, test);
    var rs := FoldingRanges(lines, test);
    if |h| > 0 {
      RangesUpToOrdered(h, |lines|, |h|);
    }
    forall a | 0 <= a < |rs|
      ensures rs[a].start < rs[a].end
    {
      FoldingRangesExact(lines, test, rs[a]);
    }
  }

  /** A document with no matching line has no folds. */
  lemma NoHeadersNoFolds(lines: seq<string>, test: string -> bool)
    requires forall i :: 0 <= i < |lines| ==> !test(lines[i])
    ensures FoldingRanges(lines, test) == []
  {
    HeaderLinesExact(lines, test);
  }

  /**
   * A header immediately followed by another header, or on the last line,
   * starts no fold.
   */
  lemma HeaderWithoutBodyNoFold(lines: seq<string>, test: string -> bool, i: nat)
    requires i < |lines| && test(lines[i])
    requires i + 1 == |lines| || test(lines[i + 1])
    ensures forall r :: r in FoldingRanges(lines, test) ==> r.start != i
  {
    forall r | r in FoldingRanges(lines, test)
      ensures r.start != i
    {
      FoldingRangesExact(lines, test, r);
    }
  }
}
