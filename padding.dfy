/**
 * Trailing-dash handling shared by header and rule lines: the match of the
 * regular expression `(-+)$`, its removal, and padding with
 * `'-'.repeat(Math.max(0, width - base.length))`.
 */
module Padding {
  import opened Wrappers

  /** Every character of `s` is a dash. */
  predicate AllDashes(s: string)
  {
    forall i :: 0 <= i < |s| ==> s[i] == '-'
  }

  /** `s` ends with a dash. */
  predicate EndsWithDash(s: string)
  {
    |s| > 0 && s[|s| - 1] == '-'
  }

  /** `Math.max(a, b)`. */
  function Max(a: int, b: int): int
  {
    if a < b then b else a
  }

  /** `'-'.repeat(n)`. */
  function Dashes(n: nat): (r: string)
    ensures |r| == n
    ensures AllDashes(r)
  {
    if n == 0 then "" else Dashes(n - 1) + "-"
  }

  /** Length of the maximal run of dashes at the end of `s`. */
  function TrailingDashCount(s: string): (k: nat)
    ensures k <= |s|
    ensures forall i :: |s| - k <= i < |s| ==> s[i] == '-'
    ensures k < |s| ==> s[|s| - k - 1] != '-'
  {
    if EndsWithDash(s) then TrailingDashCount(s[..|s| - 1]) + 1 else 0
  }

  /**
   * `s.match(/(-+)$/)`, reduced to the matched text `m[0]`. The engine tries
   * start positions from the left, so the match found is the maximal
   * trailing run; there is no match when `s` does not end with a dash.
   */
  function TrailingDashesMatch(s: string): (m: Option<string>)
    ensures m.Some? <==> EndsWithDash(s)
    ensures m.Some? ==> 0 < |m.value| <= |s| && AllDashes(m.value)
    ensures m.Some? ==> s == s[..|s| - |m.value|] + m.value
    ensures m.Some? ==> !EndsWithDash(s[..|s| - |m.value|])
  {
    var k := TrailingDashCount(s);
    assert AllDashes(s[|s| - k..]);
    if k == 0 then None else Some(s[|s| - k..])
  }

  /** `contentBeforeDashes`: `s` with its trailing dash run (if any) removed. */
  function ContentBeforeDashes(s: string): (base: string)
    ensures |base| <= |s| && s == base + s[|base|..]
    ensures AllDashes(s[|base|..])
    ensures !EndsWithDash(base)
  {
    var m := TrailingDashesMatch(s);
    if m.Some? then s[..|s| - |m.value|] else s
  }

  /**
   * `${contentBeforeDashes}${'-'.repeat(Math.max(0, width - contentBeforeDashes.length))}`:
   * the base followed by only dashes, reaching at least `width` characters.
   */
  function PadToWidth(s: string, width: int): (line: string)
    ensures var base := ContentBeforeDashes(s);
      && |line| == Max(width, |base|)
      && line[..|base|] == base
      && AllDashes(line[|base|..])
  {
    var base := ContentBeforeDashes(s);
    var line := base + Dashes(Max(0, width - |base|));
    assert line[..|base|] == base;
    assert line[|base|..] == Dashes(Max(0, width - |base|));
    line
  }

  /**
   * The split of a string into a part not ending in a dash and a dash run is
   * unique, so stripping recovers exactly that part.
   */
  lemma StripUnique(b: string, d: string)
    requires !EndsWithDash(b)
    requires AllDashes(d)
    ensures ContentBeforeDashes(b + d) == b
  {
    var s := b + d;
    var base := ContentBeforeDashes(s);
    assert base == s[..|base|];
    assert b == s[..|b|];
  }

  /**
   * The number of dashes appended does not depend on how many dashes the
   * input already ended with.
   */
  lemma PadIgnoresExistingRun(b: string, d: string, width: int)
    requires !EndsWithDash(b)
    requires AllDashes(d)
    ensures PadToWidth(b + d, width) == b + Dashes(Max(0, width - |b|))
    ensures PadToWidth(b + d, width) == PadToWidth(b, width)
  {
    StripUnique(b, d);
    StripUnique(b, "");
    assert b + "" == b;
  }

  /** Re-padding a padded line to the same width returns it unchanged. */
  lemma PadIdempotent(s: string, width: int)
    ensures PadToWidth(PadToWidth(s, width), width) == PadToWidth(s, width)
  {
    var base := ContentBeforeDashes(s);
    var line := PadToWidth(s, width);
    assert line == base + line[|base|..];
    StripUnique(base, line[|base|..]);
  }
}
