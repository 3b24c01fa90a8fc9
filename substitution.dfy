/**
 * `String.prototype.replace` called with a string pattern, as in
 * `template.replace('${name}', name)`: only the first occurrence is replaced,
 * and the replacement text is expanded by the `GetSubstitution` rules of
 * ECMAScript (section 22.1.3.19 of ECMA-262, 2023 edition), where a string
 * pattern has no capture groups.
 */
module Substitution {
  import opened Wrappers

  /** `pat` occurs in `s` starting at index `i`. */
  predicate OccursAt(s: string, pat: string, i: int)
  {
    0 <= i && i + |pat| <= |s| && s[i..i + |pat|] == pat
  }

  /** `pat` occurs in `s` at all. */
  predicate Contains(s: string, pat: string)
  {
    exists i :: 0 <= i <= |s| && OccursAt(s, pat, i)
  }

  /** Index `i` is the first occurrence of `pat` in `s`. */
  predicate IsFirstOccurrence(s: string, pat: string, i: int)
  {
    OccursAt(s, pat, i) && forall j :: 0 <= j < i ==> !OccursAt(s, pat, j)
  }

  /** `s.indexOf(pat, from)`, with `undefined` for JavaScript's -1. */
  function IndexOf(s: string, pat: string, from: nat): (r: Option<nat>)
    requires from <= |s|
    decreases |s| - from
    ensures r.Some? ==> from <= r.value && OccursAt(s, pat, r.value)
    ensures r.Some? ==> forall j :: from <= j < r.value ==> !OccursAt(s, pat, j)
    ensures r.None? ==> forall j :: from <= j ==> !OccursAt(s, pat, j)
  {
    if from + |pat| > |s| then None
    else if s[from..from + |pat|] == pat then Some(from)
    else IndexOf(s, pat, from + 1)
  }

  /**
   * `GetSubstitution` for a match without capture groups: `$$` gives `$`,
   * `$&` the matched text, `` $` `` the text before the match, `$'` the text
   * after it; every other `$` (including `$1` and `$<`) stays literal.
   */
  function Expand(replacement: string, matched: string, before: string, after: string): string
    decreases |replacement|
  {
    if |replacement| == 0 then ""
    else if replacement[0] == '$' && |replacement| >= 2 then
      var rest := replacement[2..];
      match replacement[1]
      case '$' => "$" + Expand(rest, matched, before, after)
      case '&' => matched + Expand(rest, matched, before, after)
      case '`' => before + Expand(rest, matched, before, after)
      case '\'' => after + Expand(rest, matched, before, after)
      case _ => "$" + Expand(replacement[1..], matched, before, after)
    else
      [replacement[0]] + Expand(replacement[1..], matched, before, after)
  }

  /**
   * The replacement patterns of `GetSubstitution` for a string pattern, one
   * by one: `$$`, `$&`, `` $` `` and `$'` expand, a `$` before any other
   * character or at the end stays, and any other character is copied.
   */
  lemma ExpandPatterns(rest: string, c: char, matched: string, before: string, after: string)
    ensures Expand("$$" + rest, matched, before, after) == "$" + Expand(rest, matched, before, after)
    ensures Expand("$&" + rest, matched, before, after) == matched + Expand(rest, matched, before, after)
    ensures Expand("$`" + rest, matched, before, after) == before + Expand(rest, matched, before, after)
    ensures Expand("$'" + rest, matched, before, after) == after + Expand(rest, matched, before, after)
    ensures c !in "$&`'" ==>
      Expand("$" + [c] + rest, matched, before, after) == "$" + Expand([c] + rest, matched, before, after)
    ensures Expand("$", matched, before, after) == "$"
    ensures c != '$' ==> Expand([c] + rest, matched, before, after) == [c] + Expand(rest, matched, before, after)
  {
    assert ("$$" + rest)[2..] == rest && ("$&" + rest)[2..] == rest;
    assert ("$`" + rest)[2..] == rest && ("$'" + rest)[2..] == rest;
    assert ("$" + [c] + rest)[1..] == [c] + rest;
    assert ([c] + rest)[1..] == rest;
    assert "$"[1..] == "";
  }

  /** A replacement without `$` is inserted literally. */
  lemma {:induction false} ExpandLiteral(replacement: string, matched: string, before: string, after: string)
    requires '$' !in replacement
    ensures Expand(replacement, matched, before, after) == replacement
    decreases |replacement|
  {
    if |replacement| > 0 {
      assert replacement == [replacement[0]] + replacement[1..];
      ExpandLiteral(replacement[1..], matched, before, after);
    }
  }

  /**
   * `s.replace(pat, replacement)` for a string `pat`: `s` unchanged when `pat`
   * does not occur; otherwise the text before the first occurrence, the
   * expanded replacement and the text after it.
   */
  function ReplaceFirst(s: string, pat: string, replacement: string): (r: string)
    ensures !Contains(s, pat) ==> r == s
    ensures forall i :: IsFirstOccurrence(s, pat, i) ==>
      && |r| >= |s| - |pat|
      && r[..i] == s[..i]
      && r[|r| - (|s| - i - |pat|)..] == s[i + |pat|..]
  {
    match IndexOf(s, pat, 0)
    case None => s
    case Some(i) =>
      var before, after := s[..i], s[i + |pat|..];
      var r := before + Expand(replacement, pat, before, after) + after;
      assert forall k :: IsFirstOccurrence(s, pat, k) ==> k == i;
      assert r[..i] == before;
      assert r[|r| - |after|..] == after;
      r
  }

  /**
   * With a `$`-free replacement, exactly the first occurrence is replaced by
   * the replacement, literally; later occurrences are left in place.
   */
  lemma ReplaceFirstLiteral(s: string, pat: string, replacement: string, i: nat)
    requires IsFirstOccurrence(s, pat, i)
    requires '$' !in replacement
    ensures ReplaceFirst(s, pat, replacement) == s[..i] + replacement + s[i + |pat|..]
  {
    var r := IndexOf(s, pat, 0);
    assert r == Some(i);
    ExpandLiteral(replacement, pat, s[..i], s[i + |pat|..]);
  }

  /** Every string containing `pat` has a first occurrence of it. */
  lemma FirstOccurrenceExists(s: string, pat: string) returns (i: nat)
    requires Contains(s, pat)
    ensures IsFirstOccurrence(s, pat, i)
  {
    var r := IndexOf(s, pat, 0);
    i := r.value;
  }
}
