/**
 * The edit callback both commands pass to `editor.edit`: walk the
 * selections in order and insert the line, followed by a line break, at the
 * start of each selection's start line, skipping lines already in the
 * `doneLines` set.
 */
module Insertion {

  /** A position in a document: zero-based line and character. */
  datatype Position = Position(line: nat, character: nat)

  /** A selection: its start and end positions. */
  datatype Selection = Selection(start: Position, end: Position)

  /** One `edit.insert(pos, text)` call. */
  datatype TextInsertion = TextInsertion(pos: Position, text: string)

  /** The start line of every selection, in order. */
  function StartLines(selections: seq<Selection>): (lines: seq<nat>)
    ensures |lines| == |selections|
    ensures forall k :: 0 <= k < |selections| ==> lines[k] == selections[k].start.line
  {
    seq(|selections|, k requires 0 <= k < |selections| => selections[k].start.line)
  }

  /** The elements of `s` in order of first appearance, each once. */
  function Distinct(s: seq<nat>): (d: seq<nat>)
    ensures |d| <= |s|
    ensures forall x :: x in d ==> x in s
  {
    if s == [] then []
    else
      var init, x := s[..|s| - 1], s[|s| - 1];
      if x in init then Distinct(init) else Distinct(init) + [x]
  }

  /** One insertion of `text` at column 0 of each line, in order. */
  function InsertionsAt(lines: seq<nat>, text: string): (edits: seq<TextInsertion>)
    ensures |edits| == |lines|
    ensures forall k :: 0 <= k < |lines| ==> edits[k] == TextInsertion(Position(lines[k], 0), text)
  {
    seq(|lines|, k requires 0 <= k < |lines| => TextInsertion(Position(lines[k], 0), text))
  }

  /** The set of elements of a sequence. */
  function Elements(s: seq<nat>): (r: set<nat>)
    ensures forall x :: x in r <==> x in s
  {
    set x | x in s
  }

  /**
   * The loop over `editor.selections`: one insertion of `line + '\n'` per
   * distinct start line, in order of first appearance.
   */
  method InsertAtSelections(selections: seq<Selection>, line: string) returns (edits: seq<TextInsertion>)
    ensures edits == InsertionsAt(Distinct(StartLines(selections)), line + "\n")
  {
    var starts := StartLines(selections);
    var doneLines: set<nat> := {};
    edits := [];
    for i := 0 to |selections|
      invariant doneLines == Elements(starts[..i])
      invariant edits == InsertionsAt(Distinct(starts[..i]), line + "\n")
    {
      assert starts[..i + 1][..i] == starts[..i];
      var l := selections[i].start.line;
      if l in doneLines {
        continue;
      }
      doneLines := doneLines + {l};
      edits := edits + [TextInsertion(Position(l, 0), line + "\n")];
    }
    assert starts[..|selections|] == starts;
  }

  /** A line appears among the distinct lines exactly when it appears in `s`. */
  lemma {:induction false} DistinctElements(s: seq<nat>)
    ensures forall x :: x in Distinct(s) <==> x in s
  {
    if s != [] {
      var init := s[..|s| - 1];
      DistinctElements(init);
      assert s == init + [s[|s| - 1]];
    }
  }

  /** No line appears twice among the distinct lines. */
  lemma {:induction false} DistinctNoDuplicates(s: seq<nat>)
    ensures forall i, j :: 0 <= i < j < |Distinct(s)| ==> Distinct(s)[i] != Distinct(s)[j]
  {
    if s != [] {
      var init := s[..|s| - 1];
      DistinctNoDuplicates(init);
      DistinctElements(init);
    }
  }

  /** The index of the first occurrence of `x` in `s`. */
  function FirstIndex(s: seq<nat>, x: nat): (i: nat)
    requires x in s
    ensures i < |s| && s[i] == x && x !in s[..i]
  {
    if s[0] == x then 0
    else
      var i := FirstIndex(s[1..], x) + 1;
      assert s[..i] == [s[0]] + s[1..][..i - 1];
      i
  }

  /** Any index whose element does not occur before it is the first index. */
  lemma FirstIndexUnique(s: seq<nat>, x: nat, i: nat)
    requires i < |s| && s[i] == x && x !in s[..i]
    ensures FirstIndex(s, x) == i
  {
  }

  /**
   * The distinct lines come in the order of their first appearance in `s`.
   */
  lemma {:induction false} DistinctFirstAppearanceOrder(s: seq<nat>)
    ensures forall x :: x in Distinct(s) ==> x in s
    ensures forall i, j :: 0 <= i < j < |Distinct(s)| ==>
      FirstIndex(s, Distinct(s)[i]) < FirstIndex(s, Distinct(s)[j])
  {
    DistinctElements(s);
    if s != [] {
      var init, x := s[..|s| - 1], s[|s| - 1];
      var d := Distinct(s);
      var di := Distinct(init);
      DistinctFirstAppearanceOrder(init);
      DistinctElements(init);
      // A line first seen in `init` is first seen at the same index in `s`.
      forall y | y in init
        ensures FirstIndex(s, y) == FirstIndex(init, y)
      {
        var f := FirstIndex(init, y);
        assert s[..f] == init[..f];
        FirstIndexUnique(s, y, f);
      }
      if x !in init {
        FirstIndexUnique(s, x, |s| - 1);
        assert d == di + [x];
        forall i, j | 0 <= i < j < |d|
          ensures FirstIndex(s, d[i]) < FirstIndex(s, d[j])
        {
          assert d[i] in init;
          if j < |di| {
            assert d[j] in init;
          }
        }
      } else {
        forall i, j | 0 <= i < j < |d|
          ensures FirstIndex(s, d[i]) < FirstIndex(s, d[j])
        {
          assert d[i] in init && d[j] in init;
        }
      }
    }
  }

  /** Some insertion in `edits` is at the start of line `l`. */
  predicate InsertsOn(edits: seq<TextInsertion>, l: nat)
  {
    exists k :: 0 <= k < |edits| && edits[k].pos == Position(l, 0)
  }

  /** Some selection starts on line `l`. */
  predicate SomeSelectionStartsOn(selections: seq<Selection>, l: nat)
  {
    exists k :: 0 <= k < |selections| && selections[k].start.line == l
  }

  /**
   * Inserting at the selections: an insertion lands on line `l` exactly when
   * some selection starts on `l`, and never twice on one line.
   */
  lemma InsertionLines(selections: seq<Selection>, text: string)
    ensures forall l: nat ::
      InsertsOn(InsertionsAt(Distinct(StartLines(selections)), text), l) <==> SomeSelectionStartsOn(selections, l)
    ensures var edits := InsertionsAt(Distinct(StartLines(selections)), text);
      forall i, j :: 0 <= i < j < |edits| ==> edits[i].pos != edits[j].pos
  {
    var starts := StartLines(selections);
    var d := Distinct(starts);
    DistinctElements(starts);
    DistinctNoDuplicates(starts);
    var edits := InsertionsAt(d, text);
    forall l: nat
      ensures InsertsOn(edits, l) <==> SomeSelectionStartsOn(selections, l)
    {
      if SomeSelectionStartsOn(selections, l) {
        var k :| 0 <= k < |selections| && selections[k].start.line == l;
        assert starts[k] == l;
        assert l in d;
        var m :| 0 <= m < |d| && d[m] == l;
        assert edits[m].pos == Position(l, 0);
      }
      if InsertsOn(edits, l) {
        var k :| 0 <= k < |edits| && edits[k].pos == Position(l, 0);
        assert d[k] == l;
        assert l in starts;
        var m :| 0 <= m < |starts| && starts[m] == l;
        assert selections[m].start.line == l;
      }
    }
  }
}
