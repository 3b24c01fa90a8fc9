/**
 * The `sectionHeaders.rule` command, identical in both versions of the
 * extension: resolve the rule template, pad it to the target line length
 * and insert it above every distinct selected line.
 */
module Commands {
  import opened Wrappers
  import opened Templates
  import opened Format
  import opened Insertion

  /**
   * The rule command's handler, given the configuration settings, the
   * document's language id and the editor's selections.
   */
  method InsertRule(rules: Option<map<string, string>>, targetLineLength: Option<int>, lang: string,
                    selections: seq<Selection>)
    returns (edits: seq<TextInsertion>)
    ensures edits == InsertionsAt(Distinct(StartLines(selections)),
                                  RuleLine(RuleTemplate(rules, lang), ConfiguredWidth(targetLineLength)) + "\n")
  {
    var width := ConfiguredWidth(targetLineLength);
    var lineText := RuleTemplate(rules, lang);
    lineText := RuleLine(lineText, width);
    edits := InsertAtSelections(selections, lineText);
  }
}
