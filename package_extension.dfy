/**
 * The extension as packaged under `vscode-section-headers/`: the header
 * command takes the trimmed selection, else the prompt's answer as typed,
 * and a cancelled prompt falls back to the default name (`?? defaultName`),
 * so the command always inserts.
 */
module PackageExtension {
  import opened Wrappers
  import opened Templates
  import opened Format
  import opened Insertion

  /**
   * The section name: the trimmed selection text if non-empty; otherwise
   * the prompt's answer, untrimmed; `'Section'` when the prompt is
   * cancelled. `input` is what the prompt returns if it is shown.
   */
  function ChooseName(selection: string, input: Option<string>, trim: string -> string): (name: string)
    ensures trim(selection) != "" ==> name == trim(selection)
    ensures trim(selection) == "" && input.Some? ==> name == input.value
    ensures trim(selection) == "" && input.None? ==> name == DefaultSectionName
  {
    var selectedText := trim(selection);
    var defaultName := if |selectedText| > 0 then selectedText else DefaultSectionName;
    if |selectedText| > 0 then selectedText else input.GetOr(defaultName)
  }

  /**
   * The header command's handler: one header line, built from the resolved
   * template and the chosen name, above every distinct selected line.
   */
  method InsertHeader(patterns: Option<map<string, string>>, targetLineLength: Option<int>, lang: string,
                      selections: seq<Selection>, selection: string, input: Option<string>,
                      trim: string -> string)
    returns (edits: seq<TextInsertion>)
    ensures edits == InsertionsAt(Distinct(StartLines(selections)),
                                  HeaderLine(HeaderTemplate(patterns, lang), ChooseName(selection, input, trim),
                                             ConfiguredWidth(targetLineLength)) + "\n")
  {
    var width := ConfiguredWidth(targetLineLength);
    var template := HeaderTemplate(patterns, lang);
    var name := ChooseName(selection, input, trim);
    var headerLine := HeaderLine(template, name, width);
    edits := InsertAtSelections(selections, headerLine);
  }
}
