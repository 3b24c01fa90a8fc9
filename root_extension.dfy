/**
 * The extension under `src/`: the header command takes the trimmed
 * selection, else the trimmed prompt answer, else `'Section'`; a cancelled
 * prompt aborts the command without an edit.
 */
module RootExtension {
  import opened Wrappers
  import opened Templates
  import opened Format
  import opened Insertion
  import PackageExtension

  /**
   * The section name, or `None` when the command aborts: the trimmed
   * selection text if non-empty; otherwise abort on a cancelled prompt;
   * otherwise the trimmed answer if non-empty, else `'Section'`.
   */
  function ChooseName(selection: string, input: Option<string>, trim: string -> string): (name: Option<string>)
    ensures trim(selection) != "" ==> name == Some(trim(selection))
    ensures trim(selection) == "" && input.None? ==> name == None
    ensures trim(selection) == "" && input.Some? && trim(input.value) != "" ==> name == Some(trim(input.value))
    ensures trim(selection) == "" && input.Some? && trim(input.value) == "" ==> name == Some(DefaultSectionName)
    ensures name.Some? ==> name.value != ""
  {
    var selectedText := trim(selection);
    var defaultName := if |selectedText| > 0 then selectedText else DefaultSectionName;
    if |selectedText| > 0 then
      Some(selectedText)
    else if input.None? then
      None
    else
      var typed := trim(input.value);
      Some(if |typed| > 0 then typed else defaultName)
  }

  /**
   * The header command's handler: no edit when the prompt is cancelled,
   * otherwise one header line above every distinct selected line.
   */
  method InsertHeader(patterns: Option<map<string, string>>, targetLineLength: Option<int>, lang: string,
                      selections: seq<Selection>, selection: string, input: Option<string>,
                      trim: string -> string)
    returns (edits: Option<seq<TextInsertion>>)
    ensures edits.None? <==> ChooseName(selection, input, trim).None?
    ensures edits.Some? ==>
      edits.value == InsertionsAt(Distinct(StartLines(selections)),
                                  HeaderLine(HeaderTemplate(patterns, lang), ChooseName(selection, input, trim).value,
                                             ConfiguredWidth(targetLineLength)) + "\n")
  {
    var width := ConfiguredWidth(targetLineLength);
    var template := HeaderTemplate(patterns, lang);
    var chosen := ChooseName(selection, input, trim);
    if chosen.None? {
      return None;
    }
    var headerLine := HeaderLine(template, chosen.value, width);
    var inserted := InsertAtSelections(selections, headerLine);
    edits := Some(inserted);
  }

  /**
   * How the two versions' name choices relate: they agree on a non-empty
   * selection and on an already-trimmed, non-empty answer; only this version
   * aborts on a cancelled prompt, and only this version replaces an answer
   * that trims to nothing by `'Section'`.
   */
  lemma NameChoiceVariants(selection: string, input: Option<string>, trim: string -> string)
    ensures trim(selection) != "" ==>
      ChooseName(selection, input, trim) == Some(PackageExtension.ChooseName(selection, input, trim))
    ensures trim(selection) == "" && input.None? ==>
      ChooseName(selection, input, trim) == None
      && PackageExtension.ChooseName(selection, input, trim) == DefaultSectionName
    ensures input.Some? && trim(input.value) == input.value != "" ==>
      ChooseName(selection, input, trim) == Some(PackageExtension.ChooseName(selection, input, trim))
    ensures trim(selection) == "" && input.Some? && trim(input.value) == "" ==>
      ChooseName(selection, input, trim) == Some(DefaultSectionName)
      && PackageExtension.ChooseName(selection, input, trim) == input.value
  {
  }
}
