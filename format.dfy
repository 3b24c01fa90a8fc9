/**
 * The header and rule lines both commands build: substitute the name into
 * the template (headers only), strip the trailing dash run, pad with dashes
 * to the target line length.
 */
module Format {
  import opened Padding
  import opened Substitution
  import Templates

  /** The placeholder a header template carries. */
  const Placeholder := "${name}"

  /** `processedTemplate`: the template with its first `${name}` replaced. */
  function ProcessedTemplate(template: string, name: string): (r: string)
    ensures !Contains(template, Placeholder) ==> r == template
  {
    ReplaceFirst(template, Placeholder, name)
  }

  /** `headerLine`. */
  function HeaderLine(template: string, name: string, width: int): (line: string)
    ensures var base := ContentBeforeDashes(ProcessedTemplate(template, name));
      |line| == Max(width, |base|) && line[..|base|] == base && AllDashes(line[|base|..])
  {
    PadToWidth(ProcessedTemplate(template, name), width)
  }

  /** `lineText` after padding: a rule line has no substitution. */
  function RuleLine(template: string, width: int): (line: string)
    ensures var base := ContentBeforeDashes(template);
      |line| == Max(width, |base|) && line[..|base|] == base && AllDashes(line[|base|..])
  {
    PadToWidth(template, width)
  }

  /**
   * A header line is the stripped processed template followed only by
   * dashes, `max(width, |base|)` characters long.
   */
  lemma HeaderLineShape(template: string, name: string, width: int)
    ensures var base := ContentBeforeDashes(ProcessedTemplate(template, name));
      var line := HeaderLine(template, name, width);
      && !EndsWithDash(base)
      && ProcessedTemplate(template, name) == base + ProcessedTemplate(template, name)[|base|..]
      && |line| == Max(width, |base|)
      && line == base + Dashes(|line| - |base|)
  {
    var base := ContentBeforeDashes(ProcessedTemplate(template, name));
    var line := HeaderLine(template, name, width);
    DashesUnique(line[|base|..]);
    assert line == base + line[|base|..];
  }

  /** A string of dashes is `'-'.repeat` of its length. */
  lemma {:induction false} DashesUnique(s: string)
    requires AllDashes(s)
    ensures s == Dashes(|s|)
  {
    if |s| > 0 {
      DashesUnique(s[..|s| - 1]);
      assert s == s[..|s| - 1] + "-";
    }
  }

  /** A template without the placeholder is padded as it stands, like a rule. */
  lemma HeaderWithoutPlaceholder(template: string, name: string, width: int)
    requires !Contains(template, Placeholder)
    ensures HeaderLine(template, name, width) == RuleLine(template, width)
  {
  }

  /**
   * With a `$`-free name only the first placeholder is replaced, literally;
   * a second placeholder stays in the line.
   */
  lemma HeaderLiteralName(template: string, name: string, width: int, i: nat)
    requires IsFirstOccurrence(template, Placeholder, i)
    requires '$' !in name
    ensures HeaderLine(template, name, width)
      == PadToWidth(template[..i] + name + template[i + |Placeholder|..], width)
  {
    ReplaceFirstLiteral(template, Placeholder, name, i);
  }

  /** Re-padding a rule line to the same width is a no-op. */
  lemma RuleIdempotent(template: string, width: int)
    ensures RuleLine(RuleLine(template, width), width) == RuleLine(template, width)
  {
    PadIdempotent(template, width);
  }

  /**
   * The number of dashes on a rule line does not depend on how many dashes
   * the rule template already ended with.
   */
  lemma RuleIgnoresExistingRun(prefix: string, run: nat, width: int)
    requires !EndsWithDash(prefix)
    ensures RuleLine(prefix + Dashes(run), width) == prefix + Dashes(Max(0, width - |prefix|))
  {
    PadIgnoresExistingRun(prefix, Dashes(run), width);
  }

  /**
   * The default header template with a `$`-free name gives
   * `"# " + name + " "` followed by dashes up to the width.
   */
  lemma DefaultHeader(name: string, width: int)
    requires '$' !in name
    ensures HeaderLine(Templates.DefaultHeaderTemplate, name, width)
      == "# " + name + " " + Dashes(Max(0, width - (|name| + 3)))
  {
    var t := Templates.DefaultHeaderTemplate;
    assert t == "# " + Placeholder + " ----";
    assert t[2..9] == Placeholder;
    assert !OccursAt(t, Placeholder, 0) by { assert t[0] != Placeholder[0]; }
    assert !OccursAt(t, Placeholder, 1) by { assert t[1] != Placeholder[0]; }
    ReplaceFirstLiteral(t, Placeholder, name, 2);
    assert t[..2] == "# " && t[9..] == " ----";
    var b := "# " + name + " ";
    assert "# " + name + " ----" == b + Dashes(4);
    PadIgnoresExistingRun(b, Dashes(4), width);
  }

  /** The default rule template gives `"# "` followed by dashes up to the width. */
  lemma DefaultRule(width: int)
    ensures RuleLine(Templates.DefaultRuleTemplate, width) == "# " + Dashes(Max(0, width - 2))
  {
    assert Templates.DefaultRuleTemplate == "# " + Dashes(30);
    PadIgnoresExistingRun("# ", Dashes(30), width);
  }
}
