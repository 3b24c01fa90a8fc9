/**
 * Template lookup with JavaScript `||` fallback:
 * `patterns[lang] || patterns['plaintext'] || literal`.
 * A missing key reads as `undefined` and an empty string is falsy, so both
 * fall through to the next choice.
 */
module Templates {
  import opened Wrappers

  /** The key of the default entry in a template mapping. */
  const Plaintext := "plaintext"

  /** Hard-coded header template used when the configuration has none. */
  const DefaultHeaderTemplate := "# ${name} ----"

  /** Hard-coded rule template used when the configuration has none. */
  const DefaultRuleTemplate := "# ------------------------------"

  /** Section name used when neither the selection nor the prompt gives one. */
  const DefaultSectionName := "Section"

  /** Target line length used when the setting is absent. */
  const DefaultTargetLineLength := 80

  /** `m[key]` on a JavaScript record: `undefined` when the key is missing. */
  function Lookup(m: map<string, string>, key: string): Option<string>
  {
    if key in m then Some(m[key]) else None
  }

  /** JavaScript truthiness of a `string | undefined`. */
  predicate Truthy(v: Option<string>)
  {
    v.Some? && v.value != ""
  }

  /** JavaScript `a || b` on `string | undefined` operands. */
  function Or(a: Option<string>, b: Option<string>): Option<string>
  {
    if Truthy(a) then a else b
  }

  /** The entry for `key` is present and non-empty. */
  predicate HasEntry(m: map<string, string>, key: string)
  {
    key in m && m[key] != ""
  }

  /**
   * `m[lang] || m['plaintext'] || fallback`: the entry for the language if it
   * is present and non-empty, else the plaintext entry under the same
   * condition, else the literal.
   */
  function Resolve(m: map<string, string>, lang: string, fallback: string): (t: string)
    ensures HasEntry(m, lang) ==> t == m[lang]
    ensures !HasEntry(m, lang) && HasEntry(m, Plaintext) ==> t == m[Plaintext]
    ensures !HasEntry(m, lang) && !HasEntry(m, Plaintext) ==> t == fallback
    ensures fallback != "" ==> t != ""
    ensures t == fallback || t in m.Values
  {
    var v := Or(Or(Lookup(m, lang), Lookup(m, Plaintext)), Some(fallback));
    v.value
  }

  /** `cfg.get<Record<string, string>>(key) ?? {}`. */
  function ConfiguredMap(setting: Option<map<string, string>>): (m: map<string, string>)
    ensures setting.None? ==> m == map[]
    ensures setting.Some? ==> m == setting.value
  {
    setting.GetOr(map[])
  }

  /** `cfg.get<number>('sectionHeaders.targetLineLength') ?? 80`. */
  function ConfiguredWidth(setting: Option<int>): (w: int)
    ensures setting.None? ==> w == DefaultTargetLineLength
    ensures setting.Some? ==> w == setting.value
  {
    setting.GetOr(DefaultTargetLineLength)
  }

  /** The header template for a language, as both command handlers compute it. */
  function HeaderTemplate(patterns: Option<map<string, string>>, lang: string): (t: string)
    ensures t != ""
    ensures patterns.Some? && HasEntry(patterns.value, lang) ==> t == patterns.value[lang]
  {
    Resolve(ConfiguredMap(patterns), lang, DefaultHeaderTemplate)
  }

  /** The rule template for a language, as both command handlers compute it. */
  function RuleTemplate(rules: Option<map<string, string>>, lang: string): (t: string)
    ensures t != ""
    ensures rules.Some? && HasEntry(rules.value, lang) ==> t == rules.value[lang]
  {
    Resolve(ConfiguredMap(rules), lang, DefaultRuleTemplate)
  }

  /** Without any configured mapping both commands use their literals. */
  lemma UnconfiguredUsesLiterals(lang: string)
    ensures HeaderTemplate(None, lang) == DefaultHeaderTemplate
    ensures RuleTemplate(None, lang) == DefaultRuleTemplate
    ensures HeaderTemplate(Some(map[]), lang) == DefaultHeaderTemplate
    ensures RuleTemplate(Some(map[]), lang) == DefaultRuleTemplate
  {
  }

  /**
   * An empty entry behaves exactly like a missing one: this is the `||`
   * fall-through, which `??` would not have.
   */
  lemma {:induction false} EmptyEntryFallsThrough(m: map<string, string>, key: string, lang: string, fallback: string)
    requires key !in m
    ensures Resolve(m[key := ""], lang, fallback) == Resolve(m, lang, fallback)
  {
    var m' := m[key := ""];
    assert HasEntry(m', lang) <==> HasEntry(m, lang);
    assert HasEntry(m', Plaintext) <==> HasEntry(m, Plaintext);
  }
}
