/** The records the converter reads (the decoded theme) and builds (highlight groups). */
module Types {
  import opened Wrappers

  /**
   * One highlight group of the target editor. Colours are kept as the
   * theme wrote them; the renderers validate them. When `link` is set the
   * Vim renderer ignores every other field.
   */
  datatype HighlightGroup = HighlightGroup(
    fg: Option<string>,
    bg: Option<string>,
    sp: Option<string>,
    bold: Option<bool>,
    italic: Option<bool>,
    underline: Option<bool>,
    undercurl: Option<bool>,
    strikethrough: Option<bool>,
    link: Option<string>)

  /** `HashMap<String, HighlightGroup>`: group name to its definition. */
  type Highlights = map<string, HighlightGroup>

  /** `HighlightGroup::default()`: every field absent. */
  const EmptyGroup := HighlightGroup(None, None, None, None, None, None, None, None, None)

  /** The `scope` of a token-colour rule: one scope string or a list of them. */
  datatype TokenScope = Single(scope: string) | Multiple(scopes: seq<string>)

  /** The scope strings a rule names, in the order it names them. */
  function ScopesOf(s: TokenScope): seq<string>
  {
    match s
    case Single(one) => [one]
    case Multiple(many) => many
  }

  datatype TokenSettings = TokenSettings(
    foreground: Option<string>,
    background: Option<string>,
    fontStyle: Option<string>)

  datatype TokenColor = TokenColor(name: Option<string>, scope: TokenScope, settings: TokenSettings)

  datatype SemanticSetting = SemanticSetting(foreground: Option<string>, fontStyle: Option<string>)

  /** The decoded theme file. `semanticTokenColors` maps a token type to its setting. */
  datatype ThemeConfig = ThemeConfig(
    name: string,
    themeType: string,
    colors: map<string, string>,
    semanticHighlighting: bool,
    semanticTokenColors: Option<map<string, SemanticSetting>>,
    tokenColors: seq<TokenColor>)
}
