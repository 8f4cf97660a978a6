/**
 * `ThemeConverter`: holds a parsed VSCode theme and the options of one
 * conversion, fills its table of highlight groups pass by pass, then asks
 * the generators for the Vim script and the Lua module. Each pass is
 * proved to compute the function `Resolution` gives for it, so `Convert`
 * leaves exactly `Resolve` of the table it started from.
 */
module Converter {
  import opened Wrappers
  import opened Types
  import opened Iteration
  import opened ThemeInfo
  import opened Mapping
  import opened Resolution
  import VimGen
  import LuaGen

  /** Which files a conversion produces. */
  datatype OutputFormat = Vim | Lua | Both

  datatype ConversionOptions = ConversionOptions(
    outputFormat: OutputFormat,
    customName: Option<string>,
    includeTreesitter: bool,
    includeLsp: bool)

  predicate WantsVim(f: OutputFormat)
  {
    f == Vim || f == Both
  }

  predicate WantsLua(f: OutputFormat)
  {
    f == Lua || f == Both
  }

  class ThemeConverter {
    const theme: ThemeConfig
    const options: ConversionOptions
    var highlights: Highlights
    var vimContent: Option<string>
    var luaContent: Option<string>

    /** `new`: an empty table and no generated content yet. */
    constructor (theme: ThemeConfig, options: ConversionOptions)
      ensures this.theme == theme && this.options == options
      ensures highlights == map[] && vimContent == None && luaContent == None
    {
      this.theme := theme;
      this.options := options;
      highlights := map[];
      vimContent := None;
      luaContent := None;
    }

    /**
     * `convert`: basic, editor, syntax and treesitter passes, then the
     * requested contents. The scope table's and the semantic tokens'
     * iteration orders are the program's to choose; the ghost results
     * name the pair this run met, and the table is `Resolve` for them. The
     * Lua generator reads the editor
     * background unconditionally, and after the passes the table is never
     * empty, so Lua output needs that colour.
     */
    method Convert() returns (ghost entries: GroupTable, ghost torder: seq<string>)
      requires WantsLua(options.outputFormat) ==> LuaGen.BackgroundKey in theme.colors
      modifies this
      ensures SyntaxOrders(theme, entries, torder)
      ensures highlights == Resolve(theme, old(highlights), entries, torder)
      ensures "Normal" in highlights
      ensures WantsVim(options.outputFormat) ==> VimWritten()
      ensures !WantsVim(options.outputFormat) ==> vimContent == old(vimContent)
      ensures WantsLua(options.outputFormat) ==> LuaWritten()
      ensures !WantsLua(options.outputFormat) ==> luaContent == old(luaContent)
    {
      entries, torder := ApplyMappings();
      ResolveKeepsGroups(theme, old(highlights), entries, torder);
      GenerateContent();
    }

    /** The four passes of `convert`, which together compute `Resolve`. */
    method ApplyMappings() returns (entries: GroupTable, torder: seq<string>)
      modifies this
      ensures SyntaxOrders(theme, entries, torder)
      ensures highlights == Resolve(theme, old(highlights), entries, torder)
      ensures vimContent == old(vimContent) && luaContent == old(luaContent)
    {
      ApplyBasicMappings();
      ApplyEditorMappings();
      entries, torder := ApplySyntaxMappings();
      ApplyTreesitterMappings();
    }

    /** `get_highlights`: the table as it stands. */
    method GetHighlights() returns (r: Highlights)
      ensures r == highlights
    {
      r := highlights;
    }

    /** `apply_basic_mappings`: `Normal` gets the editor colours, or the defaults of the theme's tone. */
    method ApplyBasicMappings()
      modifies this
      ensures highlights == old(highlights)["Normal" := NormalGroup(theme)]
      ensures vimContent == old(vimContent) && luaContent == old(luaContent)
    {
      var isDark := ConverterIsDark(theme);
      var fg := if "editor.foreground" in theme.colors then theme.colors["editor.foreground"]
                else if isDark then DefaultDarkFg else DefaultFg;
      var bg := if "editor.background" in theme.colors then theme.colors["editor.background"]
                else if isDark then DefaultDarkBg else DefaultBg;
      AddHighlight("Normal", EmptyGroup.(fg := Some(fg), bg := Some(bg)));
    }

    /** `apply_editor_mappings`: the editor table's rows in declaration order. */
    method ApplyEditorMappings()
      modifies this
      ensures highlights == EditorPass(theme.colors, EditorMappings, old(highlights))
      ensures vimContent == old(vimContent) && luaContent == old(luaContent)
    {
      ApplyEditorRows(EditorMappings);
    }

    /** Each row whose colour key the theme has sets one attribute of one group. */
    method ApplyEditorRows(rows: seq<EditorMapping>)
      modifies this
      ensures highlights == EditorPass(theme.colors, rows, old(highlights))
      ensures vimContent == old(vimContent) && luaContent == old(luaContent)
    {
      ghost var start := highlights;
      for i := 0 to |rows|
        invariant highlights == EditorPass(theme.colors, rows[..i], start)
        invariant vimContent == old(vimContent) && luaContent == old(luaContent)
      {
        assert rows[..i + 1][..i] == rows[..i];
        var row := rows[i];
        if row.key in theme.colors {
          AddHighlightAttr(row.group, row.attr, theme.colors[row.key]);
        }
      }
      assert rows[..|rows|] == rows;
    }

    /**
     * `apply_syntax_mappings`: the token-colour rules in the theme's order,
     * then the semantic token styles in the map's iteration order. Returns
     * the two iteration orders it met.
     */
    method ApplySyntaxMappings() returns (entries: GroupTable, torder: seq<string>)
      modifies this
      ensures SyntaxOrders(theme, entries, torder)
      ensures highlights == SyntaxPass(theme, old(highlights), entries, torder)
      ensures vimContent == old(vimContent) && luaContent == old(luaContent)
    {
      entries := IterateTable(TextmateScopeMappings);
      ApplyTokenRules(entries, theme.tokenColors);
      torder := [];
      if theme.semanticTokenColors.Some? {
        var tokens := theme.semanticTokenColors.value;
        torder := IterationOrder(tokens.Keys);
        ApplySemanticTokens(tokens, torder);
      }
    }

    /** Every rule in turn. */
    method ApplyTokenRules(entries: GroupTable, rules: seq<TokenColor>)
      modifies this
      ensures highlights == TokenPass(old(highlights), entries, rules)
      ensures vimContent == old(vimContent) && luaContent == old(luaContent)
    {
      ghost var start := highlights;
      for k := 0 to |rules|
        invariant highlights == TokenPass(start, entries, rules[..k])
        invariant vimContent == old(vimContent) && luaContent == old(luaContent)
      {
        assert rules[..k + 1][..k] == rules[..k];
        ApplyTokenRule(entries, rules[k]);
      }
      assert rules[..|rules|] == rules;
    }

    /** One rule: each of its scopes, each group the scope maps to, gets the rule's foreground and background. */
    method ApplyTokenRule(entries: GroupTable, rule: TokenColor)
      modifies this
      ensures highlights == InsertAll(old(highlights), ScopeGroups(entries, ScopesOf(rule.scope)), RuleGroup(rule.settings))
      ensures vimContent == old(vimContent) && luaContent == old(luaContent)
    {
      var highlight := EmptyGroup;
      if rule.settings.foreground.Some? {
        highlight := highlight.(fg := rule.settings.foreground);
      }
      if rule.settings.background.Some? {
        highlight := highlight.(bg := rule.settings.background);
      }
      assert highlight == RuleGroup(rule.settings);
      match rule.scope
      case Single(scope) =>
        assert [scope][..0] == [];
        assert ScopeGroups(entries, [scope]) == GroupsOf(GroupsForScope(entries, scope));
        ApplyScope(entries, scope, highlight);
      case Multiple(scopes) =>
        ApplyScopes(entries, scopes, highlight);
    }

    /** The scopes of a rule in order, each through `ApplyScope`. */
    method ApplyScopes(entries: GroupTable, scopes: seq<string>, highlight: HighlightGroup)
      modifies this
      ensures highlights == InsertAll(old(highlights), ScopeGroups(entries, scopes), highlight)
      ensures vimContent == old(vimContent) && luaContent == old(luaContent)
    {
      ghost var start := highlights;
      for j := 0 to |scopes|
        invariant highlights == InsertAll(start, ScopeGroups(entries, scopes[..j]), highlight)
        invariant vimContent == old(vimContent) && luaContent == old(luaContent)
      {
        assert scopes[..j + 1][..j] == scopes[..j];
        ApplyScope(entries, scopes[j], highlight);
        InsertAllAppend(start, ScopeGroups(entries, scopes[..j]), GroupsOf(GroupsForScope(entries, scopes[j])), highlight);
      }
      assert scopes[..|scopes|] == scopes;
    }

    /** One scope: the groups `get_vim_groups_for_scope` returns for it, if any, get `highlight`. */
    method ApplyScope(entries: GroupTable, scope: string, highlight: HighlightGroup)
      modifies this
      ensures highlights == InsertAll(old(highlights), GroupsOf(GroupsForScope(entries, scope)), highlight)
      ensures vimContent == old(vimContent) && luaContent == old(luaContent)
    {
      var found := GroupsForScope(entries, scope);
      if found.Some? {
        InsertGroups(found.value, highlight);
      }
    }

    /** `HashMap::insert` of one record under each name, in order. */
    method InsertGroups(groups: seq<string>, h: HighlightGroup)
      modifies this
      ensures highlights == InsertAll(old(highlights), groups, h)
      ensures vimContent == old(vimContent) && luaContent == old(luaContent)
    {
      ghost var start := highlights;
      for j := 0 to |groups|
        invariant highlights == InsertAll(start, groups[..j], h)
        invariant vimContent == old(vimContent) && luaContent == old(luaContent)
      {
        assert groups[..j + 1][..j] == groups[..j];
        AddHighlight(groups[j], h);
      }
      assert groups[..|groups|] == groups;
    }

    /** The semantic token styles, in iteration order `torder`: each type's groups get its foreground. */
    method ApplySemanticTokens(tokens: map<string, SemanticSetting>, torder: seq<string>)
      requires forall t :: t in torder ==> t in tokens
      modifies this
      ensures highlights == SemanticPass(old(highlights), tokens, torder)
      ensures vimContent == old(vimContent) && luaContent == old(luaContent)
    {
      ghost var start := highlights;
      for k := 0 to |torder|
        invariant highlights == SemanticPass(start, tokens, torder[..k])
        invariant vimContent == old(vimContent) && luaContent == old(luaContent)
      {
        assert torder[..k + 1][..k] == torder[..k];
        var style := tokens[torder[k]];
        var found := GroupsForSemanticToken(torder[k]);
        if found.Some? {
          var highlight := EmptyGroup;
          if style.foreground.Some? {
            highlight := highlight.(fg := style.foreground);
          }
          assert highlight == SemanticGroup(style);
          InsertGroups(found.value, highlight);
        } else {
          assert InsertAll(highlights, [], SemanticGroup(style)) == highlights;
        }
      }
      assert torder[..|torder|] == torder;
    }

    /** `apply_treesitter_mappings`: alias records collected against the table as it was, then merged in. */
    method ApplyTreesitterMappings()
      modifies this
      ensures highlights == AliasPass(old(highlights))
      ensures vimContent == old(vimContent) && luaContent == old(luaContent)
    {
      var newHighlights := CollectAliases(TreesitterMappings);
      highlights := highlights + newHighlights;
    }

    /** The alias records of `rows`, each alias mapped to a copy of its base's record. */
    method CollectAliases(rows: GroupTable) returns (newHighlights: Highlights)
      ensures newHighlights == InsertEach(map[], AliasWrites(highlights, rows))
    {
      newHighlights := map[];
      for i := 0 to |rows|
        invariant newHighlights == InsertEach(map[], AliasWrites(highlights, rows[..i]))
      {
        assert rows[..i + 1][..i] == rows[..i];
        assert AliasWrites(highlights, rows[..i + 1]) == AliasWrites(highlights, rows[..i]) + RowWrites(highlights, rows[i]);
        newHighlights := CollectRow(AliasWrites(highlights, rows[..i]), rows[i], newHighlights);
      }
      assert rows[..|rows|] == rows;
    }

    /** One treesitter row: when its base is present, each alias gets a copy of the base's record. */
    method CollectRow(ghost done: seq<(string, HighlightGroup)>, row: (string, seq<string>), acc: Highlights)
      returns (newHighlights: Highlights)
      requires acc == InsertEach(map[], done)
      ensures newHighlights == InsertEach(map[], done + RowWrites(highlights, row))
    {
      newHighlights := acc;
      ghost var w := RowWrites(highlights, row);
      if row.0 in highlights {
        var highlight := highlights[row.0];
        assert done + w[..0] == done;
        for p := 0 to |row.1|
          invariant newHighlights == InsertEach(map[], done + w[..p])
        {
          InsertEachStep(map[], done, w, p);
          newHighlights := newHighlights[row.1[p] := highlight];
        }
        assert w[..|row.1|] == w;
      } else {
        assert w == [];
        assert done + w == done;
      }
    }

    /**
     * `generate_content`: the Vim script when the format asks for it, the
     * Lua module when the format asks for it; the other stays as it was.
     */
    method GenerateContent()
      requires WantsLua(options.outputFormat) && highlights != map[] ==> LuaGen.BackgroundKey in theme.colors
      modifies this
      ensures highlights == old(highlights)
      ensures WantsVim(options.outputFormat) ==> VimWritten()
      ensures !WantsVim(options.outputFormat) ==> vimContent == old(vimContent)
      ensures WantsLua(options.outputFormat) ==> LuaWritten()
      ensures !WantsLua(options.outputFormat) ==> luaContent == old(luaContent)
    {
      if WantsVim(options.outputFormat) {
        GenerateVim();
      }
      if WantsLua(options.outputFormat) {
        GenerateLua();
      }
    }

    /** The Vim content is the script of the current table, for some iteration order of it. */
    ghost predicate VimWritten()
      reads this
    {
      vimContent.Some? && VimGen.Renders(theme, highlights, vimContent.value)
    }

    /** The Lua content is the module of the current table, for some iteration order of it. */
    ghost predicate LuaWritten()
      reads this
    {
      luaContent.Some? && LuaGen.Renders(theme, highlights, luaContent.value)
    }

    /** `VimGenerator::generate` on the current table, stored as the Vim content. */
    method GenerateVim()
      modifies this
      ensures highlights == old(highlights) && luaContent == old(luaContent)
      ensures VimWritten()
    {
      var hl := highlights;
      var content := VimGen.Generate(theme, hl);
      vimContent := Some(content);
      assert highlights == hl;
    }

    /** `LuaGenerator::generate` on the current table, stored as the Lua content. */
    method GenerateLua()
      requires highlights != map[] ==> LuaGen.BackgroundKey in theme.colors
      modifies this
      ensures highlights == old(highlights) && vimContent == old(vimContent)
      ensures LuaWritten()
    {
      var content := LuaGen.Generate(theme, highlights);
      luaContent := Some(content);
    }

    /** `add_highlight`: insert, replacing any record the group had. */
    method AddHighlight(group: string, h: HighlightGroup)
      modifies this
      ensures highlights == old(highlights)[group := h]
      ensures vimContent == old(vimContent) && luaContent == old(luaContent)
    {
      highlights := highlights[group := h];
    }

    /** `add_highlight_attr`: the group's record (the default one if absent) gets one colour attribute. */
    method AddHighlightAttr(group: string, attr: string, value: string)
      modifies this
      ensures highlights == SetAttr(old(highlights), group, attr, value)
      ensures vimContent == old(vimContent) && luaContent == old(luaContent)
    {
      var highlight := if group in highlights then highlights[group] else EmptyGroup;
      if attr == "fg" {
        highlight := highlight.(fg := Some(value));
      } else if attr == "bg" {
        highlight := highlight.(bg := Some(value));
      } else if attr == "sp" {
        highlight := highlight.(sp := Some(value));
      }
      highlights := highlights[group := highlight];
    }
  }
}
