/**
 * `LuaGenerator`: renders the table of highlight groups as a Neovim Lua
 * module. Every colour is composited over the editor background; every
 * group becomes one entry of the `highlights` table, in the map's
 * iteration order; the text around the entries is fixed.
 */
module LuaGen {
  import opened Wrappers
  import opened Strings
  import opened Types
  import opened Color
  import opened Iteration
  import opened ThemeInfo

  const BackgroundKey := "editor.background"

  /** The table key of a group: a name holding '@' is quoted and bracketed, any other is bare. */
  function GroupKey(group: string): (key: string)
    ensures key == group <==> '@' !in group
    ensures '@' in group ==> |key| == |group| + 4 && key[2..|key| - 2] == group
  {
    if '@' in group then "[\"" + group + "\"]" else group
  }

  /** One colour field, e.g. `fg = "#rrggbb"`: present only when the colour composites over `bg`. */
  function ColourField(prefix: string, c: Option<string>, bg: string): seq<string>
  {
    if c.Some? && NormalizeColor(c.value, bg).Ok? then [prefix + NormalizeColor(c.value, bg).value + "\""] else []
  }

  /**
   * A colour field is written exactly when both the colour and the
   * background parse; an opaque colour is written as its own RGB.
   */
  lemma ColourFieldMeaning(prefix: string, c: Option<string>, bg: string)
    ensures |ColourField(prefix, c, bg)| <= 1
    ensures |ColourField(prefix, c, bg)| == 1 <==> c.Some? && ParseColor(c.value).Ok? && ParseColor(bg).Ok?
    ensures |ColourField(prefix, c, bg)| == 1 && ParseColor(c.value).value.a == 255 ==>
              var p := ParseColor(c.value).value;
              ColourField(prefix, c, bg)[0] == prefix + Hex6(p.r, p.g, p.b) + "\""
  {
    if c.Some? && ParseColor(c.value).Ok? && ParseColor(bg).Ok? && ParseColor(c.value).value.a == 255 {
      NormalizeOpaque(c.value, bg);
    }
  }

  /** A style field when its flag is set; an absent flag is unset. */
  function FlagField(b: Option<bool>, field: string): seq<string>
  {
    if b == Some(true) then [field] else []
  }

  /** The fields of one entry: fg, bg, sp, then the set flags; `link` is not among them. */
  function Fields(h: HighlightGroup, bg: string): seq<string>
  {
    ColourField("fg = \"", h.fg, bg) + ColourField("bg = \"", h.bg, bg) + ColourField("sp = \"", h.sp, bg) +
    FlagField(h.bold, "bold = true") + FlagField(h.italic, "italic = true") +
    FlagField(h.underline, "underline = true") + FlagField(h.undercurl, "undercurl = true") +
    FlagField(h.strikethrough, "strikethrough = true")
  }

  /** `format_highlight_table`, as the entry it returns. */
  function Entry(group: string, h: HighlightGroup, bg: string): string
  {
    "    " + GroupKey(group) + " = { " + Join(Fields(h, bg), ", ") + " },\n"
  }

  /** `format_highlight_table`: reads the editor background (which must exist) and pushes the fields in order. */
  method FormatHighlightTable(theme: ThemeConfig, group: string, h: HighlightGroup) returns (entry: string)
    requires BackgroundKey in theme.colors
    ensures entry == Entry(group, h, theme.colors[BackgroundKey])
  {
    var bg := theme.colors[BackgroundKey];
    var parts := CollectColours(h, bg);
    parts := CollectFlags(parts, h);
    var key := if '@' in group then "[\"" + group + "\"]" else group;
    entry := "    " + key + " = { " + Join(parts, ", ") + " },\n";
  }

  /** The colour pushes of `format_highlight_table`. */
  method CollectColours(h: HighlightGroup, bg: string) returns (parts: seq<string>)
    ensures parts == ColourField("fg = \"", h.fg, bg) + ColourField("bg = \"", h.bg, bg) + ColourField("sp = \"", h.sp, bg)
  {
    parts := [];
    if h.fg.Some? {
      var n := NormalizeColor(h.fg.value, bg);
      if n.Ok? {
        parts := parts + ["fg = \"" + n.value + "\""];
      }
    }
    assert parts == ColourField("fg = \"", h.fg, bg);
    if h.bg.Some? {
      var n := NormalizeColor(h.bg.value, bg);
      if n.Ok? {
        parts := parts + ["bg = \"" + n.value + "\""];
      }
    }
    assert parts == ColourField("fg = \"", h.fg, bg) + ColourField("bg = \"", h.bg, bg);
    if h.sp.Some? {
      var n := NormalizeColor(h.sp.value, bg);
      if n.Ok? {
        parts := parts + ["sp = \"" + n.value + "\""];
      }
    }
  }

  /** The flag pushes of `format_highlight_table`. */
  method CollectFlags(prefix: seq<string>, h: HighlightGroup) returns (parts: seq<string>)
    ensures parts == prefix + FlagField(h.bold, "bold = true") + FlagField(h.italic, "italic = true") +
                     FlagField(h.underline, "underline = true") + FlagField(h.undercurl, "undercurl = true") +
                     FlagField(h.strikethrough, "strikethrough = true")
  {
    parts := prefix;
    if h.bold == Some(true) {
      parts := parts + ["bold = true"];
    }
    if h.italic == Some(true) {
      parts := parts + ["italic = true"];
    }
    assert parts == prefix + FlagField(h.bold, "bold = true") + FlagField(h.italic, "italic = true");
    if h.underline == Some(true) {
      parts := parts + ["underline = true"];
    }
    if h.undercurl == Some(true) {
      parts := parts + ["undercurl = true"];
    }
    assert parts == prefix + FlagField(h.bold, "bold = true") + FlagField(h.italic, "italic = true") +
                    FlagField(h.underline, "underline = true") + FlagField(h.undercurl, "undercurl = true");
    if h.strikethrough == Some(true) {
      parts := parts + ["strikethrough = true"];
    }
  }

  /** The link of a group plays no part in its entry. */
  lemma EntryIgnoresLink(group: string, h: HighlightGroup, bg: string)
    ensures Entry(group, h, bg) == Entry(group, h.(link := None), bg)
  {
  }

  /** A group with no valid colour and no flag set gets an empty entry: there is no "NONE" marker. */
  lemma EmptyEntry(group: string, bg: string)
    ensures Entry(group, EmptyGroup, bg) == "    " + GroupKey(group) + " = {  },\n"
  {
  }

  /** The fixed text before the entries. */
  function Header(theme: ThemeConfig): string
  {
    Unlines([
      "-- Name: " + theme.name,
      "",
      "local M = {}",
      "",
      "function M.setup()",
      "  vim.cmd('hi clear')",
      "  if vim.fn.exists('syntax_on') then",
      "    vim.cmd('syntax reset')",
      "  end",
      "  vim.g.colors_name = \"" + SanitizeName(theme.name) + "\"",
      "  vim.o.termguicolors = true",
      "  vim.o.background = \"" + BackgroundTone(theme) + "\"",
      "",
      "  -- Define highlight groups",
      "  local highlights = {"
    ])
  }

  /** The fixed text after the entries: the loop that applies them and the helper it calls. */
  const Footer: string := Unlines([
    "  }",
    "",
    "  -- Set highlights",
    "  for group, styles in pairs(highlights) do",
    "    M.highlight(group, styles)",
    "  end",
    "end",
    "",
    "-- Helper function to set highlights",
    "function M.highlight(group, styles)",
    "  vim.api.nvim_set_hl(0, group, {",
    "    fg = styles.fg,",
    "    bg = styles.bg,",
    "    sp = styles.sp,",
    "    bold = styles.bold,",
    "    italic = styles.italic,",
    "    underline = styles.underline,",
    "    undercurl = styles.undercurl,",
    "    strikethrough = styles.strikethrough,",
    "    link = styles.link,",
    "  })",
    "end",
    "",
    "return M"
  ])

  /** The entry of each group of `order`, in order. */
  function Entries(theme: ThemeConfig, hl: Highlights, order: seq<string>): (entries: seq<string>)
    requires forall g :: g in order ==> g in hl
    requires order != [] ==> BackgroundKey in theme.colors
    ensures |entries| == |order|
    ensures forall i :: 0 <= i < |order| ==> entries[i] == Entry(order[i], hl[order[i]], theme.colors[BackgroundKey])
  {
    seq(|order|, i requires 0 <= i < |order| => Entry(order[i], hl[order[i]], theme.colors[BackgroundKey]))
  }

  /** The whole module for the group iteration order `order`. */
  function Script(theme: ThemeConfig, hl: Highlights, order: seq<string>): string
    requires Enumerates(order, hl.Keys)
    requires hl != map[] ==> BackgroundKey in theme.colors
  {
    assert order != [] ==> order[0] in hl;
    Header(theme) + Concat(Entries(theme, hl, order)) + Footer
  }

  /** `content` is the module of `hl` for some order in which the table can be iterated. */
  ghost predicate Renders(theme: ThemeConfig, hl: Highlights, content: string)
  {
    && (hl != map[] ==> BackgroundKey in theme.colors)
    && exists order :: Enumerates(order, hl.Keys) && content == Script(theme, hl, order)
  }

  /**
   * `generate`: the header, one entry per group in iteration order, the
   * footer. The background is read once per entry and `unwrap`ped, so a
   * non-empty table needs it.
   */
  method Generate(theme: ThemeConfig, hl: Highlights) returns (content: string)
    requires hl != map[] ==> BackgroundKey in theme.colors
    ensures Renders(theme, hl, content)
  {
    var order := IterationOrder(hl.Keys);
    assert order != [] ==> order[0] in hl;
    content := WriteEntries(Header(theme), theme, hl, order);
    content := content + Footer;
  }

  /** The loop of `generate`: one entry per group of `order`, appended to `prefix`. */
  method WriteEntries(prefix: string, theme: ThemeConfig, hl: Highlights, order: seq<string>) returns (content: string)
    requires forall g :: g in order ==> g in hl
    requires order != [] ==> BackgroundKey in theme.colors
    ensures content == prefix + Concat(Entries(theme, hl, order))
  {
    content := prefix;
    assert order[..0] == [];
    for i := 0 to |order|
      invariant content == prefix + Concat(Entries(theme, hl, order[..i]))
    {
      var g := order[i];
      var entry := FormatHighlightTable(theme, g, hl[g]);
      PushEntry(prefix, theme, hl, order, i);
      content := content + entry;
    }
    assert order[..|order|] == order;
  }

  /** Appending the entry of `order[i]` after those of `order[..i]`. */
  lemma PushEntry(prefix: string, theme: ThemeConfig, hl: Highlights, order: seq<string>, i: nat)
    requires i < |order| && (forall g :: g in order ==> g in hl) && BackgroundKey in theme.colors
    ensures prefix + Concat(Entries(theme, hl, order[..i])) + Entry(order[i], hl[order[i]], theme.colors[BackgroundKey]) ==
            prefix + Concat(Entries(theme, hl, order[..i + 1]))
  {
    var e := Entries(theme, hl, order[..i + 1]);
    assert e[..i] == Entries(theme, hl, order[..i]);
  }

  /** Every group of the table gets exactly one entry. */
  lemma OneEntryPerGroup(theme: ThemeConfig, hl: Highlights, order: seq<string>)
    requires Enumerates(order, hl.Keys) && (order != [] ==> BackgroundKey in theme.colors)
    ensures |Entries(theme, hl, order)| == |hl|
    ensures forall g :: g in hl ==>
              exists i :: 0 <= i < |order| && order[i] == g &&
                          Entries(theme, hl, order)[i] == Entry(g, hl[g], theme.colors[BackgroundKey])
  {
    EnumerationSize(order, hl.Keys);
    assert |hl.Keys| == |hl|;
  }
}
