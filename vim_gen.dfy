/**
 * `VimGenerator`: renders the table of highlight groups as a Vim script.
 * The header and the default links are fixed text; each group becomes
 * one `hi` line, "Normal" first, the others in the map's iteration order.
 */
module VimGen {
  import opened Wrappers
  import opened Strings
  import opened Types
  import opened Color
  import opened Iteration
  import opened ThemeInfo

  /** `DEFAULT_LINKS`: (group, target) links written for groups the table lacks. */
  const DefaultLinks: seq<(string, string)> := [
    ("Conceal", "NonText"),
    ("Ignore", "NonText"),
    ("Debug", "Special"),
    ("Italic", "Normal"),
    ("StatusLineTerm", "StatusLine"),
    ("StatusLineTermNC", "StatusLineNC"),
    ("VisualNOS", "Visual")
  ]

  /** One colour attribute of a `hi` line, e.g. `guifg=#rrggbb`: present only when the colour normalises. */
  function ColourPart(prefix: string, c: Option<string>): seq<string>
  {
    if c.Some? && NormalizeColor(c.value, c.value).Ok? then [prefix + NormalizeColor(c.value, c.value).value] else []
  }

  /**
   * A colour attribute is written exactly when the colour parses, and then
   * as the colour's own RGB: composited over itself, the alpha is dropped.
   */
  lemma ColourPartMeaning(prefix: string, c: Option<string>)
    ensures |ColourPart(prefix, c)| <= 1
    ensures |ColourPart(prefix, c)| == 1 <==> c.Some? && ParseColor(c.value).Ok?
    ensures |ColourPart(prefix, c)| == 1 ==>
              var p := ParseColor(c.value).value;
              ColourPart(prefix, c)[0] == prefix + Hex6(p.r, p.g, p.b)
  {
    if c.Some? && ParseColor(c.value).Ok? {
      NormalizeSelf(c.value);
    }
  }

  /** The colour attributes of a `hi` line: fg, bg, sp in that order. */
  function ColourParts(h: HighlightGroup): seq<string>
  {
    ColourPart("guifg=", h.fg) + ColourPart("guibg=", h.bg) + ColourPart("guisp=", h.sp)
  }

  /** A style word when its flag is set; `unwrap_or(false)` makes an absent flag unset. */
  function Flag(b: Option<bool>, word: string): seq<string>
  {
    if b == Some(true) then [word] else []
  }

  predicate AnyFlag(h: HighlightGroup)
  {
    h.bold == Some(true) || h.italic == Some(true) || h.underline == Some(true) ||
    h.undercurl == Some(true) || h.strikethrough == Some(true)
  }

  /** The set style words, in the order bold, italic, underline, undercurl, strikethrough. */
  function StyleWords(h: HighlightGroup): seq<string>
  {
    Flag(h.bold, "bold") + Flag(h.italic, "italic") + Flag(h.underline, "underline") +
    Flag(h.undercurl, "undercurl") + Flag(h.strikethrough, "strikethrough")
  }

  /** A style word is written exactly when its flag is set; none is written when no flag is. */
  lemma StyleWordsMeaning(h: HighlightGroup)
    ensures StyleWords(h) == [] <==> !AnyFlag(h)
    ensures forall w :: w in StyleWords(h) <==>
              (w == "bold" && h.bold == Some(true)) || (w == "italic" && h.italic == Some(true)) ||
              (w == "underline" && h.underline == Some(true)) || (w == "undercurl" && h.undercurl == Some(true)) ||
              (w == "strikethrough" && h.strikethrough == Some(true))
  {
  }

  /** The value of the `gui=` attribute. */
  function StyleClause(h: HighlightGroup): string
  {
    if StyleWords(h) == [] then "NONE" else Join(StyleWords(h), ",")
  }

  /** `format_highlight_group`, as the line it returns. */
  function GroupLine(group: string, h: HighlightGroup): string
  {
    if h.link.Some? then "hi link " + group + " " + h.link.value
    else "hi " + group + " " + Join(ColourParts(h) + ["gui=" + StyleClause(h)], " ")
  }

  /** `format_highlight_group`: a link line, or the attributes collected step by step. */
  method FormatHighlightGroup(group: string, h: HighlightGroup) returns (line: string)
    ensures line == GroupLine(group, h)
  {
    if h.link.Some? {
      return "hi link " + group + " " + h.link.value;
    }
    var parts := CollectColours(h);
    var style := CollectStyle(h);
    parts := parts + ["gui=" + style];
    line := "hi " + group + " " + Join(parts, " ");
  }

  /** The first half of `format_highlight_group`: push each colour that normalises. */
  method CollectColours(h: HighlightGroup) returns (parts: seq<string>)
    ensures parts == ColourParts(h)
  {
    parts := [];
    if h.fg.Some? {
      var n := NormalizeColor(h.fg.value, h.fg.value);
      if n.Ok? {
        parts := parts + ["guifg=" + n.value];
      }
    }
    assert parts == ColourPart("guifg=", h.fg);
    if h.bg.Some? {
      var n := NormalizeColor(h.bg.value, h.bg.value);
      if n.Ok? {
        parts := parts + ["guibg=" + n.value];
      }
    }
    assert parts == ColourPart("guifg=", h.fg) + ColourPart("guibg=", h.bg);
    if h.sp.Some? {
      var n := NormalizeColor(h.sp.value, h.sp.value);
      if n.Ok? {
        parts := parts + ["guisp=" + n.value];
      }
    }
  }

  /** The second half of `format_highlight_group`: push each set style word, then join them or say "NONE". */
  method CollectStyle(h: HighlightGroup) returns (style: string)
    ensures style == StyleClause(h)
  {
    var styleParts: seq<string> := [];
    if h.bold == Some(true) {
      styleParts := styleParts + ["bold"];
    }
    if h.italic == Some(true) {
      styleParts := styleParts + ["italic"];
    }
    assert styleParts == Flag(h.bold, "bold") + Flag(h.italic, "italic");
    if h.underline == Some(true) {
      styleParts := styleParts + ["underline"];
    }
    if h.undercurl == Some(true) {
      styleParts := styleParts + ["undercurl"];
    }
    assert styleParts == Flag(h.bold, "bold") + Flag(h.italic, "italic") + Flag(h.underline, "underline") +
                         Flag(h.undercurl, "undercurl");
    if h.strikethrough == Some(true) {
      styleParts := styleParts + ["strikethrough"];
    }
    assert styleParts == StyleWords(h);
    style := if styleParts == [] then "NONE" else Join(styleParts, ",");
  }

  /** A linked group is written as a link and nothing else of it is looked at. */
  lemma LinkedLine(group: string, h: HighlightGroup, h': HighlightGroup)
    requires h.link.Some? && h'.link == h.link
    ensures GroupLine(group, h) == "hi link " + group + " " + h.link.value
    ensures GroupLine(group, h) == GroupLine(group, h')
  {
  }

  /** The style clause is "NONE" exactly when no flag is set, and otherwise the set words joined by ','. */
  lemma StyleClauseMeaning(h: HighlightGroup)
    ensures StyleClause(h) == "NONE" <==> !AnyFlag(h)
    ensures AnyFlag(h) ==> StyleClause(h) == Join(StyleWords(h), ",")
  {
    var words := StyleWords(h);
    StyleWordsMeaning(h);
    if words != [] {
      JoinStartsWithFirst(words, ",");
      assert words[0] in words;
      assert Join(words, ",")[0] == words[0][0];
    }
  }

  /**
   * An unlinked line starts with `hi <group> ` and ends with the `gui=`
   * clause, which follows the valid colour attributes.
   */
  lemma UnlinkedLineShape(group: string, h: HighlightGroup)
    requires h.link.None?
    ensures "hi " + group + " " <= GroupLine(group, h)
    ensures var line := GroupLine(group, h);
            var last := "gui=" + StyleClause(h);
            |last| <= |line| && line[|line| - |last|..] == last
    ensures |ColourParts(h)| <= 3
  {
    var parts := ColourParts(h) + ["gui=" + StyleClause(h)];
    JoinEndsWithLast(parts, " ");
    var line := GroupLine(group, h);
    assert line == ("hi " + group + " ") + Join(parts, " ");
  }

  /** The fixed opening of the script, up to the heading of the group lines. */
  function Header(theme: ThemeConfig): string
  {
    Unlines([
      "\" " + theme.name,
      "\" Converted from VSCode Theme",
      "\" Maintainer: Auto-generated",
      "",
      "set background=" + BackgroundTone(theme),
      "hi clear",
      "if exists(\"syntax_on\")",
      "  syntax reset",
      "endif",
      "",
      "let g:colors_name = \"" + SanitizeName(theme.name) + "\"",
      "",
      "\" Highlight groups"
    ])
  }

  /** The groups of `order` other than "Normal", in order. */
  function BodyGroups(order: seq<string>): (groups: seq<string>)
    ensures forall g :: g in groups <==> g in order && g != "Normal"
    ensures Distinct(order) ==> Distinct(groups)
    decreases |order|
  {
    if order == [] then []
    else
      var init := order[..|order| - 1];
      var last := order[|order| - 1];
      assert forall g :: g in order <==> g in init || g == last;
      assert Distinct(order) ==> last !in init;
      BodyGroups(init) + (if last != "Normal" then [last] else [])
  }

  /** The `hi` line of each of `groups`, in order. */
  function GroupLines(hl: Highlights, groups: seq<string>): (lines: seq<string>)
    requires forall g :: g in groups ==> g in hl
    ensures |lines| == |groups|
    ensures forall i :: 0 <= i < |groups| ==> lines[i] == GroupLine(groups[i], hl[groups[i]])
  {
    seq(|groups|, i requires 0 <= i < |groups| => GroupLine(groups[i], hl[groups[i]]))
  }

  /** The "Normal" line, when the table has that group. */
  function NormalLines(hl: Highlights): seq<string>
  {
    if "Normal" in hl then [GroupLine("Normal", hl["Normal"])] else []
  }

  /** The rows of `links` whose group the table lacks, in order. */
  function MissingLinks(hl: Highlights, links: seq<(string, string)>): seq<(string, string)>
    decreases |links|
  {
    if links == [] then []
    else MissingLinks(hl, links[..|links| - 1]) + (if links[|links| - 1].0 !in hl then [links[|links| - 1]] else [])
  }

  /** A row is kept exactly when it is listed and its group is absent from the table. */
  lemma {:induction false} MissingLinksMeaning(hl: Highlights, links: seq<(string, string)>, x: (string, string))
    ensures x in MissingLinks(hl, links) <==> x in links && x.0 !in hl
    decreases |links|
  {
    if links != [] {
      var init := links[..|links| - 1];
      var last := links[|links| - 1];
      assert links == init + [last];
      MissingLinksMeaning(hl, init, x);
    }
  }

  function LinkLine(row: (string, string)): string
  {
    "hi link " + row.0 + " " + row.1
  }

  function LinkLines(rows: seq<(string, string)>): (lines: seq<string>)
    ensures |lines| == |rows|
    ensures forall i :: 0 <= i < |rows| ==> lines[i] == LinkLine(rows[i])
  {
    seq(|rows|, i requires 0 <= i < |rows| => LinkLine(rows[i]))
  }

  /** The whole script for the group iteration order `order`. */
  function Script(theme: ThemeConfig, hl: Highlights, order: seq<string>): string
    requires forall g :: g in order ==> g in hl
  {
    Header(theme) + Unlines(NormalLines(hl)) + Unlines(GroupLines(hl, BodyGroups(order))) +
    "\n\" Default links\n" + Unlines(LinkLines(MissingLinks(hl, DefaultLinks)))
  }

  /** `content` is the script of `hl` for some order in which the table can be iterated. */
  ghost predicate Renders(theme: ThemeConfig, hl: Highlights, content: string)
  {
    exists order :: Enumerates(order, hl.Keys) && content == Script(theme, hl, order)
  }

  /** `generate`: the header, "Normal", every other group, then the missing default links. */
  method Generate(theme: ThemeConfig, hl: Highlights) returns (content: string)
    ensures Renders(theme, hl, content)
  {
    content := Header(theme);
    if "Normal" in hl {
      var line := FormatHighlightGroup("Normal", hl["Normal"]);
      content := content + line + "\n";
    }
    assert content == Header(theme) + Unlines(NormalLines(hl));
    var order := IterationOrder(hl.Keys);
    content := WriteGroups(content, hl, order);
    content := content + "\n\" Default links\n";
    content := WriteDefaultLinks(content, hl, DefaultLinks);
  }

  /** The group loop of `generate`: one line per group of `order` but "Normal". */
  method WriteGroups(prefix: string, hl: Highlights, order: seq<string>) returns (content: string)
    requires forall g :: g in order ==> g in hl
    ensures content == prefix + Unlines(GroupLines(hl, BodyGroups(order)))
  {
    content := prefix;
    assert order[..0] == [];
    for i := 0 to |order|
      invariant content == prefix + Unlines(GroupLines(hl, BodyGroups(order[..i])))
    {
      var g := order[i];
      ghost var done := BodyGroups(order[..i]);
      PrefixBodyInTable(hl, order, i);
      BodyStep(order, i);
      if g != "Normal" {
        var line := FormatHighlightGroup(g, hl[g]);
        GroupLinesStep(hl, done, g);
        PushLine(prefix, GroupLines(hl, done), line);
        content := content + line + "\n";
      } else {
        assert BodyGroups(order[..i + 1]) == done;
      }
    }
    assert order[..|order|] == order;
  }

  /** The default-link loop of `generate`: a `hi link` line for each row whose group the table lacks. */
  method WriteDefaultLinks(prefix: string, hl: Highlights, links: seq<(string, string)>) returns (content: string)
    ensures content == prefix + Unlines(LinkLines(MissingLinks(hl, links)))
  {
    content := prefix;
    assert links[..0] == [];
    for i := 0 to |links|
      invariant content == prefix + Unlines(LinkLines(MissingLinks(hl, links[..i])))
    {
      var row := links[i];
      MissingLinksStep(hl, links, i);
      if row.0 !in hl {
        var line := "hi link " + row.0 + " " + row.1;
        LinkLinesStep(MissingLinks(hl, links[..i]), row);
        PushLine(prefix, LinkLines(MissingLinks(hl, links[..i])), line);
        content := content + line + "\n";
      } else {
        assert MissingLinks(hl, links[..i + 1]) == MissingLinks(hl, links[..i]);
      }
    }
    assert links[..|links|] == links;
  }

  lemma BodyStep(order: seq<string>, i: nat)
    requires i < |order|
    ensures BodyGroups(order[..i + 1]) == BodyGroups(order[..i]) + (if order[i] != "Normal" then [order[i]] else [])
  {
    assert order[..i + 1][..i] == order[..i];
  }

  lemma PrefixBodyInTable(hl: Highlights, order: seq<string>, i: nat)
    requires forall g :: g in order ==> g in hl
    requires i <= |order|
    ensures forall x :: x in BodyGroups(order[..i]) ==> x in hl
  {
    forall x | x in BodyGroups(order[..i]) ensures x in hl {
      var k :| 0 <= k < i && order[..i][k] == x;
      assert order[k] == x;
    }
  }

  lemma GroupLinesStep(hl: Highlights, groups: seq<string>, g: string)
    requires forall x :: x in groups ==> x in hl
    requires g in hl
    ensures GroupLines(hl, groups + [g]) == GroupLines(hl, groups) + [GroupLine(g, hl[g])]
  {
  }

  lemma MissingLinksStep(hl: Highlights, links: seq<(string, string)>, i: nat)
    requires i < |links|
    ensures MissingLinks(hl, links[..i + 1]) == MissingLinks(hl, links[..i]) + (if links[i].0 !in hl then [links[i]] else [])
  {
    assert links[..i + 1][..i] == links[..i];
  }

  lemma LinkLinesStep(rows: seq<(string, string)>, row: (string, string))
    ensures LinkLines(rows + [row]) == LinkLines(rows) + [LinkLine(row)]
  {
  }

  /** Pushing one more line and its newline after the text built so far. */
  lemma PushLine(prefix: string, lines: seq<string>, line: string)
    ensures prefix + Unlines(lines) + line + "\n" == prefix + Unlines(lines + [line])
  {
    assert (lines + [line])[..|lines|] == lines;
  }

  /** Every group of the table but "Normal" gets exactly one line in the body. */
  lemma BodyListsEachGroupOnce(hl: Highlights, order: seq<string>)
    requires Enumerates(order, hl.Keys)
    ensures Enumerates(BodyGroups(order), hl.Keys - {"Normal"})
  {
  }

  /** A default link is written exactly for the listed groups the table lacks. */
  lemma DefaultLinkWritten(hl: Highlights, row: (string, string))
    ensures row in MissingLinks(hl, DefaultLinks) <==> row in DefaultLinks && row.0 !in hl
  {
    MissingLinksMeaning(hl, DefaultLinks, row);
  }
}
