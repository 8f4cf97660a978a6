/**
 * What each pass of `ThemeConverter::convert` does to the table of
 * highlight groups, as functions of the table before the pass. The
 * converter class is proved to compute exactly these; the lemmas here say
 * what they mean (which rule wins a group, which groups a pass leaves alone).
 */
module Resolution {
  import opened Wrappers
  import opened Types
  import opened Color
  import opened Iteration
  import opened Mapping
  import opened ThemeInfo

  const DefaultBg := "#ffffff"
  const DefaultFg := "#000000"
  const DefaultDarkBg := "#1e1e1e"
  const DefaultDarkFg := "#d4d4d4"

  /** The theme's colour under `key`, or `fallback` when it has none. */
  function ColourOr(theme: ThemeConfig, key: string, fallback: string): string
  {
    if key in theme.colors then theme.colors[key] else fallback
  }

  /**
   * The `Normal` group `apply_basic_mappings` installs: the editor's
   * foreground and background, with defaults chosen by the theme's tone.
   */
  function NormalGroup(theme: ThemeConfig): (g: HighlightGroup)
    ensures g.fg.Some? && g.bg.Some?
    ensures "editor.foreground" in theme.colors ==> g.fg.value == theme.colors["editor.foreground"]
    ensures "editor.background" in theme.colors ==> g.bg.value == theme.colors["editor.background"]
    ensures "editor.foreground" !in theme.colors ==> g.fg.value == (if ConverterIsDark(theme) then DefaultDarkFg else DefaultFg)
    ensures "editor.background" !in theme.colors ==> g.bg.value == (if ConverterIsDark(theme) then DefaultDarkBg else DefaultBg)
    ensures g.(fg := None, bg := None) == EmptyGroup
  {
    var dark := ConverterIsDark(theme);
    EmptyGroup.(
      fg := Some(ColourOr(theme, "editor.foreground", if dark then DefaultDarkFg else DefaultFg)),
      bg := Some(ColourOr(theme, "editor.background", if dark then DefaultDarkBg else DefaultBg)))
  }

  /** The default colours fit their tone: dark defaults are a dark background under a light text. */
  lemma DefaultsFitTone()
    ensures IsDarkColor(DefaultDarkBg) && !IsDarkColor(DefaultDarkFg)
    ensures !IsDarkColor(DefaultBg) && IsDarkColor(DefaultFg)
  {
    DarkDefaultsFitTone();
    LightDefaultsFitTone();
  }

  lemma DarkDefaultsFitTone()
    ensures IsDarkColor(DefaultDarkBg) && !IsDarkColor(DefaultDarkFg)
  {
    assert LowerHexDigit(1) == '1' && LowerHexDigit(14) == 'e';
    GreyIs(30, "1e", DefaultDarkBg);
    assert LowerHexDigit(13) == 'd' && LowerHexDigit(4) == '4';
    GreyIs(212, "d4", DefaultDarkFg);
  }

  lemma LightDefaultsFitTone()
    ensures !IsDarkColor(DefaultBg) && IsDarkColor(DefaultFg)
  {
    WhiteIsLight();
    BlackIsDark();
  }

  lemma WhiteIsLight()
    ensures !IsDarkColor(DefaultBg)
  {
    assert LowerHexDigit(15) == 'f';
    GreyIs(255, "ff", DefaultBg);
  }

  lemma BlackIsDark()
    ensures IsDarkColor(DefaultFg)
  {
    assert LowerHexDigit(0) == '0';
    GreyIs(0, "00", DefaultFg);
  }

  /** A grey written out in full is dark exactly when its level is below 128. */
  lemma GreyIs(v: Byte, d: string, s: string)
    requires d == ByteHex(v)
    requires s == "#" + d + d + d
    ensures IsDarkColor(s) <==> v < 128
  {
    GreyDarkBelowMidpoint(v);
  }

  /** The record a group starts from: its current one, or the empty default. */
  function Base(hl: Highlights, group: string): HighlightGroup
  {
    if group in hl then hl[group] else EmptyGroup
  }

  /** The colour attribute `attr` of a record; only "fg", "bg" and "sp" name one. */
  function Field(h: HighlightGroup, attr: string): Option<string>
  {
    if attr == "fg" then h.fg else if attr == "bg" then h.bg else if attr == "sp" then h.sp else None
  }

  predicate IsColourAttr(attr: string)
  {
    attr == "fg" || attr == "bg" || attr == "sp"
  }

  /** `h` with its colour attribute `attr` set to `value`; an unknown attribute changes nothing. */
  function SetField(h: HighlightGroup, attr: string, value: string): (r: HighlightGroup)
    ensures IsColourAttr(attr) ==> Field(r, attr) == Some(value)
    ensures forall a :: a != attr ==> Field(r, a) == Field(h, a)
    ensures r.(fg := None, bg := None, sp := None) == h.(fg := None, bg := None, sp := None)
  {
    if attr == "fg" then h.(fg := Some(value))
    else if attr == "bg" then h.(bg := Some(value))
    else if attr == "sp" then h.(sp := Some(value))
    else h
  }

  /**
   * `add_highlight_attr`: the group is created with the default record if
   * missing, even for an attribute it then ignores, and only the named
   * colour attribute of that one group changes.
   */
  function SetAttr(hl: Highlights, group: string, attr: string, value: string): (r: Highlights)
    ensures r.Keys == hl.Keys + {group}
    ensures forall g :: g in hl && g != group ==> r[g] == hl[g]
    ensures r[group] == SetField(Base(hl, group), attr, value)
  {
    hl[group := SetField(Base(hl, group), attr, value)]
  }

  /** An unknown attribute still creates the group, as an empty record. */
  lemma SetAttrUnknownCreatesEmpty(hl: Highlights, group: string, attr: string, value: string)
    requires group !in hl && !IsColourAttr(attr)
    ensures SetAttr(hl, group, attr, value) == hl[group := EmptyGroup]
  {
  }

  /** The editor pass over the first |entries| rows of the editor table. */
  function EditorPass(colors: map<string, string>, entries: seq<EditorMapping>, hl: Highlights): (r: Highlights)
    ensures hl.Keys <= r.Keys
    decreases |entries|
  {
    if entries == [] then hl
    else
      var prev := EditorPass(colors, entries[..|entries| - 1], hl);
      var e := entries[|entries| - 1];
      if e.key in colors then SetAttr(prev, e.group, e.attr, colors[e.key]) else prev
  }

  /** The editor pass creates exactly the groups of the rows whose colour key the theme has. */
  lemma {:induction false} EditorPassMembers(colors: map<string, string>, entries: seq<EditorMapping>, hl: Highlights, g: string)
    ensures g in EditorPass(colors, entries, hl) <==>
            g in hl || exists i :: 0 <= i < |entries| && entries[i].group == g && entries[i].key in colors
    decreases |entries|
  {
    if entries != [] {
      var init := entries[..|entries| - 1];
      var e := entries[|entries| - 1];
      EditorPassMembers(colors, init, hl, g);
      assert forall i :: 0 <= i < |init| ==> init[i] == entries[i];
      if g !in hl && e.group == g && e.key in colors {
        assert entries[|entries| - 1].group == g;
      }
    }
  }

  /** The row of `entries` that last sets `attr` of `group` from a colour the theme has; -1 when none does. */
  function LastSetter(colors: map<string, string>, entries: seq<EditorMapping>, group: string, attr: string): (i: int)
    ensures -1 <= i < |entries|
    ensures i >= 0 ==> entries[i].group == group && entries[i].attr == attr && entries[i].key in colors
    ensures forall j :: i < j < |entries| ==> !(entries[j].group == group && entries[j].attr == attr && entries[j].key in colors)
    decreases |entries|
  {
    if entries == [] then -1
    else
      var e := entries[|entries| - 1];
      if e.group == group && e.attr == attr && e.key in colors then |entries| - 1
      else LastSetter(colors, entries[..|entries| - 1], group, attr)
  }

  /**
   * The editor pass, group by group: each colour attribute holds the colour
   * of the last row that sets it from a key the theme has (later rows win),
   * or what the group held before; the style flags and link are untouched.
   */
  lemma {:induction false} EditorPassField(colors: map<string, string>, entries: seq<EditorMapping>, hl: Highlights, g: string, attr: string)
    requires g in EditorPass(colors, entries, hl)
    ensures var i := LastSetter(colors, entries, g, attr);
            Field(EditorPass(colors, entries, hl)[g], attr) ==
              if i >= 0 && IsColourAttr(attr) then Some(colors[entries[i].key]) else Field(Base(hl, g), attr)
    ensures var r := EditorPass(colors, entries, hl)[g];
            r.(fg := None, bg := None, sp := None) == Base(hl, g).(fg := None, bg := None, sp := None)
    decreases |entries|
  {
    if entries != [] {
      var init := entries[..|entries| - 1];
      var e := entries[|entries| - 1];
      var prev := EditorPass(colors, init, hl);
      if g in prev {
        EditorPassField(colors, init, hl, g, attr);
        assert forall i :: 0 <= i < |init| ==> init[i] == entries[i];
      } else {
        EditorPassMembers(colors, init, hl, g);
        assert g !in hl;
        assert e.group == g && e.key in colors;
      }
    }
  }

  /** Groups no row names keep their record. */
  lemma {:induction false} EditorPassUntouched(colors: map<string, string>, entries: seq<EditorMapping>, hl: Highlights, g: string)
    requires g in hl
    requires forall i :: 0 <= i < |entries| ==> entries[i].group != g
    ensures EditorPass(colors, entries, hl)[g] == hl[g]
    decreases |entries|
  {
    if entries != [] {
      EditorPassUntouched(colors, entries[..|entries| - 1], hl, g);
    }
  }

  /** `HashMap::insert` of `v` under every name of `groups`, in order. */
  function InsertAll(hl: Highlights, groups: seq<string>, v: HighlightGroup): (r: Highlights)
    ensures forall g :: g in r <==> g in hl || g in groups
    ensures forall g :: g in groups ==> r[g] == v
    ensures forall g :: g in hl && g !in groups ==> r[g] == hl[g]
    decreases |groups|
  {
    if groups == [] then hl
    else
      var init := groups[..|groups| - 1];
      assert forall g :: g in groups <==> g in init || g == groups[|groups| - 1];
      InsertAll(hl, init, v)[groups[|groups| - 1] := v]
  }

  /** Inserting two lists of names one after the other is inserting their concatenation. */
  lemma InsertAllAppend(hl: Highlights, a: seq<string>, b: seq<string>, v: HighlightGroup)
    ensures InsertAll(InsertAll(hl, a, v), b, v) == InsertAll(hl, a + b, v)
  {
    var x := InsertAll(InsertAll(hl, a, v), b, v);
    var y := InsertAll(hl, a + b, v);
    assert forall g :: g in a + b <==> g in a || g in b;
    forall g | g in x ensures g in y && x[g] == y[g] {
      if g !in a && g !in b {
        assert g in hl;
      }
    }
    assert x.Keys == y.Keys;
  }

  /** The groups a lookup result names; none when the lookup failed. */
  function GroupsOf(r: Option<seq<string>>): seq<string>
  {
    match r
    case Some(gs) => gs
    case None => []
  }

  /** The groups of all scopes of one rule, scope by scope. */
  function ScopeGroups(entries: GroupTable, scopes: seq<string>): seq<string>
    decreases |scopes|
  {
    if scopes == [] then []
    else ScopeGroups(entries, scopes[..|scopes| - 1]) + GroupsOf(GroupsForScope(entries, scopes[|scopes| - 1]))
  }

  /** A rule reaches exactly the groups that one of its scopes maps to. */
  lemma {:induction false} ScopeGroupsMembers(entries: GroupTable, scopes: seq<string>, g: string)
    ensures g in ScopeGroups(entries, scopes) <==> exists j :: 0 <= j < |scopes| && g in GroupsOf(GroupsForScope(entries, scopes[j]))
    decreases |scopes|
  {
    if scopes != [] {
      var n := |scopes| - 1;
      var init := scopes[..n];
      var last := GroupsOf(GroupsForScope(entries, scopes[n]));
      ScopeGroupsMembers(entries, init, g);
      assert ScopeGroups(entries, scopes) == ScopeGroups(entries, init) + last;
      assert forall j :: 0 <= j < n ==> init[j] == scopes[j];
      if g in last {
        assert g in GroupsOf(GroupsForScope(entries, scopes[n]));
      }
    }
  }

  /** The record one token-colour rule writes: its foreground and background, nothing else. */
  function RuleGroup(settings: TokenSettings): HighlightGroup
  {
    EmptyGroup.(fg := settings.foreground, bg := settings.background)
  }

  /** The groups rule `rule` reaches through its scopes. */
  predicate RuleReaches(entries: GroupTable, rule: TokenColor, g: string)
  {
    g in ScopeGroups(entries, ScopesOf(rule.scope))
  }

  /**
   * The token-colour half of `apply_syntax_mappings`: every rule, in the
   * theme's entries, replaces each group its scopes map to with its own record.
   */
  function TokenPass(hl: Highlights, entries: GroupTable, rules: seq<TokenColor>): (r: Highlights)
    ensures hl.Keys <= r.Keys
    decreases |rules|
  {
    if rules == [] then hl
    else
      var last := rules[|rules| - 1];
      InsertAll(TokenPass(hl, entries, rules[..|rules| - 1]), ScopeGroups(entries, ScopesOf(last.scope)), RuleGroup(last.settings))
  }

  /** The rule pass creates exactly the groups some rule reaches. */
  lemma {:induction false} TokenPassMembers(hl: Highlights, entries: GroupTable, rules: seq<TokenColor>, g: string)
    ensures g in TokenPass(hl, entries, rules) <==> g in hl || exists k :: 0 <= k < |rules| && RuleReaches(entries, rules[k], g)
    decreases |rules|
  {
    if rules != [] {
      var init := rules[..|rules| - 1];
      var last := rules[|rules| - 1];
      TokenPassStep(hl, entries, rules);
      TokenPassMembers(hl, entries, init, g);
      assert forall k :: 0 <= k < |init| ==> init[k] == rules[k];
      if g in ScopeGroups(entries, ScopesOf(last.scope)) {
        assert RuleReaches(entries, rules[|rules| - 1], g);
      }
    }
  }

  /** The last rule that reaches a group decides it, whatever earlier rules said. */
  lemma {:induction false} TokenPassLastRuleWins(hl: Highlights, entries: GroupTable, rules: seq<TokenColor>, g: string, k: nat)
    requires k < |rules| && RuleReaches(entries, rules[k], g)
    requires forall j :: k < j < |rules| ==> !RuleReaches(entries, rules[j], g)
    ensures g in TokenPass(hl, entries, rules) && TokenPass(hl, entries, rules)[g] == RuleGroup(rules[k].settings)
    decreases |rules|
  {
    var init := rules[..|rules| - 1];
    var last := rules[|rules| - 1];
    var prev := TokenPass(hl, entries, init);
    var reached := ScopeGroups(entries, ScopesOf(last.scope));
    TokenPassStep(hl, entries, rules);
    if k < |rules| - 1 {
      assert g !in reached by {
        assert !RuleReaches(entries, rules[|rules| - 1], g);
      }
      assert g in prev && prev[g] == RuleGroup(rules[k].settings) by {
        assert forall j :: k < j < |init| ==> init[j] == rules[j];
        assert init[k] == rules[k];
        TokenPassLastRuleWins(hl, entries, init, g, k);
      }
    } else {
      assert g in reached by {
        assert last == rules[k];
      }
    }
  }

  /** The pass over `rules` is the pass over all but the last, then the last rule's inserts. */
  lemma TokenPassStep(hl: Highlights, entries: GroupTable, rules: seq<TokenColor>)
    requires rules != []
    ensures TokenPass(hl, entries, rules) ==
            InsertAll(TokenPass(hl, entries, rules[..|rules| - 1]), ScopeGroups(entries, ScopesOf(rules[|rules| - 1].scope)),
                      RuleGroup(rules[|rules| - 1].settings))
  {
  }

  /** A group no rule reaches keeps its record, and is not created. */
  lemma {:induction false} TokenPassUntouched(hl: Highlights, entries: GroupTable, rules: seq<TokenColor>, g: string)
    requires forall k :: 0 <= k < |rules| ==> !RuleReaches(entries, rules[k], g)
    ensures g in TokenPass(hl, entries, rules) <==> g in hl
    ensures g in hl ==> TokenPass(hl, entries, rules)[g] == hl[g]
    decreases |rules|
  {
    if rules != [] {
      var init := rules[..|rules| - 1];
      assert forall k :: 0 <= k < |init| ==> init[k] == rules[k];
      TokenPassUntouched(hl, entries, init, g);
    }
  }

  /** The record a semantic token style writes: its foreground only. */
  function SemanticGroup(s: SemanticSetting): HighlightGroup
  {
    EmptyGroup.(fg := s.foreground)
  }

  /**
   * The semantic half of `apply_syntax_mappings`: token types in the map's
   * iteration order `torder`, each replacing the groups its type maps to.
   */
  function SemanticPass(hl: Highlights, tokens: map<string, SemanticSetting>, torder: seq<string>): (r: Highlights)
    requires forall t :: t in torder ==> t in tokens
    ensures forall g :: g in r <==> g in hl || exists k :: 0 <= k < |torder| && g in GroupsOf(GroupsForSemanticToken(torder[k]))
    decreases |torder|
  {
    if torder == [] then hl
    else
      var init := torder[..|torder| - 1];
      var t := torder[|torder| - 1];
      assert forall k :: 0 <= k < |init| ==> init[k] == torder[k];
      InsertAll(SemanticPass(hl, tokens, init), GroupsOf(GroupsForSemanticToken(t)), SemanticGroup(tokens[t]))
  }

  /** The last token type (in iteration entries) whose table entry lists a group decides it. */
  lemma {:induction false} SemanticPassLastWins(hl: Highlights, tokens: map<string, SemanticSetting>, torder: seq<string>, g: string, k: nat)
    requires forall t :: t in torder ==> t in tokens
    requires k < |torder| && g in GroupsOf(GroupsForSemanticToken(torder[k]))
    requires forall j :: k < j < |torder| ==> g !in GroupsOf(GroupsForSemanticToken(torder[j]))
    ensures SemanticPass(hl, tokens, torder)[g] == SemanticGroup(tokens[torder[k]])
    decreases |torder|
  {
    var init := torder[..|torder| - 1];
    if k < |torder| - 1 {
      assert forall j :: k < j < |init| ==> init[j] == torder[j];
      SemanticPassLastWins(hl, tokens, init, g, k);
    }
  }

  /** A group no token type maps to keeps its record, and is not created. */
  lemma {:induction false} SemanticPassUntouched(hl: Highlights, tokens: map<string, SemanticSetting>, torder: seq<string>, g: string)
    requires forall t :: t in torder ==> t in tokens
    requires forall k :: 0 <= k < |torder| ==> g !in GroupsOf(GroupsForSemanticToken(torder[k]))
    ensures g in SemanticPass(hl, tokens, torder) <==> g in hl
    ensures g in hl ==> SemanticPass(hl, tokens, torder)[g] == hl[g]
    decreases |torder|
  {
    if torder != [] {
      var init := torder[..|torder| - 1];
      assert forall k :: 0 <= k < |init| ==> init[k] == torder[k];
      SemanticPassUntouched(hl, tokens, init, g);
    }
  }

  /** The iteration orders `apply_syntax_mappings` may meet: one of the scope table, one of the theme's semantic tokens. */
  predicate SyntaxOrders(theme: ThemeConfig, entries: GroupTable, torder: seq<string>)
  {
    ScopeIteration(entries) &&
    (theme.semanticTokenColors.Some? ==> Enumerates(torder, theme.semanticTokenColors.value.Keys))
  }

  /** `apply_syntax_mappings`: the token-colour rules, then the semantic token styles if the theme has any. */
  function SyntaxPass(theme: ThemeConfig, hl: Highlights, entries: GroupTable, torder: seq<string>): (r: Highlights)
    requires SyntaxOrders(theme, entries, torder)
    ensures hl.Keys <= r.Keys
  {
    var afterRules := TokenPass(hl, entries, theme.tokenColors);
    match theme.semanticTokenColors
    case None => afterRules
    case Some(tokens) => SemanticPass(afterRules, tokens, torder)
  }

  /** The alias writes `apply_treesitter_mappings` queues: every alias of every base present in `hl`, with the base's record. */
  function AliasWrites(hl: Highlights, rows: GroupTable): (w: seq<(string, HighlightGroup)>)
    ensures forall x :: x in w ==>
              exists i, p :: 0 <= i < |rows| && 0 <= p < |rows[i].1| && rows[i].0 in hl && x == (rows[i].1[p], hl[rows[i].0])
    ensures forall i, p :: 0 <= i < |rows| && 0 <= p < |rows[i].1| && rows[i].0 in hl ==>
              (rows[i].1[p], hl[rows[i].0]) in w
    decreases |rows|
  {
    if rows == [] then []
    else
      var init := rows[..|rows| - 1];
      var row := rows[|rows| - 1];
      assert forall i :: 0 <= i < |init| ==> init[i] == rows[i];
      AliasWrites(hl, init) + RowWrites(hl, row)
  }

  /** The writes of one alias row: each alias with the base's record, or none when the base is absent. */
  function RowWrites(hl: Highlights, row: (string, seq<string>)): (w: seq<(string, HighlightGroup)>)
    ensures |w| == (if row.0 in hl then |row.1| else 0)
    ensures forall p :: 0 <= p < |w| ==> w[p] == (row.1[p], hl[row.0])
  {
    if row.0 in hl then seq(|row.1|, p requires 0 <= p < |row.1| => (row.1[p], hl[row.0])) else []
  }

  /** Successive `HashMap::insert`s of (name, record) pairs. */
  function InsertEach(m: Highlights, writes: seq<(string, HighlightGroup)>): (r: Highlights)
    ensures forall g :: g in r <==> g in m || exists x :: x in writes && x.0 == g
    decreases |writes|
  {
    if writes == [] then m
    else
      var init := writes[..|writes| - 1];
      assert forall x :: x in writes <==> x in init || x == writes[|writes| - 1];
      InsertEach(m, init)[writes[|writes| - 1].0 := writes[|writes| - 1].1]
  }

  /** The writes `done`, then one more of `w`: that write replaces (or adds) one record. */
  lemma InsertEachStep(m: Highlights, done: seq<(string, HighlightGroup)>, w: seq<(string, HighlightGroup)>, p: nat)
    requires p < |w|
    ensures InsertEach(m, done + w[..p + 1]) == InsertEach(m, done + w[..p])[w[p].0 := w[p].1]
  {
    assert (done + w[..p + 1])[..|done + w[..p + 1]| - 1] == done + w[..p];
  }

  /** When every write of a name carries the same record, that record is what the name ends up with. */
  lemma {:induction false} InsertEachAgreeing(m: Highlights, writes: seq<(string, HighlightGroup)>, g: string, v: HighlightGroup)
    requires exists x :: x in writes && x.0 == g
    requires forall x :: x in writes && x.0 == g ==> x.1 == v
    ensures InsertEach(m, writes)[g] == v
    decreases |writes|
  {
    var init := writes[..|writes| - 1];
    var last := writes[|writes| - 1];
    if last.0 != g {
      var x :| x in writes && x.0 == g;
      assert x in init;
      InsertEachAgreeing(m, init, g, v);
    }
  }

  /**
   * `apply_treesitter_mappings`: the alias records are collected against
   * the table as it was, then merged in, replacing any existing record.
   */
  function AliasPass(hl: Highlights): (r: Highlights)
    ensures hl.Keys <= r.Keys
  {
    hl + InsertEach(map[], AliasWrites(hl, TreesitterMappings))
  }

  /** Every alias of a present base ends up with the base's record as it was before the pass. */
  lemma AliasPassCopies(hl: Highlights, i: nat, p: nat)
    requires i < |TreesitterMappings| && p < |TreesitterMappings[i].1|
    requires TreesitterMappings[i].0 in hl
    ensures AliasPass(hl)[TreesitterMappings[i].1[p]] == hl[TreesitterMappings[i].0]
  {
    var T := TreesitterMappings;
    var w := AliasWrites(hl, T);
    var a := T[i].1[p];
    AliasesDistinct();
    forall x | x in w && x.0 == a ensures x.1 == hl[T[i].0] {
      var j, q :| 0 <= j < |T| && 0 <= q < |T[j].1| && T[j].0 in hl && x == (T[j].1[q], hl[T[j].0]);
      assert (j, q) == (i, p);
    }
    InsertEachAgreeing(map[], w, a, hl[T[i].0]);
  }

  /** An alias whose bases are all absent is neither created nor changed. */
  lemma AliasPassAbsentBase(hl: Highlights, g: string)
    requires forall i, p :: (0 <= i < |TreesitterMappings| && 0 <= p < |TreesitterMappings[i].1| &&
               TreesitterMappings[i].1[p] == g) ==> TreesitterMappings[i].0 !in hl
    ensures g in AliasPass(hl) <==> g in hl
    ensures g in hl ==> AliasPass(hl)[g] == hl[g]
  {
  }

  /** A name that does not start with '@' is no alias: its record survives the pass unchanged. */
  lemma AliasPassKeepsOthers(hl: Highlights, g: string)
    requires |g| == 0 || g[0] != '@'
    ensures g in AliasPass(hl) <==> g in hl
    ensures g in hl ==> AliasPass(hl)[g] == hl[g]
  {
    AliasesAreNotBases();
  }

  /** The whole of `convert`'s table work: Normal, editor colours, syntax rules, aliases. */
  function Resolve(theme: ThemeConfig, hl: Highlights, entries: GroupTable, torder: seq<string>): (r: Highlights)
    requires SyntaxOrders(theme, entries, torder)
  {
    var basic := hl["Normal" := NormalGroup(theme)];
    var editor := EditorPass(theme.colors, EditorMappings, basic);
    AliasPass(SyntaxPass(theme, editor, entries, torder))
  }

  /** A group the scope table never names is reached by no rule. */
  lemma UnnamedNotReached(entries: GroupTable, rule: TokenColor, g: string)
    requires ScopeIteration(entries) && !NamedBy(TextmateScopeMappings, g)
    ensures !RuleReaches(entries, rule, g)
  {
    var scopes := ScopesOf(rule.scope);
    ScopeGroupsMembers(entries, scopes, g);
    if RuleReaches(entries, rule, g) {
      var j :| 0 <= j < |scopes| && g in GroupsOf(GroupsForScope(entries, scopes[j]));
      ScopeResultIsRow(entries, scopes[j]);
    }
  }

  /** A group neither table names comes out of the syntax pass as it went in. */
  lemma SyntaxPassUntouched(theme: ThemeConfig, hl: Highlights, entries: GroupTable, torder: seq<string>, g: string)
    requires SyntaxOrders(theme, entries, torder)
    requires !NamedBy(TextmateScopeMappings, g) && !NamedBy(SemanticTokenMappings, g)
    ensures g in SyntaxPass(theme, hl, entries, torder) <==> g in hl
    ensures g in hl ==> SyntaxPass(theme, hl, entries, torder)[g] == hl[g]
  {
    var rules := theme.tokenColors;
    forall k | 0 <= k < |rules| ensures !RuleReaches(entries, rules[k], g) {
      UnnamedNotReached(entries, rules[k], g);
    }
    TokenPassUntouched(hl, entries, rules, g);
    if theme.semanticTokenColors.Some? {
      var tokens := theme.semanticTokenColors.value;
      forall k | 0 <= k < |torder| ensures g !in GroupsOf(GroupsForSemanticToken(torder[k])) {
        if GroupsForSemanticToken(torder[k]).Some? {
          SemanticResultIsRow(torder[k]);
        }
      }
      SemanticPassUntouched(TokenPass(hl, entries, rules), tokens, torder, g);
    }
  }

  /** No pass removes a group: every group present before `convert`, and "Normal", is present after it. */
  lemma ResolveKeepsGroups(theme: ThemeConfig, hl: Highlights, entries: GroupTable, torder: seq<string>)
    requires SyntaxOrders(theme, entries, torder)
    ensures hl.Keys + {"Normal"} <= Resolve(theme, hl, entries, torder).Keys
  {
    var basic := hl["Normal" := NormalGroup(theme)];
    var editor := EditorPass(theme.colors, EditorMappings, basic);
    assert basic.Keys <= editor.Keys;
    var syntax := SyntaxPass(theme, editor, entries, torder);
    assert editor.Keys <= syntax.Keys;
    assert syntax.Keys <= AliasPass(syntax).Keys;
  }

  /**
   * A group that only the editor table writes (neither syntax table names
   * it, and it is no alias) ends `convert` with the record the basic and
   * editor passes gave it.
   */
  lemma ResolveEditorGroup(theme: ThemeConfig, hl: Highlights, entries: GroupTable, torder: seq<string>, g: string)
    requires SyntaxOrders(theme, entries, torder)
    requires !NamedBy(TextmateScopeMappings, g) && !NamedBy(SemanticTokenMappings, g)
    requires |g| == 0 || g[0] != '@'
    ensures var editor := EditorPass(theme.colors, EditorMappings, hl["Normal" := NormalGroup(theme)]);
            (g in Resolve(theme, hl, entries, torder) <==> g in editor) &&
            (g in editor ==> Resolve(theme, hl, entries, torder)[g] == editor[g])
  {
    var editor := EditorPass(theme.colors, EditorMappings, hl["Normal" := NormalGroup(theme)]);
    var syntax := SyntaxPass(theme, editor, entries, torder);
    SyntaxPassUntouched(theme, editor, entries, torder, g);
    AliasPassKeepsOthers(syntax, g);
  }

  /** The last row naming (group, attr) whose key the theme has decides the field. */
  lemma EditorFieldFromRow(colors: map<string, string>, entries: seq<EditorMapping>, hl: Highlights, k: nat)
    requires k < |entries| && IsColourAttr(entries[k].attr) && entries[k].key in colors
    requires forall j :: k < j < |entries| && entries[j].group == entries[k].group && entries[j].attr == entries[k].attr ==>
               entries[j].key !in colors
    ensures entries[k].group in EditorPass(colors, entries, hl)
    ensures Field(EditorPass(colors, entries, hl)[entries[k].group], entries[k].attr) == Some(colors[entries[k].key])
  {
    var e := entries[k];
    EditorPassMembers(colors, entries, hl, e.group);
    EditorPassField(colors, entries, hl, e.group, e.attr);
    var i := LastSetter(colors, entries, e.group, e.attr);
    assert i == k;
  }

  /** A field no present row names keeps the value it had before the pass. */
  lemma EditorFieldUnset(colors: map<string, string>, entries: seq<EditorMapping>, hl: Highlights, g: string, attr: string)
    requires g in EditorPass(colors, entries, hl)
    requires forall j :: 0 <= j < |entries| && entries[j].group == g && entries[j].attr == attr ==> entries[j].key !in colors
    ensures Field(EditorPass(colors, entries, hl)[g], attr) == Field(Base(hl, g), attr)
  {
    EditorPassField(colors, entries, hl, g, attr);
  }

  /**
   * A search group whose foreground keys the theme lacks: after `convert`
   * from an empty table it has no foreground and the background of its
   * last present background row `k`.
   */
  lemma SearchGroupColours(theme: ThemeConfig, entries: GroupTable, torder: seq<string>, g: string, k: nat)
    requires SyntaxOrders(theme, entries, torder)
    requires IsSearchGroup(g) && g != "Normal"
    requires k < |EditorMappings| && EditorMappings[k].group == g && EditorMappings[k].attr == "bg"
    requires EditorMappings[k].key in theme.colors
    requires forall j :: k < j < |EditorMappings| && EditorMappings[j].group == g && EditorMappings[j].attr == "bg" ==>
               EditorMappings[j].key !in theme.colors
    requires forall j :: 0 <= j < |EditorMappings| && EditorMappings[j].group == g && EditorMappings[j].attr == "fg" ==>
               EditorMappings[j].key !in theme.colors
    ensures var r := Resolve(theme, map[], entries, torder);
            g in r && r[g].fg == None && r[g].bg == Some(theme.colors[EditorMappings[k].key])
  {
    var basic := map["Normal" := NormalGroup(theme)];
    assert map[]["Normal" := NormalGroup(theme)] == basic;
    var editor := EditorPass(theme.colors, EditorMappings, basic);
    EditorBackgroundOnly(theme.colors, EditorMappings, basic, g, k);
    assert g in editor;
    SearchGroupsOnlyFromEditor(g);
    assert |g| == 0 || g[0] != '@';
    ResolveEditorGroup(theme, map[], entries, torder, g);
    assert Resolve(theme, map[], entries, torder)[g] == editor[g];
  }

  /**
   * A group new to the table whose foreground rows all have absent keys
   * leaves the editor pass with no foreground and the background of its
   * last present background row `k`.
   */
  lemma EditorBackgroundOnly(colors: map<string, string>, rows: seq<EditorMapping>, hl: Highlights, g: string, k: nat)
    requires g !in hl
    requires k < |rows| && rows[k].group == g && rows[k].attr == "bg" && rows[k].key in colors
    requires forall j :: k < j < |rows| && rows[j].group == g && rows[j].attr == "bg" ==> rows[j].key !in colors
    requires forall j :: 0 <= j < |rows| && rows[j].group == g && rows[j].attr == "fg" ==> rows[j].key !in colors
    ensures var editor := EditorPass(colors, rows, hl);
            g in editor && editor[g].fg == None && editor[g].bg == Some(colors[rows[k].key])
  {
    EditorFieldFromRow(colors, rows, hl, k);
    EditorFieldUnset(colors, rows, hl, g, "fg");
    assert Base(hl, g) == EmptyGroup;
  }

  /** "Normal" after `convert` from an empty table: the editor's own foreground and background. */
  lemma NormalColours(theme: ThemeConfig, entries: GroupTable, torder: seq<string>)
    requires SyntaxOrders(theme, entries, torder)
    requires "editor.foreground" in theme.colors && "editor.background" in theme.colors
    ensures var r := Resolve(theme, map[], entries, torder);
            "Normal" in r && r["Normal"].fg == Some(theme.colors["editor.foreground"]) &&
            r["Normal"].bg == Some(theme.colors["editor.background"])
  {
    var basic := map["Normal" := NormalGroup(theme)];
    assert map[]["Normal" := NormalGroup(theme)] == basic;
    SearchRows();
    EditorFieldFromRow(theme.colors, EditorMappings, basic, 0);
    EditorFieldFromRow(theme.colors, EditorMappings, basic, 1);
    SearchGroupsOnlyFromEditor("Normal");
    ResolveEditorGroup(theme, map[], entries, torder, "Normal");
  }

  /**
   * On a theme with the fixture's editor colours, `convert` started from an
   * empty table gives "Normal" the editor's foreground and background, and
   * the three search groups the find-match backgrounds with no foreground.
   */
  lemma FixtureSearchColours(theme: ThemeConfig, entries: GroupTable, torder: seq<string>)
    requires SyntaxOrders(theme, entries, torder)
    requires "editor.foreground" in theme.colors && theme.colors["editor.foreground"] == "#cdd6f4"
    requires "editor.background" in theme.colors && theme.colors["editor.background"] == "#1e1e2e"
    requires "editor.findMatchHighlightBackground" in theme.colors &&
             theme.colors["editor.findMatchHighlightBackground"] == "#3e5767"
    requires "editor.findMatchBackground" in theme.colors && theme.colors["editor.findMatchBackground"] == "#5e3f53"
    requires "editor.findMatchForeground" !in theme.colors && "editor.findMatchHighlightForeground" !in theme.colors
    ensures var r := Resolve(theme, map[], entries, torder);
            && "Normal" in r && r["Normal"].fg == Some("#cdd6f4") && r["Normal"].bg == Some("#1e1e2e")
            && "Search" in r && r["Search"].fg == None && r["Search"].bg == Some("#3e5767")
            && "IncSearch" in r && r["IncSearch"].fg == None && r["IncSearch"].bg == Some("#5e3f53")
            && "CurSearch" in r && r["CurSearch"].fg == None && r["CurSearch"].bg == Some("#5e3f53")
  {
    NormalColours(theme, entries, torder);
    FixtureSearch(theme, entries, torder);
    FixtureIncSearch(theme, entries, torder);
    FixtureCurSearch(theme, entries, torder);
  }

  lemma FixtureSearch(theme: ThemeConfig, entries: GroupTable, torder: seq<string>)
    requires SyntaxOrders(theme, entries, torder)
    requires "editor.findMatchHighlightBackground" in theme.colors
    requires "editor.findMatchForeground" !in theme.colors && "editor.findMatchHighlightForeground" !in theme.colors
    ensures var r := Resolve(theme, map[], entries, torder);
            "Search" in r && r["Search"].fg == None && r["Search"].bg == Some(theme.colors["editor.findMatchHighlightBackground"])
  {
    SearchRows();
    SearchGroupColours(theme, entries, torder, "Search", 11);
  }

  lemma FixtureIncSearch(theme: ThemeConfig, entries: GroupTable, torder: seq<string>)
    requires SyntaxOrders(theme, entries, torder)
    requires "editor.findMatchBackground" in theme.colors
    requires "editor.findMatchHighlightForeground" !in theme.colors
    ensures var r := Resolve(theme, map[], entries, torder);
            "IncSearch" in r && r["IncSearch"].fg == None && r["IncSearch"].bg == Some(theme.colors["editor.findMatchBackground"])
  {
    SearchRows();
    SearchGroupColours(theme, entries, torder, "IncSearch", 9);
  }

  lemma FixtureCurSearch(theme: ThemeConfig, entries: GroupTable, torder: seq<string>)
    requires SyntaxOrders(theme, entries, torder)
    requires "editor.findMatchBackground" in theme.colors
    requires "editor.findMatchHighlightForeground" !in theme.colors
    ensures var r := Resolve(theme, map[], entries, torder);
            "CurSearch" in r && r["CurSearch"].fg == None && r["CurSearch"].bg == Some(theme.colors["editor.findMatchBackground"])
  {
    SearchRows();
    SearchGroupColours(theme, entries, torder, "CurSearch", 7);
  }
}
