/**
 * The static tables that relate editor colour keys, TextMate scopes and
 * semantic token types to highlight groups, and the two lookups over
 * them. A Rust `HashMap` built by `insert`s is modelled by the list of
 * its inserts; its iteration order is a parameter (see Iteration).
 */
module Mapping {
  import opened Wrappers
  import opened Strings
  import opened Iteration

  /** One row of the editor table: copy colour `key` into field `attr` of `group`. */
  datatype EditorMapping = EditorMapping(key: string, group: string, attr: string)

  /** A table of (key, groups) rows, in declaration (insertion) order. */
  type GroupTable = seq<(string, seq<string>)>

  /** `EDITOR_MAPPINGS`, a slice walked in declaration order; split in two halves only to keep proofs about it small. */
  const EditorMappings: seq<EditorMapping> := EditorRowsFirst + EditorRowsSecond

  const EditorRowsFirst: seq<EditorMapping> := [
    EditorMapping("editor.background", "Normal", "bg"),
    EditorMapping("editor.foreground", "Normal", "fg"),
    EditorMapping("editor.lineHighlightBackground", "CursorLine", "bg"),
    EditorMapping("editorCursor.foreground", "Cursor", "fg"),
    EditorMapping("editorCursor.background", "Cursor", "bg"),
    EditorMapping("editorWhitespace.foreground", "Whitespace", "fg"),
    EditorMapping("editorWhitespace.background", "Whitespace", "bg"),
    EditorMapping("editor.findMatchBackground", "CurSearch", "bg"),
    EditorMapping("editor.findMatchHighlightForeground", "CurSearch", "fg"),
    EditorMapping("editor.findMatchBackground", "IncSearch", "bg"),
    EditorMapping("editor.findMatchHighlightForeground", "IncSearch", "fg"),
    EditorMapping("editor.findMatchHighlightBackground", "Search", "bg"),
    EditorMapping("editor.findMatchForeground", "Search", "fg"),
    EditorMapping("editor.selectionBackground", "Visual", "bg"),
    EditorMapping("editor.selectionForeground", "Visual", "fg"),
    EditorMapping("editorLineNumber.foreground", "LineNr", "fg"),
    EditorMapping("editorLineNumber.activeForeground", "CursorLineNr", "fg"),
    EditorMapping("editorGutter.background", "SignColumn", "bg"),
    EditorMapping("editorBracketMatch.background", "MatchParen", "bg"),
    EditorMapping("editorBracketMatch.border", "MatchParen", "fg")
  ]

  const EditorRowsSecond: seq<EditorMapping> := [
    EditorMapping("tab.activeBackground", "TabLineSel", "bg"),
    EditorMapping("tab.activeForeground", "TabLineSel", "fg"),
    EditorMapping("tab.inactiveBackground", "TabLine", "bg"),
    EditorMapping("tab.inactiveForeground", "TabLine", "fg"),
    EditorMapping("tab.border", "TabLineFill", "bg"),
    EditorMapping("statusBar.background", "StatusLine", "bg"),
    EditorMapping("statusBar.foreground", "StatusLine", "fg"),
    EditorMapping("statusBar.noFolderBackground", "StatusLineNC", "bg"),
    EditorMapping("statusBar.noFolderForeground", "StatusLineNC", "fg"),
    EditorMapping("activityBar.background", "NormalSB", "bg"),
    EditorMapping("activityBar.foreground", "NormalSB", "fg"),
    EditorMapping("sideBar.background", "NormalSB", "bg"),
    EditorMapping("sideBar.foreground", "NormalSB", "fg"),
    EditorMapping("editorWidget.background", "Pmenu", "bg"),
    EditorMapping("editorWidget.foreground", "Pmenu", "fg"),
    EditorMapping("editorSuggestWidget.selectedBackground", "PmenuSel", "bg"),
    EditorMapping("editorError.foreground", "Error", "fg"),
    EditorMapping("editorWarning.foreground", "WarningMsg", "fg"),
    EditorMapping("editorInfo.foreground", "MoreMsg", "fg")
  ]

  const TreesitterMappings: GroupTable := [
    ("Comment", ["@comment"]),
    ("Constant", ["@constant"]),
    ("String", ["@string"]),
    ("Character", ["@character"]),
    ("Number", ["@number"]),
    ("Boolean", ["@boolean"]),
    ("Float", ["@float"]),
    ("Identifier", ["@variable"]),
    ("Function", ["@function", "@method"]),
    ("Statement", ["@statement"]),
    ("Conditional", ["@conditional"]),
    ("Repeat", ["@repeat"]),
    ("Label", ["@label"]),
    ("Operator", ["@operator"]),
    ("Keyword", ["@keyword"]),
    ("Exception", ["@exception"]),
    ("PreProc", ["@preproc"]),
    ("Include", ["@include"]),
    ("Define", ["@define"]),
    ("Macro", ["@macro"]),
    ("Type", ["@type"]),
    ("StorageClass", ["@storageclass"]),
    ("Structure", ["@structure"]),
    ("Typedef", ["@typedef"]),
    ("Special", ["@special"]),
    ("SpecialChar", ["@character.special"]),
    ("Tag", ["@tag"]),
    ("Delimiter", ["@punctuation.delimiter"]),
    ("SpecialComment", ["@comment.special"]),
    ("Todo", ["@text.todo"]),
    ("Error", ["@error"])
  ]

  /**
   * TEXTMATE_SCOPE_MAPPINGS, in insertion order. The display is written in
   * two halves, so that facts about each half stay small for the solver.
   */
  const TextmateScopeMappings: GroupTable := ScopeRowsFirst + ScopeRowsSecond

  const ScopeRowsFirst: GroupTable := [
    ("comment", ["Comment"]),
    ("comment.line", ["Comment"]),
    ("comment.block", ["Comment"]),
    ("comment.documentation", ["SpecialComment"]),
    ("constant", ["Constant"]),
    ("constant.numeric", ["Number"]),
    ("constant.character", ["Character"]),
    ("constant.character.escape", ["SpecialChar"]),
    ("constant.language", ["Constant"]),
    ("constant.other", ["Constant"]),
    ("entity.name.function", ["Function"]),
    ("entity.name.method", ["Function"]),
    ("entity.name.class", ["Type"]),
    ("entity.name.struct", ["Structure"]),
    ("entity.name.enum", ["Type"]),
    ("entity.name.union", ["Structure"]),
    ("entity.name.tag", ["Tag"]),
    ("entity.other.attribute-name", ["Identifier"]),
    ("keyword", ["Keyword"]),
    ("keyword.control", ["Statement"]),
    ("keyword.operator", ["Operator"]),
    ("punctuation", ["Delimiter"]),
    ("punctuation.definition", ["Delimiter"])
  ]

  const ScopeRowsSecond: GroupTable := [
    ("punctuation.separator", ["Delimiter"]),
    ("punctuation.terminator", ["Delimiter"]),
    ("storage", ["StorageClass"]),
    ("storage.type", ["Type"]),
    ("storage.modifier", ["StorageClass"]),
    ("string", ["String"]),
    ("support.function", ["Function"]),
    ("support.class", ["Type"]),
    ("support.type", ["Type"]),
    ("support.constant", ["Constant"]),
    ("support.variable", ["Identifier"]),
    ("variable", ["Identifier"]),
    ("variable.parameter", ["Identifier"]),
    ("variable.language", ["Identifier"]),
    ("variable.other", ["Identifier"]),
    ("markup.heading", ["Title"]),
    ("markup.bold", ["Bold"]),
    ("markup.italic", ["Italic"]),
    ("markup.underline", ["Underlined"]),
    ("markup.quote", ["Comment"]),
    ("markup.raw", ["String"]),
    ("markup.list", ["Special"])
  ]

  const SemanticTokenMappings: GroupTable := [
    ("namespace", ["Identifier"]),
    ("type", ["Type"]),
    ("class", ["Type"]),
    ("enum", ["Type"]),
    ("interface", ["Type"]),
    ("struct", ["Structure"]),
    ("typeParameter", ["Identifier"]),
    ("parameter", ["Identifier"]),
    ("variable", ["Identifier"]),
    ("property", ["Identifier"]),
    ("enumMember", ["Constant"]),
    ("event", ["Identifier"]),
    ("function", ["Function"]),
    ("method", ["Function"]),
    ("macro", ["Macro"]),
    ("keyword", ["Keyword"]),
    ("modifier", ["StorageClass"]),
    ("comment", ["Comment"]),
    ("string", ["String"]),
    ("number", ["Number"]),
    ("regexp", ["String"]),
    ("operator", ["Operator"])
  ]

  /** The keys of a table. */
  function TableKeys(t: GroupTable): (keys: set<string>)
    ensures forall i :: 0 <= i < |t| ==> t[i].0 in keys
  {
    set e | e in t :: e.0
  }

  /** No key is inserted twice. */
  predicate DistinctKeys(t: GroupTable)
  {
    forall i, j :: 0 <= i < j < |t| ==> t[i].0 != t[j].0
  }

  /**
   * `HashMap::get` on the map that inserting the rows in order builds:
   * the last insert of a key is the one that stays.
   */
  function Get(t: GroupTable, k: string): Option<seq<string>>
    decreases |t|
  {
    if t == [] then None
    else if t[|t| - 1].0 == k then Some(t[|t| - 1].1)
    else Get(t[..|t| - 1], k)
  }

  /** `get` finds exactly the inserted keys, with the groups of the last insert of the key. */
  lemma {:induction false} GetMeaning(t: GroupTable, k: string)
    ensures Get(t, k).Some? <==> k in TableKeys(t)
    ensures Get(t, k).Some? ==> exists i :: 0 <= i < |t| && t[i] == (k, Get(t, k).value) &&
                                            forall j :: i < j < |t| ==> t[j].0 != k
    decreases |t|
  {
    if t != [] && t[|t| - 1].0 != k {
      var init := t[..|t| - 1];
      GetMeaning(init, k);
      if k in TableKeys(t) {
        var e :| e in t && e.0 == k;
        assert e in init;
      }
      if Get(t, k).Some? {
        var i :| 0 <= i < |init| && init[i] == (k, Get(t, k).value) && forall j :: i < j < |init| ==> init[j].0 != k;
        assert t[i] == init[i];
      }
    }
  }

  /** With distinct keys, `get` of a row's key is that row's groups. */
  lemma GetRow(t: GroupTable, i: nat)
    requires DistinctKeys(t) && i < |t|
    ensures Get(t, t[i].0) == Some(t[i].1)
  {
    GetMeaning(t, t[i].0);
    var r := Get(t, t[i].0);
    var j :| 0 <= j < |t| && t[j] == (t[i].0, r.value) && forall m :: j < m < |t| ==> t[m].0 != t[i].0;
    assert j == i;
  }

  // The lemmas below up to `ScopeKeysDistinct`, and those under
  // `SemanticKeysDistinct` and `FirstAliasesDistinct`, state no property of
  // their own: they cut each pairwise comparison over a literal table into
  // pieces small enough for the solver.

  /** Keys are distinct when they are within each side of `k` and across it. */
  lemma DistinctBySplit(t: GroupTable, k: nat)
    requires k <= |t|
    requires forall i, j :: 0 <= i < j < k ==> t[i].0 != t[j].0
    requires forall i, j :: k <= i < j < |t| ==> t[i].0 != t[j].0
    requires forall i, j :: 0 <= i < k <= j < |t| ==> t[i].0 != t[j].0
    ensures DistinctKeys(t)
  {
  }

  lemma ScopeRowsFirstDistinct()
    ensures DistinctKeys(ScopeRowsFirst)
  {
    FirstRowsDistinctBelow();
    FirstRowsDistinctAbove();
    FirstRowsDistinctAcross();
    DistinctBySplit(ScopeRowsFirst, 12);
  }

  lemma FirstRowsDistinctBelow()
    ensures forall i, j :: 0 <= i < j < 12 ==> ScopeRowsFirst[i].0 != ScopeRowsFirst[j].0
  {
  }

  lemma FirstRowsDistinctAbove()
    ensures forall i, j :: 12 <= i < j < |ScopeRowsFirst| ==> ScopeRowsFirst[i].0 != ScopeRowsFirst[j].0
  {
  }

  lemma FirstRowsDistinctAcross()
    ensures forall i, j :: 0 <= i < 12 <= j < |ScopeRowsFirst| ==> ScopeRowsFirst[i].0 != ScopeRowsFirst[j].0
  {
  }

  lemma ScopeRowsSecondDistinct()
    ensures DistinctKeys(ScopeRowsSecond)
  {
    SecondRowsDistinctBelow();
    SecondRowsDistinctAbove();
    SecondRowsDistinctAcross();
    DistinctBySplit(ScopeRowsSecond, 11);
  }

  lemma SecondRowsDistinctBelow()
    ensures forall i, j :: 0 <= i < j < 11 ==> ScopeRowsSecond[i].0 != ScopeRowsSecond[j].0
  {
  }

  lemma SecondRowsDistinctAbove()
    ensures forall i, j :: 11 <= i < j < |ScopeRowsSecond| ==> ScopeRowsSecond[i].0 != ScopeRowsSecond[j].0
  {
  }

  lemma SecondRowsDistinctAcross()
    ensures forall i, j :: 0 <= i < 11 <= j < |ScopeRowsSecond| ==> ScopeRowsSecond[i].0 != ScopeRowsSecond[j].0
  {
  }

  lemma ScopeHalvesDisjoint()
    ensures forall i, j :: 0 <= i < |ScopeRowsFirst| && 0 <= j < |ScopeRowsSecond| ==>
              ScopeRowsFirst[i].0 != ScopeRowsSecond[j].0
  {
  }

  /** No TextMate scope is inserted twice. */
  lemma {:induction false} ScopeKeysDistinct()
    ensures DistinctKeys(TextmateScopeMappings)
  {
    var A, B := ScopeRowsFirst, ScopeRowsSecond;
    var T := TextmateScopeMappings;
    ScopeRowsFirstDistinct();
    ScopeRowsSecondDistinct();
    ScopeHalvesDisjoint();
    forall i, j | 0 <= i < j < |T| ensures T[i].0 != T[j].0 {
      if j < |A| {
        assert T[i] == A[i] && T[j] == A[j];
      } else if i < |A| {
        assert T[i] == A[i] && T[j] == B[j - |A|];
      } else {
        assert T[i] == B[i - |A|] && T[j] == B[j - |A|];
      }
    }
  }

  /** No semantic token type is inserted twice. */
  lemma SemanticKeysDistinct()
    ensures DistinctKeys(SemanticTokenMappings)
  {
    SemanticKeysDistinctBelow();
    SemanticKeysDistinctAbove();
    SemanticKeysDistinctAcross();
    DistinctBySplit(SemanticTokenMappings, 11);
  }

  lemma SemanticKeysDistinctBelow()
    ensures forall i, j :: 0 <= i < j < 11 ==> SemanticTokenMappings[i].0 != SemanticTokenMappings[j].0
  {
  }

  lemma SemanticKeysDistinctAbove()
    ensures forall i, j :: 11 <= i < j < |SemanticTokenMappings| ==> SemanticTokenMappings[i].0 != SemanticTokenMappings[j].0
  {
  }

  lemma SemanticKeysDistinctAcross()
    ensures forall i, j :: 0 <= i < 11 <= j < |SemanticTokenMappings| ==> SemanticTokenMappings[i].0 != SemanticTokenMappings[j].0
  {
  }

  lemma ScopeHalvesNonEmpty()
    ensures forall i :: 0 <= i < |ScopeRowsFirst| ==> |ScopeRowsFirst[i].1| > 0
    ensures forall i :: 0 <= i < |ScopeRowsSecond| ==> |ScopeRowsSecond[i].1| > 0
  {
  }

  /** Every group list in the scope table names at least one group. */
  lemma {:induction false} ScopeGroupListsNonEmpty()
    ensures forall i :: 0 <= i < |TextmateScopeMappings| ==> |TextmateScopeMappings[i].1| > 0
  {
    var A, B := ScopeRowsFirst, ScopeRowsSecond;
    var T := TextmateScopeMappings;
    ScopeHalvesNonEmpty();
    forall i | 0 <= i < |T| ensures |T[i].1| > 0 {
      if i < |A| {
        assert T[i] == A[i];
      } else {
        assert T[i] == B[i - |A|];
      }
    }
  }

  /** Every group list in the semantic and tree-sitter tables names at least one group. */
  lemma GroupListsNonEmpty()
    ensures forall e :: e in SemanticTokenMappings ==> |e.1| > 0
    ensures forall e :: e in TreesitterMappings ==> |e.1| > 0
  {
  }

  /** The editor table only ever sets a foreground or a background. */
  lemma EditorAttributesAreColours()
    ensures forall i :: 0 <= i < |EditorMappings| ==>
              EditorMappings[i].attr == "fg" || EditorMappings[i].attr == "bg"
  {
  }

  /**
   * Alias names start with '@' and base names do not, so no alias is a
   * base: copying aliases never changes a record another alias is copied from.
   */
  lemma AliasesAreNotBases()
    ensures forall i :: 0 <= i < |TreesitterMappings| ==>
              |TreesitterMappings[i].0| > 0 && TreesitterMappings[i].0[0] != '@'
    ensures forall i, p :: 0 <= i < |TreesitterMappings| && 0 <= p < |TreesitterMappings[i].1| ==>
              |TreesitterMappings[i].1[p]| > 0 && TreesitterMappings[i].1[p][0] == '@'
  {
  }

  /** Only "Function" has two aliases; every other base has one. */
  lemma AliasRowShapes()
    ensures forall i :: 0 <= i < |TreesitterMappings| && i != 8 ==> |TreesitterMappings[i].1| == 1
    ensures TreesitterMappings[8].0 == "Function" && |TreesitterMappings[8].1| == 2
  {
  }

  lemma FirstAliasesDistinct()
    ensures forall i, j :: 0 <= i < j < |TreesitterMappings| ==>
              TreesitterMappings[i].1[0] != TreesitterMappings[j].1[0]
    ensures forall i :: 0 <= i < |TreesitterMappings| ==>
              TreesitterMappings[i].1[0] != TreesitterMappings[8].1[1]
  {
    AliasesNonEmpty();
    FirstAliasesDistinctBelow();
    FirstAliasesDistinctAbove();
    FirstAliasesDistinctAcross();
    SecondAliasDistinct();
  }

  lemma AliasesNonEmpty()
    ensures forall i :: 0 <= i < |TreesitterMappings| ==> |TreesitterMappings[i].1| > 0
    ensures |TreesitterMappings[8].1| > 1
  {
  }

  lemma FirstAliasesDistinctBelow()
    requires forall i :: 0 <= i < |TreesitterMappings| ==> |TreesitterMappings[i].1| > 0
    ensures forall i, j :: 0 <= i < j < 16 ==> TreesitterMappings[i].1[0] != TreesitterMappings[j].1[0]
  {
  }

  lemma FirstAliasesDistinctAbove()
    requires forall i :: 0 <= i < |TreesitterMappings| ==> |TreesitterMappings[i].1| > 0
    ensures forall i, j :: 16 <= i < j < |TreesitterMappings| ==> TreesitterMappings[i].1[0] != TreesitterMappings[j].1[0]
  {
  }

  lemma FirstAliasesDistinctAcross()
    requires forall i :: 0 <= i < |TreesitterMappings| ==> |TreesitterMappings[i].1| > 0
    ensures forall i, j :: 0 <= i < 16 <= j < |TreesitterMappings| ==> TreesitterMappings[i].1[0] != TreesitterMappings[j].1[0]
  {
  }

  lemma SecondAliasDistinct()
    requires forall i :: 0 <= i < |TreesitterMappings| ==> |TreesitterMappings[i].1| > 0
    requires |TreesitterMappings[8].1| > 1
    ensures forall i :: 0 <= i < |TreesitterMappings| ==> TreesitterMappings[i].1[0] != TreesitterMappings[8].1[1]
  {
  }

  /** No alias name is listed twice, within a row or across rows. */
  lemma {:induction false} AliasesDistinct()
    ensures forall i, p, j, q ::
              0 <= i < |TreesitterMappings| && 0 <= p < |TreesitterMappings[i].1| &&
              0 <= j < |TreesitterMappings| && 0 <= q < |TreesitterMappings[j].1| &&
              (i, p) != (j, q)
              ==> TreesitterMappings[i].1[p] != TreesitterMappings[j].1[q]
  {
    var T := TreesitterMappings;
    AliasRowShapes();
    FirstAliasesDistinct();
    forall i, p, j, q |
      0 <= i < |T| && 0 <= p < |T[i].1| && 0 <= j < |T| && 0 <= q < |T[j].1| && (i, p) != (j, q)
      ensures T[i].1[p] != T[j].1[q]
    {
      if p == 1 { assert i == 8; }
      if q == 1 { assert j == 8; }
    }
  }

  /** The position of the first key of `order` that occurs in `scope`; |order| when none does. */
  function FirstOccurring(order: seq<string>, scope: string): (i: nat)
    ensures i <= |order|
    decreases |order|
  {
    if order == [] then 0
    else if Contains(scope, order[0]) then 0
    else 1 + FirstOccurring(order[1..], scope)
  }

  /** No key before the position occurs in `scope`; the key at it (if any) does. */
  lemma {:induction false} FirstOccurringMeaning(order: seq<string>, scope: string)
    ensures forall j :: 0 <= j < FirstOccurring(order, scope) ==> !Contains(scope, order[j])
    ensures FirstOccurring(order, scope) < |order| ==> Contains(scope, order[FirstOccurring(order, scope)])
    decreases |order|
  {
    if order != [] && !Contains(scope, order[0]) {
      FirstOccurringMeaning(order[1..], scope);
      forall j | 1 <= j < FirstOccurring(order, scope) ensures !Contains(scope, order[j]) {
        assert order[j] == order[1..][j - 1];
      }
    }
  }

  /** An iteration order of the scope table's keys. */
  predicate ScopeOrder(order: seq<string>)
  {
    Enumerates(order, TableKeys(TextmateScopeMappings))
  }

  /** The keys of `entries`, in order. */
  function KeysOf(entries: GroupTable): (keys: seq<string>)
    ensures |keys| == |entries|
    ensures forall i :: 0 <= i < |entries| ==> keys[i] == entries[i].0
  {
    seq(|entries|, i requires 0 <= i < |entries| => entries[i].0)
  }

  /**
   * What `iter()` yields on the map that inserting the rows of `t` builds:
   * every key once, each paired with the groups `get` returns for it.
   */
  predicate IsIterationOf(entries: GroupTable, t: GroupTable)
  {
    && Enumerates(KeysOf(entries), TableKeys(t))
    && forall i :: 0 <= i < |entries| ==> Get(t, entries[i].0) == Some(entries[i].1)
  }

  /** An iteration of the scope table. */
  predicate ScopeIteration(entries: GroupTable)
  {
    IsIterationOf(entries, TextmateScopeMappings)
  }

  /** `iter()` on the map built from `t`: its entries in an order the program does not control. */
  method IterateTable(t: GroupTable) returns (entries: GroupTable)
    ensures IsIterationOf(entries, t)
  {
    var order := IterationOrder(TableKeys(t));
    entries := [];
    for i := 0 to |order|
      invariant |entries| == i
      invariant forall j :: 0 <= j < i ==> entries[j].0 == order[j] && Get(t, order[j]) == Some(entries[j].1)
    {
      GetMeaning(t, order[i]);
      entries := entries + [(order[i], Get(t, order[i]).value)];
    }
    assert KeysOf(entries) == order;
  }

  /**
   * `get_vim_groups_for_scope`: walk the scope table's entries in iteration
   * order and return the groups of the first key that occurs in `scope`.
   */
  function GroupsForScope(entries: GroupTable, scope: string): (r: Option<seq<string>>)
  {
    var i := FirstOccurring(KeysOf(entries), scope);
    if i < |entries| then Some(entries[i].1) else None
  }

  /**
   * A scope finds groups exactly when some key of the table occurs in it,
   * and then they are the groups of one such key.
   */
  lemma GroupsForScopeMeaning(entries: GroupTable, scope: string)
    requires ScopeIteration(entries)
    ensures GroupsForScope(entries, scope).None? <==> forall k :: k in TableKeys(TextmateScopeMappings) ==> !Contains(scope, k)
    ensures GroupsForScope(entries, scope).Some? ==>
              exists k :: k in TableKeys(TextmateScopeMappings) && Contains(scope, k) &&
                          Get(TextmateScopeMappings, k) == GroupsForScope(entries, scope)
  {
    var order := KeysOf(entries);
    var i := FirstOccurring(order, scope);
    FirstOccurringMeaning(order, scope);
    if i == |order| {
      forall k | k in TableKeys(TextmateScopeMappings) ensures !Contains(scope, k) {
        var j :| 0 <= j < |order| && order[j] == k;
      }
    } else {
      assert Get(TextmateScopeMappings, entries[i].0) == Some(entries[i].1);
    }
  }

  /** `get_vim_groups_for_semantic_token`: an exact-key lookup, not a substring search. */
  function GroupsForSemanticToken(tokenType: string): Option<seq<string>>
  {
    Get(SemanticTokenMappings, tokenType)
  }

  /** A token type finds groups exactly when it is a key of the table, and then they are that key's groups. */
  lemma SemanticLookupMeaning(tokenType: string)
    ensures GroupsForSemanticToken(tokenType).Some? <==> tokenType in TableKeys(SemanticTokenMappings)
    ensures GroupsForSemanticToken(tokenType).Some? ==>
              (tokenType, GroupsForSemanticToken(tokenType).value) in SemanticTokenMappings
  {
    GetMeaning(SemanticTokenMappings, tokenType);
  }

  lemma SemanticFunctionRows()
    ensures SemanticTokenMappings[12] == ("function", ["Function"])
    ensures forall i :: 0 <= i < |SemanticTokenMappings| ==> SemanticTokenMappings[i].0 != "functionCall"
  {
  }

  /** Lookups by exact key: "functionCall" contains the key "function" yet maps to nothing. */
  lemma SemanticLookupIsExact()
    ensures Contains("functionCall", "function")
    ensures GroupsForSemanticToken("functionCall") == None
    ensures GroupsForSemanticToken("function") == Some(["Function"])
  {
    PrefixContained("functionCall", "function");
    SemanticKeysDistinct();
    SemanticFunctionRows();
    GetRow(SemanticTokenMappings, 12);
    assert "functionCall" !in TableKeys(SemanticTokenMappings);
    SemanticLookupMeaning("functionCall");
  }

  const DocumentationScope := "comment.documentation"

  /** A key character that "comment.documentation" lacks, for every row of the first half but 0 and 3. */
  lemma FirstHalfWitnesses()
    ensures forall i :: 1 <= i < 3 ==> 8 < |ScopeRowsFirst[i].0| && ScopeRowsFirst[i].0[8] !in DocumentationScope
    ensures forall i :: 4 <= i < 10 ==> 3 < |ScopeRowsFirst[i].0| && ScopeRowsFirst[i].0[3] !in DocumentationScope
    ensures forall i :: 10 <= i < 18 ==> 5 < |ScopeRowsFirst[i].0| && ScopeRowsFirst[i].0[5] !in DocumentationScope
    ensures forall i :: 18 <= i < |ScopeRowsFirst| ==> 0 < |ScopeRowsFirst[i].0| && ScopeRowsFirst[i].0[0] !in DocumentationScope
  {
    EarlyRowWitnesses();
    LateRowWitnesses();
  }

  lemma EarlyRowWitnesses()
    ensures forall i :: 1 <= i < 3 ==> 8 < |ScopeRowsFirst[i].0| && ScopeRowsFirst[i].0[8] !in DocumentationScope
    ensures forall i :: 4 <= i < 10 ==> 3 < |ScopeRowsFirst[i].0| && ScopeRowsFirst[i].0[3] !in DocumentationScope
  {
  }

  lemma LateRowWitnesses()
    ensures forall i :: 10 <= i < 18 ==> 5 < |ScopeRowsFirst[i].0| && ScopeRowsFirst[i].0[5] !in DocumentationScope
    ensures forall i :: 18 <= i < |ScopeRowsFirst| ==> 0 < |ScopeRowsFirst[i].0| && ScopeRowsFirst[i].0[0] !in DocumentationScope
  {
  }

  lemma SecondHalfWitnesses()
    ensures forall i :: 0 <= i < 15 ==> 0 < |ScopeRowsSecond[i].0| && ScopeRowsSecond[i].0[0] !in DocumentationScope
    ensures forall i :: 15 <= i < |ScopeRowsSecond| ==> 2 < |ScopeRowsSecond[i].0| && ScopeRowsSecond[i].0[2] !in DocumentationScope
  {
  }

  /** Of all scope keys only "comment" and "comment.documentation" occur in "comment.documentation". */
  lemma {:induction false} DocumentationScopeKeys()
    ensures forall i :: 0 <= i < |TextmateScopeMappings| && Contains(DocumentationScope, TextmateScopeMappings[i].0) ==>
              i == 0 || i == 3
  {
    var A, B := ScopeRowsFirst, ScopeRowsSecond;
    var T := TextmateScopeMappings;
    FirstHalfWitnesses();
    SecondHalfWitnesses();
    forall i | 0 <= i < |T| && i != 0 && i != 3
      ensures !Contains(DocumentationScope, T[i].0)
    {
      if i < |A| {
        assert T[i] == A[i];
        var w := if i < 3 then 8 else if i < 10 then 3 else if i < 18 then 5 else 0;
        NotContainsByChar(DocumentationScope, A[i].0, w);
      } else {
        assert T[i] == B[i - |A|];
        var w := if i - |A| < 15 then 0 else 2;
        NotContainsByChar(DocumentationScope, B[i - |A|].0, w);
      }
    }
  }

  lemma CommentRows()
    ensures TextmateScopeMappings[0] == ("comment", ["Comment"])
    ensures TextmateScopeMappings[3] == (DocumentationScope, ["SpecialComment"])
  {
    assert TextmateScopeMappings[0] == ScopeRowsFirst[0];
    assert TextmateScopeMappings[3] == ScopeRowsFirst[3];
  }

  /**
   * Both "comment" and "comment.documentation" occur in the scope
   * "comment.documentation", so the answer is ["Comment"] or
   * ["SpecialComment"]: ["Comment"] exactly when the iteration order
   * visits "comment" first.
   */
  lemma DocumentationScopeIsAmbiguous(entries: GroupTable)
    requires ScopeIteration(entries)
    ensures GroupsForScope(entries, DocumentationScope) == Some(["Comment"]) ||
            GroupsForScope(entries, DocumentationScope) == Some(["SpecialComment"])
    ensures GroupsForScope(entries, DocumentationScope) == Some(["Comment"]) <==>
            exists i :: 0 <= i < |entries| && entries[i].0 == "comment" && DocumentationScope !in KeysOf(entries)[..i]
  {
    var order := KeysOf(entries);
    var f := FirstOccurring(order, DocumentationScope);
    FirstDocumentationKeyExists(order);
    FirstDocumentationKey(order);
    var key, groups := entries[f].0, entries[f].1;
    assert key == order[f];
    assert GroupsForScope(entries, DocumentationScope) == Some(groups);
    assert Get(TextmateScopeMappings, key) == Some(groups);
    CommentLookups();
    assert key == "comment" ==> groups == ["Comment"];
    assert key == DocumentationScope ==> groups == ["SpecialComment"];
    CommentOccursInDocumentation();
    FirstOfTwoKeys(order, DocumentationScope, "comment", DocumentationScope);
    if key == "comment" {
      var i :| 0 <= i < |order| && order[i] == "comment" && DocumentationScope !in order[..i];
      assert entries[i].0 == "comment";
    } else {
      forall i | 0 <= i < |entries| && entries[i].0 == "comment" ensures DocumentationScope in order[..i] {
        assert order[i] == "comment";
      }
    }
  }

  /**
   * When the first key of `order` occurring in `scope` is `a` or `b`, and
   * both occur in `scope`, it is `a` exactly when the order visits `a` before `b`.
   */
  lemma FirstOfTwoKeys(order: seq<string>, scope: string, a: string, b: string)
    requires a != b && Contains(scope, a) && Contains(scope, b)
    requires FirstOccurring(order, scope) < |order|
    requires order[FirstOccurring(order, scope)] == a || order[FirstOccurring(order, scope)] == b
    ensures order[FirstOccurring(order, scope)] == a <==>
            exists i :: 0 <= i < |order| && order[i] == a && b !in order[..i]
  {
    var f := FirstOccurring(order, scope);
    FirstOccurringMeaning(order, scope);
    if order[f] == a {
      assert b !in order[..f] by {
        forall j | 0 <= j < f ensures order[j] != b {
          assert !Contains(scope, order[j]);
        }
      }
    } else {
      forall i | 0 <= i < |order| && order[i] == a ensures b in order[..i] {
        assert i != f;
        assert order[..i][f] == b;
      }
    }
  }

  lemma CommentOccursInDocumentation()
    ensures Contains(DocumentationScope, "comment")
    ensures Contains(DocumentationScope, DocumentationScope)
  {
    PrefixContained(DocumentationScope, "comment");
    PrefixContained(DocumentationScope, DocumentationScope);
  }

  /** The scope keys occurring in "comment.documentation", as keys rather than positions. */
  lemma DocumentationKeysOnly()
    ensures forall k :: k in TableKeys(TextmateScopeMappings) && Contains(DocumentationScope, k) ==>
              k == "comment" || k == DocumentationScope
  {
    DocumentationScopeKeys();
    CommentRows();
  }

  lemma CommentOccurs()
    ensures "comment" in TableKeys(TextmateScopeMappings) && Contains(DocumentationScope, "comment")
  {
    CommentRows();
    PrefixContained(DocumentationScope, "comment");
  }

  /** Some key of every scope order occurs in "comment.documentation". */
  lemma FirstDocumentationKeyExists(order: seq<string>)
    requires ScopeOrder(order)
    ensures FirstOccurring(order, DocumentationScope) < |order|
  {
    CommentOccurs();
    FirstOccurringMeaning(order, DocumentationScope);
    var j :| 0 <= j < |order| && order[j] == "comment";
  }

  /** The first such key is one of the two comment keys. */
  lemma FirstDocumentationKey(order: seq<string>)
    requires ScopeOrder(order)
    requires FirstOccurring(order, DocumentationScope) < |order|
    ensures order[FirstOccurring(order, DocumentationScope)] == "comment" ||
            order[FirstOccurring(order, DocumentationScope)] == DocumentationScope
  {
    DocumentationKeysOnly();
    FirstOccurringMeaning(order, DocumentationScope);
  }

  lemma CommentLookups()
    ensures Get(TextmateScopeMappings, "comment") == Some(["Comment"])
    ensures Get(TextmateScopeMappings, DocumentationScope) == Some(["SpecialComment"])
  {
    ScopeKeysDistinct();
    CommentRows();
    GetRow(TextmateScopeMappings, 0);
    GetRow(TextmateScopeMappings, 3);
  }

  /** A scope containing "comment.documentation" always finds some groups. */
  lemma DocumentationScopesMatch(entries: GroupTable, scope: string)
    requires ScopeIteration(entries) && Contains(scope, DocumentationScope)
    ensures GroupsForScope(entries, scope).Some?
  {
    CommentRows();
    assert DocumentationScope in TableKeys(TextmateScopeMappings);
    GroupsForScopeMeaning(entries, scope);
  }

  /** Some row of `t` lists `g` among its groups. */
  predicate NamedBy(t: GroupTable, g: string)
  {
    exists i :: 0 <= i < |t| && g in t[i].1
  }

  /** The groups a scope finds are one row's groups. */
  lemma ScopeResultIsRow(entries: GroupTable, scope: string)
    requires ScopeIteration(entries) && GroupsForScope(entries, scope).Some?
    ensures exists i :: 0 <= i < |TextmateScopeMappings| && TextmateScopeMappings[i].1 == GroupsForScope(entries, scope).value
  {
    var f := FirstOccurring(KeysOf(entries), scope);
    GetMeaning(TextmateScopeMappings, entries[f].0);
  }

  /** The groups a token type finds are one row's groups. */
  lemma SemanticResultIsRow(tokenType: string)
    requires GroupsForSemanticToken(tokenType).Some?
    ensures exists i :: 0 <= i < |SemanticTokenMappings| && SemanticTokenMappings[i].1 == GroupsForSemanticToken(tokenType).value
  {
    GetMeaning(SemanticTokenMappings, tokenType);
  }

  /** The editor groups the search colours go to. */
  predicate IsSearchGroup(g: string)
  {
    g == "Normal" || g == "Search" || g == "IncSearch" || g == "CurSearch"
  }

  lemma SearchGroupsNotInScopeHalves()
    ensures forall i, g :: 0 <= i < |ScopeRowsFirst| && g in ScopeRowsFirst[i].1 ==> !IsSearchGroup(g)
    ensures forall i, g :: 0 <= i < |ScopeRowsSecond| && g in ScopeRowsSecond[i].1 ==> !IsSearchGroup(g)
  {
  }

  /** Neither the scope table nor the semantic table ever names "Normal" or a search group. */
  lemma {:induction false} SearchGroupsOnlyFromEditor(g: string)
    requires IsSearchGroup(g)
    ensures !NamedBy(TextmateScopeMappings, g) && !NamedBy(SemanticTokenMappings, g)
  {
    SearchGroupsNotInScopeHalves();
    forall i | 0 <= i < |TextmateScopeMappings| ensures g !in TextmateScopeMappings[i].1 {
      if i < |ScopeRowsFirst| {
        assert TextmateScopeMappings[i] == ScopeRowsFirst[i];
      } else {
        assert TextmateScopeMappings[i] == ScopeRowsSecond[i - |ScopeRowsFirst|];
      }
    }
  }

  lemma SearchRowsFirstHalf()
    ensures forall i :: 0 <= i < |EditorRowsFirst| && EditorRowsFirst[i].group == "Normal" ==> i == 0 || i == 1
    ensures forall i :: 0 <= i < |EditorRowsFirst| && EditorRowsFirst[i].group == "CurSearch" ==> i == 7 || i == 8
    ensures forall i :: 0 <= i < |EditorRowsFirst| && EditorRowsFirst[i].group == "IncSearch" ==> i == 9 || i == 10
    ensures forall i :: 0 <= i < |EditorRowsFirst| && EditorRowsFirst[i].group == "Search" ==> i == 11 || i == 12
  {
  }

  lemma SearchRowsSecondHalf()
    ensures forall i :: 0 <= i < |EditorRowsSecond| ==> !IsSearchGroup(EditorRowsSecond[i].group)
  {
  }

  /** The editor rows that write "Normal" and the three search groups: two rows each, background first. */
  lemma SearchRows()
    ensures forall i :: 0 <= i < |EditorMappings| && EditorMappings[i].group == "Normal" ==> i == 0 || i == 1
    ensures forall i :: 0 <= i < |EditorMappings| && EditorMappings[i].group == "CurSearch" ==> i == 7 || i == 8
    ensures forall i :: 0 <= i < |EditorMappings| && EditorMappings[i].group == "IncSearch" ==> i == 9 || i == 10
    ensures forall i :: 0 <= i < |EditorMappings| && EditorMappings[i].group == "Search" ==> i == 11 || i == 12
    ensures EditorMappings[0] == EditorMapping("editor.background", "Normal", "bg")
    ensures EditorMappings[1] == EditorMapping("editor.foreground", "Normal", "fg")
    ensures EditorMappings[7] == EditorMapping("editor.findMatchBackground", "CurSearch", "bg")
    ensures EditorMappings[8] == EditorMapping("editor.findMatchHighlightForeground", "CurSearch", "fg")
    ensures EditorMappings[9] == EditorMapping("editor.findMatchBackground", "IncSearch", "bg")
    ensures EditorMappings[10] == EditorMapping("editor.findMatchHighlightForeground", "IncSearch", "fg")
    ensures EditorMappings[11] == EditorMapping("editor.findMatchHighlightBackground", "Search", "bg")
    ensures EditorMappings[12] == EditorMapping("editor.findMatchForeground", "Search", "fg")
  {
    SearchRowPositions();
    SearchRowValues();
  }

  lemma {:induction false} SearchRowPositions()
    ensures forall i :: 0 <= i < |EditorMappings| && EditorMappings[i].group == "Normal" ==> i == 0 || i == 1
    ensures forall i :: 0 <= i < |EditorMappings| && EditorMappings[i].group == "CurSearch" ==> i == 7 || i == 8
    ensures forall i :: 0 <= i < |EditorMappings| && EditorMappings[i].group == "IncSearch" ==> i == 9 || i == 10
    ensures forall i :: 0 <= i < |EditorMappings| && EditorMappings[i].group == "Search" ==> i == 11 || i == 12
  {
    SearchRowsFirstHalf();
    SearchRowsSecondHalf();
    forall i | |EditorRowsFirst| <= i < |EditorMappings| ensures !IsSearchGroup(EditorMappings[i].group) {
      assert EditorMappings[i] == EditorRowsSecond[i - |EditorRowsFirst|];
    }
    forall i | 0 <= i < |EditorRowsFirst| ensures EditorMappings[i] == EditorRowsFirst[i] {
    }
  }

  lemma SearchRowValues()
    ensures EditorMappings[0] == EditorMapping("editor.background", "Normal", "bg")
    ensures EditorMappings[1] == EditorMapping("editor.foreground", "Normal", "fg")
    ensures EditorMappings[7] == EditorMapping("editor.findMatchBackground", "CurSearch", "bg")
    ensures EditorMappings[8] == EditorMapping("editor.findMatchHighlightForeground", "CurSearch", "fg")
    ensures EditorMappings[9] == EditorMapping("editor.findMatchBackground", "IncSearch", "bg")
    ensures EditorMappings[10] == EditorMapping("editor.findMatchHighlightForeground", "IncSearch", "fg")
    ensures EditorMappings[11] == EditorMapping("editor.findMatchHighlightBackground", "Search", "bg")
    ensures EditorMappings[12] == EditorMapping("editor.findMatchForeground", "Search", "fg")
  {
    NormalAndCurSearchRows();
    IncSearchAndSearchRows();
    assert 12 < |EditorRowsFirst|;
    assert forall i :: 0 <= i < 13 ==> EditorMappings[i] == EditorRowsFirst[i];
  }

  lemma NormalAndCurSearchRows()
    ensures EditorRowsFirst[0] == EditorMapping("editor.background", "Normal", "bg")
    ensures EditorRowsFirst[1] == EditorMapping("editor.foreground", "Normal", "fg")
    ensures EditorRowsFirst[7] == EditorMapping("editor.findMatchBackground", "CurSearch", "bg")
    ensures EditorRowsFirst[8] == EditorMapping("editor.findMatchHighlightForeground", "CurSearch", "fg")
  {
  }

  lemma IncSearchAndSearchRows()
    ensures EditorRowsFirst[9] == EditorMapping("editor.findMatchBackground", "IncSearch", "bg")
    ensures EditorRowsFirst[10] == EditorMapping("editor.findMatchHighlightForeground", "IncSearch", "fg")
    ensures EditorRowsFirst[11] == EditorMapping("editor.findMatchHighlightBackground", "Search", "bg")
    ensures EditorRowsFirst[12] == EditorMapping("editor.findMatchForeground", "Search", "fg")
  {
  }

}
