# themex: a Dafny model of the theme converter core

themex converts a VSCode colour theme into a Vim colour scheme and a Neovim
Lua colour module. This project models the converter core in Dafny and proves
properties of it. The core is the colour arithmetic (`color.rs`), the static
mapping tables and their lookups (`mapping.rs`), the `ThemeConverter` that
builds the table of highlight groups in five passes (`mod.rs`), and the two
renderers (`vim_gen.rs`, `lua_gen.rs`).

Layout, one Dafny module per concern:

- `wrappers.dfy`: `Option` and `Result`.
- `strings.dfy`: substring search (`str::contains`), `join` and line concatenation.
- `iteration.dfy`: iteration over a Rust `HashMap`. Such an iteration visits every key once, in an order the program does not control.
- `types.dfy`: the theme record and the highlight group.
- `color.dfy`: `parse_color`, `is_dark_color` and `normalize_color`.
- `theme_info.dfy`: `sanitize_name`, the two darkness tests and the background word the scripts write.
- `mapping.dfy`: the four tables and the two lookups.
- `resolution.dfy`: what each pass of the converter computes, as functions, with the lemmas about them.
- `converter.dfy`: the `ThemeConverter` class. Its methods update its `highlights` map in place, and each is proved to compute the function for its pass.
- `vim_gen.dfy` and `lua_gen.dfy`: the two generators. Each is an imperative method proved equal to a function that gives the whole output text.

How the model treats the behaviours that need a decision:

- **HashMap order.** Rust's `HashMap` iteration order is not specified. Three loops depend on it: the textmate scope table inside `get_vim_groups_for_scope`, the theme's semantic token map, and the highlight map in both generators. The model represents such an order as a sequence that enumerates the key set. The methods choose one. The contracts hold for every possible choice: `Convert` ends with `Resolve(theme, old, entries, torder)` for the orders it met, which it returns as ghost results, and each generator's output is `Script(theme, hl, order)` for some enumeration `order` of the groups.
- **Ambiguous scope lookup.** The scope lookup returns the first table key contained in the scope. A scope such as `comment.documentation` contains two keys, so the answer depends on the order. `Mapping.DocumentationScopeIsAmbiguous` proves that both answers are possible and says exactly when each one happens. The model does not pick a fixed policy, because the code does not have one.
- **Integer arithmetic.** The code computes brightness and alpha compositing in `f32`. The model uses exact integers. A colour is dark iff `299 R + 587 G + 114 B < 128000`, or it is one of the eight colours of exact brightness 128 whose `f32` sum rounds to 127.99999237 (`Color.RoundedDark`: `#4baf19`, `#5e9c49`, `#718979`, `#8476a9`, `#c75d7a`, `#ca7206`, `#da4aaa`, `#ed37da`); Rust calls those dark too. Compositing is `(2 (a f + (255 - a) b) + 255) div 510`, which is round-half-up of `(a f + (255 - a) b) / 255`. Exact halves never occur, so Rust's `round` agrees.
- **Parser quirks kept.** `parse_color` strips every leading `#`, so `##fff` parses. A two-digit pair may start with `+`, because `u8::from_str_radix` accepts a leading plus sign.

Behaviours of the code a reader may not expect:

- The dark-theme default background is `#1e1e1e` (`src/converter/mod.rs:19`).
- The search groups take their colours from the editor table (`src/converter/mod.rs:104-116`); no token rule names them.
- Both generators' `is_dark_theme` ignore a `"light"` type (`src/converter/vim_gen.rs:115-126`). A light theme on a dark background therefore gets `background=dark` in its output, while the converter itself treats it as light (`ThemeInfo.LightThemeOnBlack`).
- The Lua generator `unwrap`s `editor.background`, so it panics when a non-empty table meets a theme without one.

## Model

| member | source | states |
|---|---|---|
| `Color.ParseColor` | src/converter/color.rs:12-17 | An input without a leading '#' is an unsupported format. After all leading '#'s are stripped, a length other than 3, 6 or 8 is an invalid length. Three- and six-digit forms are opaque. |
| `Color.ParseBody` | src/converter/color.rs:19-43 | On the text after the '#'s, only lengths 3, 6 and 8 avoid the invalid-length error, and the 3- and 6-digit forms are opaque. |
| `Color.ParseColorDigits` | src/converter/color.rs:19-41 | For a body of 3, 6 or 8 characters: it parses iff every digit pair passes `from_str_radix` (in the short form every character must be a hex digit, since each is doubled), and any failure is an invalid digit. A '+' anywhere in a 3-character body fails. |
| `Color.ShortFormExpands` | src/converter/color.rs:21-26 | `#xyz` parses exactly as `#xxyyzz`. |
| `Color.ShortFormChannels` | src/converter/color.rs:21-26 | With hex digits, each channel of `#xyz` is 17 times the digit's value, and alpha is 255. |
| `Color.LongFormChannels` | src/converter/color.rs:28-41 | The six- and eight-digit forms read their channels pairwise, in order. Alpha is 255 unless the input has eight digits. |
| `Color.ExtraHashesIgnored` | src/converter/color.rs:17 | An extra leading '#' changes nothing. |
| `Color.PlusSignAccepted` | src/converter/color.rs:29 | `#+f0000` parses as red 15. `#+ab` fails, because the short form doubles the sign. |
| `Color.ParseByte` | src/converter/color.rs:29-39 | A pair parses iff its second character is a hex digit and its first is a hex digit or '+'. |
| `Color.Hex6RoundTrip` | src/converter/color.rs:58 | Formatting three bytes as `#rrggbb` and parsing them back gives the same opaque colour. |
| `Color.Hex8RoundTrip` | src/converter/color.rs:35-41 | `#rrggbbaa` parses back to the same four channels. |
| `Color.GreyDarkBelowMidpoint` | src/converter/color.rs:3-10 | A grey is dark iff its level is below 128. |
| `Color.DarkBoundary` | src/converter/color.rs:5-6 | Among greys, `#808080` (level 128) is light and `#7f7f7f` is dark. |
| `Color.DarkChannelsThreshold` | src/converter/color.rs:5-6 | Brightness below 128 is dark and above 128 is light; at exactly 128 a colour is dark iff it is one of the eight whose `f32` sum rounds below 128. |
| `Color.RoundedDarkOnThreshold` | src/converter/color.rs:5-6 | Each of the eight rounded colours has exact brightness 128, so the rounding moves only colours on the threshold. |
| `Color.RoundedBoundaryColour` | src/converter/color.rs:3-10 | `#ca7206` has exact brightness 128 and is dark. |
| `Color.InvalidIsLight` | src/converter/color.rs:7-9 | A colour that does not parse is never dark. |
| `Color.Blend` | src/converter/color.rs:51-56 | A composited channel lies between the foreground's and the background's values. It is the foreground's at alpha 255 and the background's at alpha 0. |
| `Color.NormalizeColor` | src/converter/color.rs:46-59 | Succeeds iff both colours parse, and a foreground error is passed on unchanged. Success is a lowercase `#rrggbb` string. |
| `Color.NormalizedParsesBack` | src/converter/color.rs:48-58 | The normalized string parses back to the composited channels, opaque. |
| `Color.NormalizeOpaque` | src/converter/color.rs:51-58 | An opaque foreground is returned as its own RGB, whatever the background. |
| `Color.NormalizeTransparent` | src/converter/color.rs:51-58 | A fully transparent foreground gives the background's RGB. |
| `Color.NormalizeSelf` | src/converter/color.rs:46-58 | Normalizing a colour over itself strips its alpha and keeps its RGB. |
| `Color.NormalizeIdempotent` | src/converter/color.rs:46-58 | Self-normalizing an already normalized colour changes nothing. |
| `ThemeInfo.SanitizeName` | src/converter/mod.rs:329-332 | Keeps the length. A position becomes '_' iff it held a separator (space, '-', '.', ':', '/', '\\') or '_'. Every ASCII upper-case letter is lower-cased; other characters are kept. |
| `ThemeInfo.SanitizedIsFileSafe` | src/converter/vim_gen.rs:129-132 | A sanitized name holds no separator and no upper-case ASCII letter. |
| `ThemeInfo.SanitizeIdempotent` | src/converter/lua_gen.rs:171-174 | Sanitizing twice is sanitizing once. |
| `ThemeInfo.SanitizeMergesSpellings` | src/converter/mod.rs:329-332 | "One Dark" and "one-dark" both become "one_dark". |
| `ThemeInfo.DarkTestsAgree` | src/converter/mod.rs:252-264 | The converter's darkness test implies the generators'. They differ exactly for a "light" theme whose editor background is dark. |
| `ThemeInfo.LightThemeOnBlack` | src/converter/vim_gen.rs:115-126 | A "light" theme on a black background is light to the converter and dark to the generators. |
| `ThemeInfo.BackgroundTone` | src/converter/vim_gen.rs:24-28 | The word both scripts write for the background (also `src/converter/lua_gen.rs:32-39`): "dark" iff the generators' darkness test holds, otherwise "light". |
| `Mapping.GetMeaning` | src/converter/mapping.rs:93-152 | A `HashMap` built by inserts has a key iff some insert used it. Its value is the one of the last insert with that key. |
| `Mapping.ScopeKeysDistinct` | src/converter/mapping.rs:93-152 | No scope key is inserted twice, so every row's value is the one the map holds. |
| `Mapping.SemanticKeysDistinct` | src/converter/mapping.rs:155-182 | No token type is inserted twice. |
| `Mapping.ScopeGroupListsNonEmpty` | src/converter/mapping.rs:93-152 | Every scope maps to at least one group. |
| `Mapping.GroupListsNonEmpty` | src/converter/mapping.rs:58-90 | Every semantic row and every alias row names at least one group. |
| `Mapping.EditorAttributesAreColours` | src/converter/mapping.rs:5-55 | Every editor row sets `fg` or `bg`. |
| `Mapping.AliasesAreNotBases` | src/converter/mapping.rs:58-90 | Base names never start with '@'. Alias names always do. |
| `Mapping.AliasRowShapes` | src/converter/mapping.rs:58-90 | Only the `Function` row has two aliases. Every other row has one. |
| `Mapping.AliasesDistinct` | src/converter/mapping.rs:58-90 | No alias name appears twice in the alias table. |
| `Mapping.IterateTable` | src/converter/mapping.rs:186 | Iterating the scope map yields every key once, each with its value. |
| `Mapping.FirstOccurringMeaning` | src/converter/mapping.rs:185-192 | The lookup stops at the first key, in iteration order, that the scope contains. No earlier key occurs in the scope. |
| `Mapping.GroupsForScopeMeaning` | src/converter/mapping.rs:185-192 | For every iteration order, the lookup fails iff the scope contains no key. On success it returns the groups of a key the scope contains. |
| `Mapping.SemanticLookupMeaning` | src/converter/mapping.rs:195-197 | The semantic lookup succeeds iff the token type is a key, and then returns that key's row. |
| `Mapping.SemanticLookupIsExact` | src/converter/mapping.rs:195-197 | The semantic lookup is exact, not by substring: "functionCall" finds nothing although it contains "function". |
| `Mapping.DocumentationScopeIsAmbiguous` | src/converter/mapping.rs:96-99 | `comment.documentation` resolves to `Comment` or to `SpecialComment`. It is `Comment` iff the iteration meets "comment" before `comment.documentation`. |
| `Mapping.DocumentationScopesMatch` | src/converter/mapping.rs:185-192 | Any scope that contains `comment.documentation` finds some groups. |
| `Mapping.ScopeResultIsRow` | src/converter/mapping.rs:188 | A successful scope lookup returns one of the table's group lists. |
| `Mapping.SemanticResultIsRow` | src/converter/mapping.rs:196 | A successful semantic lookup returns one of the table's group lists. |
| `Mapping.SearchGroupsOnlyFromEditor` | src/converter/mapping.rs:93-182 | No scope row and no semantic row names `Normal`, `Search`, `IncSearch` or `CurSearch`. |
| `Mapping.SearchRows` | src/converter/mapping.rs:7-23 | Gives the editor rows that set `Normal` and the three search groups, with their keys and attributes. No other row sets these groups. |
| `Resolution.NormalGroup` | src/converter/mod.rs:76-102 | `Normal` takes the editor foreground and background when present. Otherwise it takes the default pair of the converter's tone. Nothing else is set. |
| `Resolution.DefaultsFitTone` | src/converter/mod.rs:17-20 | The dark defaults are a dark background under a light foreground. The light defaults are the reverse. |
| `Resolution.SetAttr` | src/converter/mod.rs:277-286 | Only the named group changes, and it is created if missing. Its named colour attribute gets the value. |
| `Resolution.SetField` | src/converter/mod.rs:280-285 | Setting a colour attribute changes that attribute only. Flags and link are untouched. |
| `Resolution.SetAttrUnknownCreatesEmpty` | src/converter/mod.rs:278-284 | An unknown attribute still creates the group, as the default record. |
| `Resolution.EditorPass` | src/converter/mod.rs:104-116 | The editor pass removes no group that was already in the table. |
| `Resolution.EditorPassMembers` | src/converter/mod.rs:104-116 | After the editor pass a name is a group exactly when it was one before or some row names it with a colour key the theme has. |
| `Resolution.EditorPassField` | src/converter/mod.rs:104-116 | Each colour attribute ends with the value of the last row that sets it from a key the theme has. Otherwise it keeps what it held. Flags and link are untouched. |
| `Resolution.EditorBackgroundOnly` | src/converter/mod.rs:104-116 | A group new to the table whose foreground keys the theme all lacks leaves the editor pass with no foreground and the colour of its last present background row. |
| `Resolution.EditorPassUntouched` | src/converter/mod.rs:104-116 | A group no editor row names keeps its record. |
| `Resolution.InsertAll` | src/converter/mod.rs:125-136 | After the inserts, every named group holds the new record and every other group its old one. |
| `Resolution.InsertAllAppend` | src/converter/mod.rs:139-157 | Inserting two lists of groups one after the other is inserting their concatenation. |
| `Resolution.ScopeGroupsMembers` | src/converter/mod.rs:139-157 | A rule reaches a group iff one of its scopes' lookups returns it. |
| `Resolution.TokenPass` | src/converter/mod.rs:120-160 | The rule pass removes no group. |
| `Resolution.TokenPassMembers` | src/converter/mod.rs:120-160 | The rule pass creates exactly the groups some rule reaches. |
| `Resolution.TokenPassLastRuleWins` | src/converter/mod.rs:120-160 | A group reached by rules holds exactly the foreground and background of the last rule that reaches it. Records are replaced, not merged. |
| `Resolution.TokenPassUntouched` | src/converter/mod.rs:120-160 | A group no rule reaches is neither created nor changed. |
| `Resolution.SemanticPass` | src/converter/mod.rs:162-175 | The semantic pass creates exactly the groups some token type maps to. |
| `Resolution.SemanticPassLastWins` | src/converter/mod.rs:162-175 | A group holds only the foreground of the last token type, in iteration order, that maps to it. |
| `Resolution.SemanticPassUntouched` | src/converter/mod.rs:162-175 | A group no token type maps to is neither created nor changed. |
| `Resolution.SyntaxPass` | src/converter/mod.rs:118-178 | The syntax pass removes no group. |
| `Resolution.AliasWrites` | src/converter/mod.rs:195-201 | Exactly the aliases of bases present in the table are queued, each with its base's record. |
| `Resolution.RowWrites` | src/converter/mod.rs:196-200 | One row queues each alias with the base's record, or nothing when the base is absent. |
| `Resolution.InsertEachStep` | src/converter/mod.rs:198 | Queuing one more write overrides exactly that name in the table built so far. |
| `Resolution.InsertEachAgreeing` | src/converter/mod.rs:198 | A name whose every queued write carries the same record ends with that record. |
| `Resolution.AliasPass` | src/converter/mod.rs:192-204 | The alias pass removes no group. |
| `Resolution.AliasPassCopies` | src/converter/mod.rs:192-204 | Every alias of a present base ends with the base's record from before the pass, even when the alias existed already. |
| `Resolution.AliasPassAbsentBase` | src/converter/mod.rs:196 | An alias whose bases are all absent is neither created nor changed. |
| `Resolution.AliasPassKeepsOthers` | src/converter/mod.rs:202 | A name not starting with '@' survives the alias pass unchanged. |
| `Resolution.UnnamedNotReached` | src/converter/mod.rs:124-125 | No rule reaches a group that the scope table does not name. |
| `Resolution.SyntaxPassUntouched` | src/converter/mod.rs:118-178 | A group named by neither the scope table nor the semantic table survives the syntax pass unchanged. |
| `Resolution.ResolveKeepsGroups` | src/converter/mod.rs:61-69 | `convert` removes no group and always creates `Normal`. |
| `Resolution.ResolveEditorGroup` | src/converter/mod.rs:61-69 | A group that only the editor table sets ends `convert` with its editor-pass record. |
| `Resolution.EditorFieldFromRow` | src/converter/mod.rs:108-109 | An editor row whose key the theme has sets its attribute, unless a later row for the same attribute overrides it. |
| `Resolution.EditorFieldUnset` | src/converter/mod.rs:108-113 | An attribute whose rows all have missing keys keeps its previous value. |
| `Resolution.SearchGroupColours` | src/converter/mod.rs:104-116 | A search group ends `convert` with its editor background and no foreground when no foreground key is present. |
| `Resolution.NormalColours` | src/converter/mod.rs:76-116 | With both editor colours present, `Normal` ends `convert` with exactly those colours. |
| `Resolution.FixtureSearchColours` | tests/test.rs:38-58 | On the test's palette, `Normal` is `#cdd6f4` on `#1e1e2e`. `Search` has background `#3e5767`. `IncSearch` and `CurSearch` have background `#5e3f53`. None of these search groups has a foreground. |
| `Converter.ThemeConverter.constructor` | src/converter/mod.rs:51-59 | A new converter has an empty table and no content. |
| `Converter.ThemeConverter.Convert` | src/converter/mod.rs:61-69 | The table becomes `Resolve` of the old one for the iteration orders met, and `Normal` is present. The requested outputs become the Vim script and the Lua module of the final table. Outputs not requested are untouched. |
| `Converter.ThemeConverter.ApplyMappings` | src/converter/mod.rs:62-65 | The four passes in order compute `Resolve`. |
| `Converter.ThemeConverter.GetHighlights` | src/converter/mod.rs:71-73 | Returns the table as it stands. |
| `Converter.ThemeConverter.ApplyBasicMappings` | src/converter/mod.rs:76-102 | Inserts `NormalGroup` under `Normal` and changes nothing else. |
| `Converter.ThemeConverter.ApplyEditorMappings` | src/converter/mod.rs:104-116 | The table becomes the editor pass of the old one. |
| `Converter.ThemeConverter.ApplyEditorRows` | src/converter/mod.rs:105-115 | Applying rows in order computes the editor pass over those rows. |
| `Converter.ThemeConverter.ApplySyntaxMappings` | src/converter/mod.rs:118-178 | The table becomes `SyntaxPass` of the old one, for the scope-table and semantic-map orders it returns. |
| `Converter.ThemeConverter.ApplyTokenRules` | src/converter/mod.rs:120-160 | The table becomes `TokenPass` over the theme's rules. |
| `Converter.ThemeConverter.ApplyTokenRule` | src/converter/mod.rs:121-159 | One rule inserts its record under every group its scopes map to. |
| `Converter.ThemeConverter.ApplyScopes` | src/converter/mod.rs:139-157 | The scopes of a multi-scope rule, in order. |
| `Converter.ThemeConverter.ApplyScope` | src/converter/mod.rs:124-136 | One scope inserts the record under the groups its lookup returns. |
| `Converter.ThemeConverter.InsertGroups` | src/converter/mod.rs:125-136 | Inserting under each group in order computes `InsertAll`. |
| `Converter.ThemeConverter.ApplySemanticTokens` | src/converter/mod.rs:162-175 | The table becomes `SemanticPass` in the iteration order of the token map. |
| `Converter.ThemeConverter.ApplyTreesitterMappings` | src/converter/mod.rs:192-204 | The table becomes `AliasPass` of the old one. |
| `Converter.ThemeConverter.CollectAliases` | src/converter/mod.rs:193-201 | The queued map holds the alias writes of the whole table, computed against the table as it was. |
| `Converter.ThemeConverter.CollectRow` | src/converter/mod.rs:196-200 | One row adds its alias writes to the queued map. |
| `Converter.ThemeConverter.GenerateContent` | src/converter/mod.rs:206-224 | Each requested format's content is its generator's output on the current table. The other content is untouched. |
| `Converter.ThemeConverter.GenerateVim` | src/converter/mod.rs:211-212 | The Vim content becomes the script of the current table. |
| `Converter.ThemeConverter.GenerateLua` | src/converter/mod.rs:219-220 | The Lua content becomes the module of the current table. |
| `Converter.ThemeConverter.AddHighlight` | src/converter/mod.rs:273-275 | Inserts the record, replacing any old one. |
| `Converter.ThemeConverter.AddHighlightAttr` | src/converter/mod.rs:277-286 | The table becomes `SetAttr` of the old one. |
| `VimGen.ColourPartMeaning` | src/converter/vim_gen.rs:69-85 | A colour attribute is written iff the colour parses. It is written as the colour's own RGB, with alpha dropped. |
| `VimGen.StyleWordsMeaning` | src/converter/vim_gen.rs:87-102 | The style words are exactly the set flags. There are none iff no flag is set. |
| `VimGen.StyleClauseMeaning` | src/converter/vim_gen.rs:104-108 | The style is "NONE" iff no flag is set. Otherwise it is the words joined by commas. |
| `VimGen.FormatHighlightGroup` | src/converter/vim_gen.rs:62-113 | Computes the group's line: a link statement, or `hi` with the colour parts and `gui=` style. |
| `VimGen.CollectColours` | src/converter/vim_gen.rs:67-85 | Computes the `guifg`, `guibg` and `guisp` parts that are valid, in that order. |
| `VimGen.CollectStyle` | src/converter/vim_gen.rs:87-108 | Computes the style clause. |
| `VimGen.LinkedLine` | src/converter/vim_gen.rs:63-65 | A linked group's line is `hi link <group> <target>`. No other field matters. |
| `VimGen.UnlinkedLineShape` | src/converter/vim_gen.rs:67-112 | An unlinked line starts with `hi <group> `, ends with `gui=<style>`, and has at most three colour parts. |
| `VimGen.BodyGroups` | src/converter/vim_gen.rs:45-50 | The loop writes every group but `Normal`, each once. |
| `VimGen.GroupLines` | src/converter/vim_gen.rs:45-50 | One line per group, in order. |
| `VimGen.MissingLinksMeaning` | src/converter/vim_gen.rs:53-57 | A default link is written iff its group is absent from the table. |
| `VimGen.LinkLines` | src/converter/vim_gen.rs:55 | One `hi link` line per written default link. |
| `VimGen.Generate` | src/converter/vim_gen.rs:17-60 | The output is the header, `Normal` first, the other groups in some iteration order of the table, then the missing default links. |
| `VimGen.WriteGroups` | src/converter/vim_gen.rs:45-50 | The group loop appends the lines of every group but `Normal`. |
| `VimGen.WriteDefaultLinks` | src/converter/vim_gen.rs:52-57 | The link loop appends the lines of the missing default links. |
| `VimGen.BodyListsEachGroupOnce` | src/converter/vim_gen.rs:40-50 | Every group except `Normal` gets exactly one line in the loop. |
| `VimGen.DefaultLinkWritten` | src/converter/vim_gen.rs:134-142 | A row of the default links is written iff the table lacks its group. |
| `LuaGen.GroupKey` | src/converter/lua_gen.rs:147-153 | A group name is quoted and bracketed iff it contains '@'. The name is kept inside the brackets. |
| `LuaGen.ColourFieldMeaning` | src/converter/lua_gen.rs:109-129 | A colour field is written iff the colour and the editor background both parse. An opaque colour is written as its own RGB. |
| `LuaGen.FormatHighlightTable` | src/converter/lua_gen.rs:99-156 | Computes the group's entry: the colours composited over the editor background, then the set flags. |
| `LuaGen.CollectColours` | src/converter/lua_gen.rs:109-129 | Computes the `fg`, `bg` and `sp` fields that are valid, in that order. |
| `LuaGen.CollectFlags` | src/converter/lua_gen.rs:131-145 | Computes the `= true` fields of the set flags, in order. |
| `LuaGen.EntryIgnoresLink` | src/converter/lua_gen.rs:104-107 | A group's link plays no part in its entry. |
| `LuaGen.EmptyEntry` | src/converter/lua_gen.rs:147-155 | A group with nothing valid gets an empty entry, with no "NONE" marker. |
| `LuaGen.Entries` | src/converter/lua_gen.rs:44-46 | One entry per group of the order, in order. |
| `LuaGen.Generate` | src/converter/lua_gen.rs:17-96 | The output is the header, one entry per group in some iteration order of the table, then the footer. |
| `LuaGen.WriteEntries` | src/converter/lua_gen.rs:44-46 | The group loop appends one entry per group of the iteration order, in that order. |
| `LuaGen.OneEntryPerGroup` | src/converter/lua_gen.rs:44-46 | Every group of the table gets exactly one entry. |
| `Iteration.IterationOrder` | src/converter/vim_gen.rs:45 | An iteration visits every key exactly once. |
| `Iteration.EnumerationSize` | src/converter/lua_gen.rs:44 | An iteration has as many steps as the map has keys. |
| `Strings.JoinStartsWithFirst` | src/converter/vim_gen.rs:107 | A join begins with its first part. |
| `Strings.JoinEndsWithLast` | src/converter/vim_gen.rs:112 | A join ends with its last part. |

## Left out

- File output (`save_to_files`), the command line (`main.rs`), theme reading (`utils`) and all `println!`/`log` calls. These are I/O.
- `convert`, `generate_content` and `generate` return `anyhow::Result`, but no error path in them is reachable, so the model's methods return nothing or the content.
- LuaGen.Generate: requires `editor.background` in the theme's colours whenever the table is non-empty. The source `unwrap`s it and panics without it. The same precondition carries over to `Converter.ThemeConverter.Convert` whenever Lua output is requested.
- `include_treesitter` and `include_lsp` are read by nothing in the core. They are kept in `ConversionOptions` only.
- `rgb_to_hsl` is unused by the core. `SemanticTokenColors::get_unique_colors` and the `Debug`/`Display` impls produce no model state.
- `f32` arithmetic is replaced by exact integer arithmetic; see the notes above.
- Color.IsDarkColor: the `f32` evaluation of the brightness is not modelled as such. Its only effect on the answer, the eight colours of exact brightness 128 that it calls dark (`#4baf19`, `#5e9c49`, `#718979`, `#8476a9`, `#c75d7a`, `#ca7206`, `#da4aaa`, `#ed37da`), is written out as the set `Color.RoundedDark`.
- ThemeInfo.SanitizeName: only ASCII letters are lower-cased. Rust's `to_lowercase` also folds non-ASCII letters and may change the length (`'İ'` becomes `"i̇"`), and the result reaches `colors_name` in both scripts.
- `get_theme_name` (the custom name when one is given, otherwise the theme's own) is called only by `save_to_files` to name the output files, which are file output, so it is left out with it.
- Non-ASCII theme colour strings: the model counts characters where Rust counts bytes. On such input Rust either errors or panics at a slice boundary; the model always errors.
- The `fontStyle` of token rules and semantic settings is read by nothing in the core. It is carried in the types only.
