/**
 * Facts the converter and both renderers derive from the theme itself:
 * whether it is dark, the background word the scripts write, and the
 * file-safe form of a name.
 */
module ThemeInfo {
  import opened Types
  import opened Color

  /** The characters `sanitize_name` turns into '_'. */
  predicate IsSeparator(c: char)
  {
    c == ' ' || c == '-' || c == '.' || c == ':' || c == '/' || c == '\\'
  }

  predicate IsUpperAscii(c: char)
  {
    'A' <= c <= 'Z'
  }

  /** `char::to_lowercase` on the ASCII range. */
  function LowerAscii(c: char): (r: char)
    ensures !IsUpperAscii(r)
    ensures IsUpperAscii(c) ==> r != c && r as int - c as int == 32
    ensures !IsUpperAscii(c) ==> r == c
  {
    if IsUpperAscii(c) then (c as int + 32) as char else c
  }

  /** `str::to_lowercase`, character by character. */
  function ToLower(s: string): (r: string)
    ensures |r| == |s|
    ensures forall i :: 0 <= i < |s| ==> r[i] == LowerAscii(s[i])
    decreases |s|
  {
    if s == [] then [] else ToLower(s[..|s| - 1]) + [LowerAscii(s[|s| - 1])]
  }

  /** `str::replace([' ', '-', '.', ':', '/', '\\'], "_")`. */
  function ReplaceSeparators(s: string): (r: string)
    ensures |r| == |s|
    ensures forall i :: 0 <= i < |s| ==> r[i] == (if IsSeparator(s[i]) then '_' else s[i])
    decreases |s|
  {
    if s == [] then []
    else ReplaceSeparators(s[..|s| - 1]) + [if IsSeparator(s[|s| - 1]) then '_' else s[|s| - 1]]
  }

  /**
   * `sanitize_name`: lower-case the name, then replace every separator by
   * '_'. The length is kept; a character becomes '_' exactly when it is a
   * separator, and is otherwise its lower-case form.
   */
  function SanitizeName(name: string): (r: string)
    ensures |r| == |name|
    ensures forall i :: 0 <= i < |name| ==> (r[i] == '_' <==> IsSeparator(name[i]) || name[i] == '_')
    ensures forall i :: 0 <= i < |name| && !IsSeparator(name[i]) ==> r[i] == LowerAscii(name[i])
  {
    ReplaceSeparators(ToLower(name))
  }

  /** A sanitized name holds no separator and no upper-case letter. */
  lemma SanitizedIsFileSafe(name: string)
    ensures forall i :: 0 <= i < |SanitizeName(name)| ==>
              !IsSeparator(SanitizeName(name)[i]) && !IsUpperAscii(SanitizeName(name)[i])
  {
  }

  /** Sanitizing twice is sanitizing once. */
  lemma {:induction false} SanitizeIdempotent(name: string)
    ensures SanitizeName(SanitizeName(name)) == SanitizeName(name)
  {
    var s := SanitizeName(name);
    SanitizedIsFileSafe(name);
    var t := SanitizeName(s);
    forall i | 0 <= i < |s| ensures t[i] == s[i] {
      assert !IsSeparator(s[i]) && !IsUpperAscii(s[i]);
    }
  }

  /** Names that differ only in case or in which separator they use sanitize alike. */
  lemma SanitizeMergesSpellings()
    ensures SanitizeName("One Dark") == SanitizeName("one-dark") == "one_dark"
  {
    SanitizeByChars("One Dark", "one_dark");
    SanitizeByChars("one-dark", "one_dark");
  }

  /** A name sanitizes to `expected` when `expected` is, position by position, the sanitized character. */
  lemma SanitizeByChars(name: string, expected: string)
    requires |expected| == |name|
    requires forall i :: 0 <= i < |name| ==> expected[i] == (if IsSeparator(name[i]) then '_' else LowerAscii(name[i]))
    ensures SanitizeName(name) == expected
  {
    assert ReplaceSeparators(ToLower(name)) == expected;
  }

  /**
   * The converter's `is_dark_theme`: the declared type "dark" or "light"
   * decides; any other type falls back to the brightness of
   * `editor.background`, and a theme without one is light.
   */
  predicate ConverterIsDark(theme: ThemeConfig)
  {
    if theme.themeType == "dark" then true
    else if theme.themeType == "light" then false
    else if "editor.background" in theme.colors then IsDarkColor(theme.colors["editor.background"])
    else false
  }

  /**
   * Both renderers' `is_dark_theme`: "dark" decides, and otherwise, even
   * for a theme declared "light", the brightness of `editor.background`.
   */
  predicate RendererIsDark(theme: ThemeConfig)
  {
    theme.themeType == "dark" ||
    ("editor.background" in theme.colors && IsDarkColor(theme.colors["editor.background"]))
  }

  /** The two tests agree except on a "light" theme with a dark background. */
  lemma DarkTestsAgree(theme: ThemeConfig)
    ensures ConverterIsDark(theme) ==> RendererIsDark(theme)
    ensures ConverterIsDark(theme) != RendererIsDark(theme) <==>
              theme.themeType == "light" && "editor.background" in theme.colors &&
              IsDarkColor(theme.colors["editor.background"])
  {
  }

  /**
   * A theme declared "light" with a black background: the converter picks
   * light default colours, while the Vim and Lua scripts set a dark background.
   */
  lemma LightThemeOnBlack(theme: ThemeConfig)
    requires theme.themeType == "light" && theme.colors == map["editor.background" := Hex6(0, 0, 0)]
    ensures !ConverterIsDark(theme) && RendererIsDark(theme)
  {
    GreyDarkBelowMidpoint(0);
  }

  /**
   * `is_dark_theme` of either renderer, as the word both scripts write:
   * Vim's `set background=` and Lua's `vim.o.background`.
   */
  function BackgroundTone(theme: ThemeConfig): (tone: string)
    ensures tone == "dark" <==> RendererIsDark(theme)
    ensures tone == "dark" || tone == "light"
  {
    if RendererIsDark(theme) then "dark" else "light"
  }
}
