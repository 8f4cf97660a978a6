/** The few pieces of Rust's `str`/`String` API the converter relies on. */
module Strings {

  /** `k` occurs in `s` starting at position `i`. */
  predicate OccursAt(k: string, s: string, i: nat)
  {
    i + |k| <= |s| && s[i..i + |k|] == k
  }

  /** `s.contains(k)`: `k` is a contiguous run of `s` (the empty string occurs everywhere). */
  predicate Contains(s: string, k: string)
  {
    exists i: nat | i <= |s| :: OccursAt(k, s, i)
  }

  /** A string that holds a character `s` does not hold cannot occur in `s`. */
  lemma NotContainsByChar(s: string, k: string, j: nat)
    requires j < |k| && k[j] !in s
    ensures !Contains(s, k)
  {
    forall i: nat ensures !OccursAt(k, s, i) {
      if i + |k| <= |s| {
        assert s[i..i + |k|][j] == s[i + j];
      }
    }
  }

  /** Every prefix of `s` occurs in `s`. */
  lemma PrefixContained(s: string, k: string)
    requires k <= s
    ensures Contains(s, k)
  {
    assert OccursAt(k, s, 0);
  }

  /** Occurrence is transitive: a run of a run of `s` is a run of `s`. */
  lemma ContainsTransitive(s: string, k: string, k': string)
    requires Contains(s, k) && Contains(k, k')
    ensures Contains(s, k')
  {
    var i: nat :| i <= |s| && OccursAt(k, s, i);
    var j: nat :| j <= |k| && OccursAt(k', k, j);
    forall t | 0 <= t < |k'| ensures s[i + j + t] == k'[t] {
      assert k'[t] == k[j + t] == s[i..i + |k|][j + t];
    }
    assert s[i + j..i + j + |k'|] == k';
    assert OccursAt(k', s, i + j);
  }

  /** `parts.join(sep)`. */
  function Join(parts: seq<string>, sep: string): string
    decreases |parts|
  {
    if parts == [] then ""
    else if |parts| == 1 then parts[0]
    else Join(parts[..|parts| - 1], sep) + sep + parts[|parts| - 1]
  }

  /** The joined text ends with the last part. */
  lemma JoinEndsWithLast(parts: seq<string>, sep: string)
    requires parts != []
    ensures |parts[|parts| - 1]| <= |Join(parts, sep)|
    ensures Join(parts, sep)[|Join(parts, sep)| - |parts[|parts| - 1]|..] == parts[|parts| - 1]
  {
  }

  /** The joined text starts with the first part. */
  lemma {:induction false} JoinStartsWithFirst(parts: seq<string>, sep: string)
    requires parts != []
    ensures parts[0] <= Join(parts, sep)
    decreases |parts|
  {
    if |parts| > 1 {
      var init := parts[..|parts| - 1];
      JoinStartsWithFirst(init, sep);
      assert init[0] == parts[0];
    }
  }

  /** Lines terminated by a newline each, as a loop of `push_str(line); push('\n')` builds them. */
  function Unlines(lines: seq<string>): string
    decreases |lines|
  {
    if lines == [] then "" else Unlines(lines[..|lines| - 1]) + lines[|lines| - 1] + "\n"
  }

  /** Texts concatenated in order. */
  function Concat(texts: seq<string>): string
    decreases |texts|
  {
    if texts == [] then "" else Concat(texts[..|texts| - 1]) + texts[|texts| - 1]
  }
}
