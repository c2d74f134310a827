/** String helpers shared by the log scripts: Python's substring test
    (`needle in text`), the ASCII case folding used to model `re.IGNORECASE`
    for literal patterns, and the character classes `\s` and `\d`. */
module Text {

  /** `prefix` is an initial segment of `s`. */
  predicate StartsWith(s: string, prefix: string) {
    |prefix| <= |s| && s[..|prefix|] == prefix
  }

  /** Python's `needle in text` for `str`: a case-sensitive substring test.
      The empty needle is contained in every text. */
  predicate Contains(text: string, needle: string)
    decreases |text|
  {
    StartsWith(text, needle) || (|text| > 0 && Contains(text[1..], needle))
  }

  /** `needle` occurs in `text` starting at offset `i`. */
  predicate OccursAt(text: string, needle: string, i: int) {
    0 <= i <= |text| - |needle| && text[i..i + |needle|] == needle
  }

  /** `Contains` holds exactly when `needle` occurs at some offset of `text`. */
  lemma {:induction false} ContainsAt(text: string, needle: string)
    ensures Contains(text, needle) <==> exists i :: OccursAt(text, needle, i)
    decreases |text|
  {
    if Contains(text, needle) {
      if !StartsWith(text, needle) {
        ContainsAt(text[1..], needle);
        var i :| OccursAt(text[1..], needle, i);
        assert text[1..][i..i + |needle|] == text[i + 1..i + 1 + |needle|];
        assert OccursAt(text, needle, i + 1);
      } else {
        assert OccursAt(text, needle, 0);
      }
    }
    if exists i :: OccursAt(text, needle, i) {
      var i :| OccursAt(text, needle, i);
      if i > 0 {
        assert text[1..][i - 1..i - 1 + |needle|] == text[i..i + |needle|];
        assert OccursAt(text[1..], needle, i - 1);
        ContainsAt(text[1..], needle);
      } else {
        assert StartsWith(text, needle);
      }
    }
  }

  /** ASCII lower-casing of one character; every other character is kept. */
  function LowerChar(c: char): char {
    if 'A' <= c <= 'Z' then (c as int + 32) as char else c
  }

  function Lower(s: string): string {
    seq(|s|, i requires 0 <= i < |s| => LowerChar(s[i]))
  }

  /** `re.search(pattern, text, re.IGNORECASE)` for a pattern that is a
      literal phrase: a substring test after case folding both sides. */
  predicate ContainsIgnoreCase(text: string, pattern: string) {
    Contains(Lower(text), Lower(pattern))
  }

  /** The pattern matches at offset `i` when every character agrees with
      the text's character there once both are case folded. */
  predicate FoldedMatchAt(text: string, pattern: string, i: int) {
    0 <= i <= |text| - |pattern|
    && forall k :: 0 <= k < |pattern| ==> LowerChar(text[i + k]) == LowerChar(pattern[k])
  }

  /** Case folding both sides and searching is the same as scanning the text
      for an offset where the pattern agrees character by character up to
      case. */
  lemma IgnoreCaseAt(text: string, pattern: string)
    ensures ContainsIgnoreCase(text, pattern) <==> exists i :: FoldedMatchAt(text, pattern, i)
  {
    var t, p := Lower(text), Lower(pattern);
    ContainsAt(t, p);
    forall i
      ensures OccursAt(t, p, i) <==> FoldedMatchAt(text, pattern, i)
    {
      if 0 <= i <= |text| - |pattern| {
        if FoldedMatchAt(text, pattern, i) {
          assert forall k :: 0 <= k < |p| ==> t[i..i + |p|][k] == p[k];
        }
        if OccursAt(t, p, i) {
          forall k | 0 <= k < |pattern|
            ensures LowerChar(text[i + k]) == LowerChar(pattern[k])
          {
            assert t[i..i + |p|][k] == p[k];
          }
        }
      }
    }
  }

  /** The regular-expression class `\s` for `str` patterns: Python's
      Unicode whitespace (the characters for which `str.isspace` holds). */
  predicate IsSpace(c: char) {
    var n := c as int;
    (9 <= n <= 13) || (28 <= n <= 32) || n == 0x85 || n == 0xA0 || n == 0x1680
    || (0x2000 <= n <= 0x200A) || n == 0x2028 || n == 0x2029 || n == 0x202F
    || n == 0x205F || n == 0x3000
  }

  /** The regular-expression class `\d`, restricted to ASCII digits. */
  predicate IsDigit(c: char) {
    '0' <= c <= '9'
  }
}
