/** Character-level string operations the comparison script relies on:
    Python's `str.strip()` (no argument), `str.lower()` restricted to ASCII,
    and Python's ordering of `str` values (code-point lexicographic order). */
module Text {

  /** The characters Python's `str.isspace()` accepts, which are the ones
      `str.strip()` without an argument removes from both ends. */
  predicate IsSpace(c: char) {
    || ('\t' <= c <= '\r')
    || ('\U{1C}' <= c <= ' ')
    || c == '\U{85}' || c == '\U{A0}' || c == '\U{1680}'
    || ('\U{2000}' <= c <= '\U{200A}')
    || c == '\U{2028}' || c == '\U{2029}' || c == '\U{202F}' || c == '\U{205F}' || c == '\U{3000}'
  }

  ghost predicate AllSpace(s: string) {
    forall i :: 0 <= i < |s| ==> IsSpace(s[i])
  }

  /** Neither end of `s` is whitespace: `s.strip() == s` in Python. */
  predicate IsStripped(s: string) {
    s == [] || (!IsSpace(s[0]) && !IsSpace(s[|s| - 1]))
  }

  /** `s.lstrip()`. */
  function StripLeft(s: string): string
  {
    if s != [] && IsSpace(s[0]) then StripLeft(s[1..]) else s
  }

  /** `s.lstrip()` is the longest suffix of `s` that does not start with whitespace. */
  lemma {:induction false} StripLeftSpec(s: string)
    ensures var r := StripLeft(s);
      && |r| <= |s| && r == s[|s| - |r|..]
      && AllSpace(s[..|s| - |r|])
      && (r == [] || !IsSpace(r[0]))
  {
    if s != [] && IsSpace(s[0]) {
      StripLeftSpec(s[1..]);
    }
  }

  /** `s.rstrip()`. */
  function StripRight(s: string): string
  {
    if s != [] && IsSpace(s[|s| - 1]) then StripRight(s[..|s| - 1]) else s
  }

  /** `s.rstrip()` is the longest prefix of `s` that does not end with whitespace. */
  lemma {:induction false} StripRightSpec(s: string)
    ensures var r := StripRight(s);
      && |r| <= |s| && r == s[..|r|]
      && AllSpace(s[|r|..])
      && (r == [] || !IsSpace(r[|r| - 1]))
  {
    if s != [] && IsSpace(s[|s| - 1]) {
      StripRightSpec(s[..|s| - 1]);
    }
  }

  /** `s.strip()`: `s` with the whitespace at both ends removed, and nothing else. */
  function Strip(s: string): (r: string)
    ensures IsStripped(r)
  {
    StripLeftSpec(s);
    StripRightSpec(StripLeft(s));
    StripRight(StripLeft(s))
  }

  /** What `Strip` removes is whitespace at the two ends, and only that. */
  lemma StripSlice(s: string)
    ensures exists i :: 0 <= i <= |s| - |Strip(s)| && Strip(s) == s[i..i + |Strip(s)|]
                        && AllSpace(s[..i]) && AllSpace(s[i + |Strip(s)|..])
  {
    StripParts(s, StripLeft(s), Strip(s));
  }

  lemma {:induction false} StripParts(s: string, l: string, r: string)
    requires l == StripLeft(s) && r == StripRight(l)
    ensures 0 <= |s| - |l| <= |s| - |r|
    ensures r == s[|s| - |l|..|s| - |l| + |r|]
    ensures AllSpace(s[..|s| - |l|])
    ensures AllSpace(s[|s| - |l| + |r|..])
  {
    StripLeftSpec(s);
    StripRightSpec(l);
    var i := |s| - |l|;
    assert s[i + |r|..] == l[|r|..];
  }

  /** `s.strip()` is empty exactly when `s` is all whitespace (or empty). */
  lemma {:induction false} StripEmptyIffBlank(s: string)
    ensures Strip(s) == [] <==> AllSpace(s)
  {
    var l := StripLeft(s);
    var r := StripRight(l);
    StripParts(s, l, r);
    var i := |s| - |l|;
    if r == [] {
      assert s == s[..i] + s[i..];
      assert s[i..] == s[i + |r|..];
    } else {
      assert r == Strip(s);
      assert r[0] == s[i] && !IsSpace(s[i]);
    }
  }

  /** Stripping a string with no whitespace at either end changes nothing;
      in particular `Strip` is idempotent. */
  lemma StripStripped(s: string)
    ensures IsStripped(s) ==> Strip(s) == s
  {
    if IsStripped(s) {
      StripLeftSpec(s);
      StripRightSpec(s);
      assert StripLeft(s) == s;
      assert StripRight(s) == s;
    }
  }

  /** Python's `str.lower()` on one character, restricted to ASCII letters. */
  function LowerChar(c: char): (r: char)
    ensures !('A' <= r <= 'Z')
    ensures IsSpace(r) <==> IsSpace(c)
    ensures ('a' <= r <= 'z') <==> ('A' <= c <= 'Z' || 'a' <= c <= 'z')
  {
    if 'A' <= c <= 'Z' then (c as int - 'A' as int + 'a' as int) as char else c
  }

  /** `s.lower()`, character by character (ASCII letters only). */
  function Lower(s: string): (r: string)
    ensures |r| == |s|
    ensures forall i :: 0 <= i < |s| ==> !('A' <= r[i] <= 'Z') && (IsSpace(r[i]) <==> IsSpace(s[i]))
  {
    seq(|s|, i requires 0 <= i < |s| => LowerChar(s[i]))
  }

  /** Lower-casing keeps a stripped string stripped, so the case-folded keys
      are still valid keys. */
  lemma LowerStripped(s: string)
    requires IsStripped(s)
    ensures IsStripped(Lower(s))
  {
  }
}
