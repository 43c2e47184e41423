/** The two Python string built-ins the classifier relies on: `str.strip()`
    with no argument and `str.lower()`, together with `str.endswith`. */
module Text {

  /** Python's `str.isspace()` character set, the set `str.strip()` removes:
      the ASCII controls TAB..CR and FS..US, the space, NEL, NO-BREAK SPACE and
      the Unicode space and separator characters. */
  predicate IsSpace(c: char) {
    c == ' ' || ('\t' <= c <= '\r') || ('\U{1C}' <= c <= '\U{1F}')
    || c == '\U{85}' || c == '\U{A0}' || c == '\U{1680}'
    || ('\U{2000}' <= c <= '\U{200A}') || c == '\U{2028}' || c == '\U{2029}'
    || c == '\U{202F}' || c == '\U{205F}' || c == '\U{3000}'
  }

  predicate AllSpace(s: string) {
    forall i :: 0 <= i < |s| ==> IsSpace(s[i])
  }

  /** The first index at or after `i` that does not hold whitespace, or
      `|s|`: the end of the whitespace run starting at `i`. */
  function SkipSpace(s: string, i: nat): (n: nat)
    requires i <= |s|
    ensures i <= n <= |s|
    ensures forall j :: i <= j < n ==> IsSpace(s[j])
    ensures n < |s| ==> !IsSpace(s[n])
    decreases |s| - i
  {
    if i < |s| && IsSpace(s[i]) then SkipSpace(s, i + 1) else i
  }

  /** The start of the whitespace run that ends at `hi`, going no further
      back than `lo`. */
  function SkipSpaceBack(s: string, lo: nat, hi: nat): (m: nat)
    requires lo <= hi <= |s|
    ensures lo <= m <= hi
    ensures forall j :: m <= j < hi ==> IsSpace(s[j])
    ensures lo < m ==> !IsSpace(s[m - 1])
    decreases hi - lo
  {
    if lo < hi && IsSpace(s[hi - 1]) then SkipSpaceBack(s, lo, hi - 1) else hi
  }

  /** Python's `s.strip()`: the slice `s[a..b]` between a run of leading
      and a run of trailing whitespace, with no whitespace at either end;
      empty exactly when `s` is all whitespace. */
  function Strip(s: string): (r: string)
    ensures exists a, b :: 0 <= a <= b <= |s| && r == s[a..b]
                        && (forall j :: 0 <= j < a ==> IsSpace(s[j]))
                        && (forall j :: b <= j < |s| ==> IsSpace(s[j]))
    ensures r != [] ==> !IsSpace(r[0]) && !IsSpace(r[|r| - 1])
    ensures r == [] <==> AllSpace(s)
  {
    var a := SkipSpace(s, 0);
    var b := SkipSpaceBack(s, a, |s|);
    assert a < b ==> s[a..b][0] == s[a] && s[a..b][b - a - 1] == s[b - 1];
    s[a..b]
  }

  /** The last character of a non-empty strip is the last non-space
      character of `s`, followed only by whitespace. */
  lemma StripLast(s: string) returns (e: nat)
    requires Strip(s) != []
    ensures e < |s| && Strip(s)[|Strip(s)| - 1] == s[e]
    ensures forall j :: e < j < |s| ==> IsSpace(s[j])
  {
    var a := SkipSpace(s, 0);
    var b := SkipSpaceBack(s, a, |s|);
    e := b - 1;
  }

  /** A non-space character followed only by whitespace ends the strip. */
  lemma StripEndsAt(s: string, k: nat)
    requires k < |s| && !IsSpace(s[k])
    requires forall j :: k < j < |s| ==> IsSpace(s[j])
    ensures Strip(s) != [] && Strip(s)[|Strip(s)| - 1] == s[k]
  {
    var a := SkipSpace(s, 0);
    assert a <= k;
    var b := SkipSpaceBack(s, a, |s|);
    assert k < b;
    assert b - 1 <= k;
  }

  /** Python's `s.endswith(suffix)`. */
  predicate EndsWith(s: string, suffix: string) {
    |suffix| <= |s| && s[|s| - |suffix|..] == suffix
  }

  /** ASCII case folding of one character. */
  function LowerChar(c: char): (d: char)
    ensures !('A' <= d <= 'Z')
    ensures d == c || ('A' <= c <= 'Z' && d as int == c as int + 32)
  {
    if 'A' <= c <= 'Z' then (c as int - 'A' as int + 'a' as int) as char else c
  }

  /** `s.lower()`, restricted to ASCII case folding. */
  function Lower(s: string): (r: string)
    ensures |r| == |s|
    ensures forall i :: 0 <= i < |s| ==> r[i] == LowerChar(s[i])
  {
    seq(|s|, i requires 0 <= i < |s| => LowerChar(s[i]))
  }

  /** `c` is `d` or the upper-case ASCII letter of `d`. */
  predicate SameIgnoringCase(c: char, d: char) {
    c == d || ('a' <= d <= 'z' && c as int == d as int - 32)
  }

  /** For a target `t` with no upper-case letter (such as "2019-ncov"),
      `Lower(s) == t` holds exactly when `s` spells `t` in any mixture of
      cases. */
  lemma LowerEqualsIff(s: string, t: string)
    requires forall i :: 0 <= i < |t| ==> !('A' <= t[i] <= 'Z')
    ensures Lower(s) == t <==>
            |s| == |t| && forall i :: 0 <= i < |s| ==> SameIgnoringCase(s[i], t[i])
  {
    if |s| == |t| && forall i :: 0 <= i < |s| ==> SameIgnoringCase(s[i], t[i]) {
      forall i | 0 <= i < |s| ensures Lower(s)[i] == t[i] {
        assert SameIgnoringCase(s[i], t[i]);
      }
    }
  }
}
