/**
 * The two pieces of Python string handling the book collection relies on:
 * `str.lower()` (for case-insensitive comparison) and `str.strip()` (for the
 * "non-empty after trimming" validation rule).
 *
 * Lowering covers the ASCII letters and the basic Cyrillic block, the
 * alphabets the collection's titles, authors and genres are written in.
 * Whitespace is exactly the set of code points Python's `str.isspace` accepts,
 * which is the set `str.strip()` removes when given no argument.
 */
module Text {

  /** Python's whitespace code points: \t \n \v \f \r, the four separators
      U+001C..U+001F, the space, NEL, NBSP, and the Unicode space separators. */
  predicate IsSpace(c: char) {
    var n := c as int;
    (0x09 <= n <= 0x0D) || (0x1C <= n <= 0x20) || n == 0x85 || n == 0xA0 ||
    n == 0x1680 || (0x2000 <= n <= 0x200A) || n == 0x2028 || n == 0x2029 ||
    n == 0x202F || n == 0x205F || n == 0x3000
  }

  /** Upper-case letters that `Lower` maps: A..Z, Cyrillic Ѐ..Џ and А..Я. */
  predicate IsUpper(c: char) {
    var n := c as int;
    ('A' <= c <= 'Z') || (0x0400 <= n <= 0x042F)
  }

  /** The lower-case form of one character. */
  function Lower(c: char): (d: char)
    ensures !IsUpper(d)
    ensures !IsUpper(c) ==> d == c
    ensures IsUpper(c) ==> d != c
  {
    var n := c as int;
    if 'A' <= c <= 'Z' then (n + 0x20) as char
    else if 0x0410 <= n <= 0x042F then (n + 0x20) as char
    else if 0x0400 <= n <= 0x040F then (n + 0x50) as char
    else c
  }

  /** `s.lower()`: lowers each character in place. */
  function LowerStr(s: string): (r: string)
    ensures |r| == |s|
    ensures forall i :: 0 <= i < |r| ==> !IsUpper(r[i])
  {
    seq(|s|, i requires 0 <= i < |s| => Lower(s[i]))
  }

  /** Lowering twice is lowering once. */
  lemma LowerStrIdempotent(s: string)
    ensures LowerStr(LowerStr(s)) == LowerStr(s)
  {
  }

  /** Two different capitals never lower to the same letter. */
  lemma LowerInjectiveOnUpper(c: char, d: char)
    requires IsUpper(c) && IsUpper(d) && c != d
    ensures Lower(c) != Lower(d)
  {
  }

  /** The capitals of each alphabet lower to the small letters in the same
      alphabetical position. */
  lemma LowerLatinAlphabet()
    ensures LowerStr("ABCDEFGHIJKLMNOPQRSTUVWXYZ") == "abcdefghijklmnopqrstuvwxyz"
  {
  }

  lemma LowerCyrillicAlphabetFirstHalf()
    ensures LowerStr("АБВГДЕЖЗИЙКЛМНОП") == "абвгдежзийклмноп"
  {
  }

  lemma LowerCyrillicAlphabetSecondHalf()
    ensures LowerStr("РСТУФХЦЧШЩЪЫЬЭЮЯ") == "рстуфхцчшщъыьэюя"
  {
  }

  lemma LowerCyrillicExtensions()
    ensures LowerStr("ЀЁЂЃЄЅІЇЈЉЊЋЌЍЎЏ") == "ѐёђѓєѕіїјљњћќѝўџ"
  {
  }

  /** `c` and `d` are the same letter up to case: equal, or one is the
      lower-case form of the other. */
  predicate CaseVariant(c: char, d: char) {
    c == d || Lower(c) == d || Lower(d) == c
  }

  /** Two characters lower to the same character exactly when they are case variants. */
  lemma LowerCaseVariant(c: char, d: char)
    ensures Lower(c) == Lower(d) <==> CaseVariant(c, d)
  {
  }

  /** Same length, and the characters at each position are case variants. */
  predicate SameIgnoringCase(s: string, t: string) {
    |s| == |t| && forall i :: 0 <= i < |s| ==> CaseVariant(s[i], t[i])
  }

  /** Lowered strings are equal exactly when the strings agree position by position up to case. */
  lemma LowerStrEqIff(s: string, t: string)
    ensures LowerStr(s) == LowerStr(t) <==> SameIgnoringCase(s, t)
  {
    if |s| == |t| {
      forall i | 0 <= i < |s| ensures LowerStr(s)[i] == LowerStr(t)[i] <==> CaseVariant(s[i], t[i]) {
        LowerCaseVariant(s[i], t[i]);
      }
    }
  }

  /** Where `s.strip()` starts: the number of leading whitespace characters. */
  function StripStart(s: string): (lo: nat)
    ensures lo <= |s|
    ensures forall i :: 0 <= i < lo ==> IsSpace(s[i])
    ensures lo == |s| || !IsSpace(s[lo])
  {
    if s == [] || !IsSpace(s[0]) then 0
    else
      var n := StripStart(s[1..]);
      assert forall i :: 1 <= i < n + 1 ==> s[i] == s[1..][i - 1];
      n + 1
  }

  /** Where `s.strip()` ends: the position after the last character of `s[..hi]`
      that is not whitespace, or `lo` if `s[lo..hi]` is all whitespace. */
  function StripEnd(s: string, lo: nat, hi: nat): (e: nat)
    requires lo <= hi <= |s|
    ensures lo <= e <= hi
    ensures forall i :: e <= i < hi ==> IsSpace(s[i])
    ensures e == lo || !IsSpace(s[e - 1])
    decreases hi
  {
    if hi == lo || !IsSpace(s[hi - 1]) then hi else StripEnd(s, lo, hi - 1)
  }

  /** `s[lo..hi]` is what is left when all leading and trailing whitespace is cut
      away: everything outside it is whitespace, and it neither starts nor ends
      with whitespace. */
  predicate IsStripSlice(s: string, lo: nat, hi: nat) {
    lo <= hi <= |s| &&
    (forall i :: 0 <= i < lo ==> IsSpace(s[i])) &&
    (forall i :: hi <= i < |s| ==> IsSpace(s[i])) &&
    (lo < hi ==> !IsSpace(s[lo]) && !IsSpace(s[hi - 1]))
  }

  /** `s.strip()`: the slice left when leading and trailing whitespace are removed. */
  function Strip(s: string): (r: string)
    ensures exists lo: nat, hi: nat :: IsStripSlice(s, lo, hi) && r == s[lo..hi]
  {
    var lo := StripStart(s);
    var hi := StripEnd(s, lo, |s|);
    assert IsStripSlice(s, lo, hi);
    s[lo..hi]
  }

  /** "Some character of `s` is not whitespace." */
  predicate HasNonSpace(s: string) {
    exists i :: 0 <= i < |s| && !IsSpace(s[i])
  }

  /** Python's `bool(s.strip())` holds exactly when `s` has a non-whitespace character. */
  lemma StripNonEmptyIff(s: string)
    ensures Strip(s) != [] <==> HasNonSpace(s)
  {
  }
}
