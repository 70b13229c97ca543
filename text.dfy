/** The few .NET string primitives the core relies on, over `string` = `seq<char>`. */
module Text {
  import opened Sequences

  /** `char.IsWhiteSpace`: the Unicode White_Space characters (categories Zs, Zl, Zp,
      plus U+0009..U+000D and U+0085). */
  predicate IsWhiteSpace(c: char) {
    || ('\U{9}' <= c <= '\U{D}')
    || c == ' ' || c == '\U{85}' || c == '\U{A0}' || c == '\U{1680}'
    || ('\U{2000}' <= c <= '\U{200A}')
    || c == '\U{2028}' || c == '\U{2029}' || c == '\U{202F}' || c == '\U{205F}' || c == '\U{3000}'
  }

  /** The first index at or after `i` whose character `p` does not strip (or `|s|`). */
  function SkipForward(s: string, p: char -> bool, i: nat): (r: nat)
    requires i <= |s|
    ensures i <= r <= |s|
    ensures forall j :: i <= j < r ==> p(s[j])
    ensures r < |s| ==> !p(s[r])
    decreases |s| - i
  {
    if i < |s| && p(s[i]) then SkipForward(s, p, i + 1) else i
  }

  /** The end of `s[..hi]` once the characters `p` strips are dropped from its back,
      never going below `lo`. */
  function SkipBackward(s: string, p: char -> bool, lo: nat, hi: nat): (r: nat)
    requires lo <= hi <= |s|
    ensures lo <= r <= hi
    ensures forall j :: r <= j < hi ==> p(s[j])
    ensures r > lo ==> !p(s[r - 1])
    decreases hi - lo
  {
    if lo < hi && p(s[hi - 1]) then SkipBackward(s, p, lo, hi - 1) else hi
  }

  /** Where the trimmed string starts: the first character `p` does not strip. */
  function TrimStart(s: string, p: char -> bool): nat
    ensures TrimStart(s, p) <= |s|
  {
    SkipForward(s, p, 0)
  }

  /** Trims both ends as the .NET trim helpers do: scan forward for the start, then
      backward from the end, never past the start. */
  function TrimBy(s: string, p: char -> bool): (r: string)
    ensures |r| <= |s|
    ensures r == [] || (!p(r[0]) && !p(r[|r| - 1]))
  {
    var a := TrimStart(s, p);
    s[a..SkipBackward(s, p, a, |s|)]
  }

  /** `string.Trim()`: removes leading and trailing `char.IsWhiteSpace` characters. */
  function Trim(s: string): string {
    TrimBy(s, IsWhiteSpace)
  }

  /** `StartsWith` with an ordinal comparison. */
  predicate StartsWith(s: string, prefix: string) {
    |prefix| <= |s| && s[..|prefix|] == prefix
  }

  /** `EndsWith(char)`: ordinal. */
  predicate EndsWith(s: string, c: char) {
    |s| > 0 && s[|s| - 1] == c
  }

  /** `string.Contains(string)`: an ordinal (case-sensitive) substring test. */
  predicate Contains(s: string, part: string) {
    exists i :: 0 <= i <= |s| - |part| && OccursAt(s, part, i)
  }

  /** `part` occurs in `s` starting at index `i`. */
  predicate OccursAt(s: string, part: string, i: int)
    requires 0 <= i <= |s| - |part|
  {
    s[i..i + |part|] == part
  }

  /** Case folding used by the source's ignore-case comparisons, restricted to ASCII letters. */
  function FoldChar(c: char): char {
    if 'A' <= c <= 'Z' then (c as int + 32) as char else c
  }

  function Fold(s: string): (r: string)
    ensures |r| == |s|
  {
    seq(|s|, i requires 0 <= i < |s| => FoldChar(s[i]))
  }

  /** `string.Equals(a, b, StringComparison.InvariantCultureIgnoreCase)`. */
  predicate EqualsIgnoreCase(a: string, b: string) {
    Fold(a) == Fold(b)
  }

  /** Index of the first occurrence of `c` in `s`, or `|s|` when there is none. */
  function FirstIndexOf(s: string, c: char): (r: nat)
    ensures r <= |s|
    ensures r < |s| ==> s[r] == c
    ensures forall i :: 0 <= i < r ==> s[i] != c
  {
    IndexWhere(s, x => x == c)
  }

  /** When `s[k]` is the first character that `p` does not strip, the trimmed string starts with it. */
  lemma TrimByStartsAt(s: string, p: char -> bool, k: int)
    requires 0 <= k < |s| && !p(s[k])
    requires forall j :: 0 <= j < k ==> p(s[j])
    ensures TrimBy(s, p) != [] && TrimBy(s, p)[0] == s[k]
  {
    TrimBySlice(s, p);
  }

  /** A string whose two ends `p` does not strip is its own trim. */
  lemma TrimByNoOp(s: string, p: char -> bool)
    requires s != [] && !p(s[0]) && !p(s[|s| - 1])
    ensures TrimBy(s, p) == s
  {
    assert TrimStart(s, p) == 0;
    assert SkipBackward(s, p, 0, |s|) == |s|;
  }

  /** The trimmed string is the part of `s` between the stripped prefix and suffix. */
  lemma TrimBySlice(s: string, p: char -> bool)
    ensures var n := TrimStart(s, p); var t := TrimBy(s, p);
      && n + |t| <= |s|
      && (forall k :: 0 <= k < |t| ==> t[k] == s[n + k])
      && (forall j :: 0 <= j < n ==> p(s[j]))
      && (forall j :: n + |t| <= j < |s| ==> p(s[j]))
      && (n < |s| ==> !p(s[n]))
  {
    var n := TrimStart(s, p);
    var e := SkipBackward(s, p, n, |s|);
    assert TrimBy(s, p) == s[n..e];
  }
}
