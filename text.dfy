/**
 * The string primitives the knowledge base relies on: `str.lower`, the `in` substring test,
 * `str.startswith`, `str.split()` with no argument, the regular expression `\b\w{3,}\b`, and
 * the decimal rendering of a natural number.
 */
module Text {

  /** Lower-case of one character. Only the ASCII letters have a case here (Arabic script has none). */
  function LowerChar(c: char): char {
    if 'A' <= c <= 'Z' then (c as int + 32) as char else c
  }

  /** `s.lower()`, character by character. */
  function Lower(s: string): (r: string)
    ensures |r| == |s|
    ensures forall i :: 0 <= i < |s| ==> r[i] == LowerChar(s[i])
  {
    if s == [] then [] else [LowerChar(s[0])] + Lower(s[1..])
  }

  /** `s.startswith(prefix)`. */
  predicate StartsWith(s: string, prefix: string) {
    |prefix| <= |s| && s[..|prefix|] == prefix
  }

  /** Python's `needle in hay` on strings: `needle` occurs contiguously in `hay`. */
  predicate Contains(hay: string, needle: string)
    decreases |hay|
  {
    StartsWith(hay, needle) || (hay != [] && Contains(hay[1..], needle))
  }

  /** An occurrence of `needle` at position `i` of `hay`. */
  predicate OccursAt(hay: string, needle: string, i: int) {
    0 <= i && i + |needle| <= |hay| && hay[i..i + |needle|] == needle
  }

  lemma {:induction false} ContainsOccurs(hay: string, needle: string)
    ensures Contains(hay, needle) <==> exists i :: OccursAt(hay, needle, i)
    decreases |hay|
  {
    if StartsWith(hay, needle) {
      assert OccursAt(hay, needle, 0);
    } else if hay == [] {
    } else {
      ContainsOccurs(hay[1..], needle);
      if exists i :: OccursAt(hay, needle, i) {
        var i :| OccursAt(hay, needle, i);
        assert i != 0;
        assert hay[1..][i - 1..i - 1 + |needle|] == hay[i..i + |needle|];
        assert OccursAt(hay[1..], needle, i - 1);
      }
      if exists i :: OccursAt(hay[1..], needle, i) {
        var i :| OccursAt(hay[1..], needle, i);
        assert hay[1..][i..i + |needle|] == hay[i + 1..i + 1 + |needle|];
        assert OccursAt(hay, needle, i + 1);
      }
    }
  }

  /** Characters matched by `\w`: ASCII letters, digits and `_`, and the Arabic letters and digits. */
  predicate IsWordChar(c: char) {
    ('a' <= c <= 'z') || ('A' <= c <= 'Z') || ('0' <= c <= '9') || c == '_'
    || ('\U{0621}' <= c <= '\U{064A}') || ('\U{0660}' <= c <= '\U{0669}')
  }

  /** The characters `str.split()` treats as whitespace. */
  predicate IsSpace(c: char) {
    c == ' ' || ('\t' <= c <= '\r') || ('\U{001C}' <= c <= '\U{001F}') || c == '\U{0085}' || c == '\U{00A0}'
    || c == '\U{1680}' || ('\U{2000}' <= c <= '\U{200A}') || c == '\U{2028}' || c == '\U{2029}'
    || c == '\U{202F}' || c == '\U{205F}' || c == '\U{3000}'
  }

  predicate NotSpace(c: char) { !IsSpace(c) }

  /** Length of the longest prefix of `s` whose characters all satisfy `inRun`. */
  function RunLength(s: string, inRun: char -> bool): (n: nat)
    ensures n <= |s|
    ensures forall k :: 0 <= k < n ==> inRun(s[k])
    ensures n < |s| ==> !inRun(s[n])
  {
    if s == [] || !inRun(s[0]) then 0 else 1 + RunLength(s[1..], inRun)
  }

  /** The maximal runs of characters satisfying `inRun`, left to right. */
  function Runs(s: string, inRun: char -> bool): (r: seq<string>)
    decreases |s|
  {
    if s == [] then []
    else if !inRun(s[0]) then Runs(s[1..], inRun)
    else
      var n := RunLength(s, inRun);
      [s[..n]] + Runs(s[n..], inRun)
  }

  /** `w` sits at position `i` of `s` as a maximal run: bounded by the ends of `s` or by characters outside the run. */
  predicate MaximalRunAt(s: string, w: string, i: int, inRun: char -> bool) {
    OccursAt(s, w, i) && |w| > 0
    && (forall k :: 0 <= k < |w| ==> inRun(w[k]))
    && (i == 0 || !inRun(s[i - 1]))
    && (i + |w| == |s| || !inRun(s[i + |w|]))
  }

  /** Every run that `Runs` returns is a non-empty maximal run of `s`. */
  lemma {:induction false} RunsAreMaximal(s: string, inRun: char -> bool)
    ensures forall w :: w in Runs(s, inRun) ==> exists i :: MaximalRunAt(s, w, i, inRun)
    decreases |s|
  {
    if s == [] {
    } else if !inRun(s[0]) {
      RunsAreMaximal(s[1..], inRun);
      forall w | w in Runs(s[1..], inRun) ensures exists i :: MaximalRunAt(s, w, i, inRun) {
        var i :| MaximalRunAt(s[1..], w, i, inRun);
        assert s[1..][i..i + |w|] == s[i + 1..i + 1 + |w|];
        assert MaximalRunAt(s, w, i + 1, inRun);
      }
    } else {
      var n := RunLength(s, inRun);
      RunsAreMaximal(s[n..], inRun);
      assert MaximalRunAt(s, s[..n], 0, inRun);
      forall w | w in Runs(s[n..], inRun) ensures exists i :: MaximalRunAt(s, w, i, inRun) {
        var i :| MaximalRunAt(s[n..], w, i, inRun);
        assert s[n..][i..i + |w|] == s[n + i..n + i + |w|];
        assert i != 0;
        assert s[n..][i - 1] == s[n + i - 1];
        assert MaximalRunAt(s, w, n + i, inRun);
      }
    }
  }

  /** `re.findall(r'\b\w{3,}\b', s)`: the maximal runs of word characters of length at least 3. */
  function Words(s: string): (r: seq<string>)
    ensures forall w :: w in r ==> |w| >= 3
  {
    LongRuns(Runs(s, IsWordChar))
  }

  function LongRuns(runs: seq<string>): (r: seq<string>)
    ensures forall w :: w in r <==> w in runs && |w| >= 3
  {
    if runs == [] then [] else (if |runs[0]| >= 3 then [runs[0]] else []) + LongRuns(runs[1..])
  }

  /** `s.split()`: the maximal runs of non-whitespace characters. */
  function Split(s: string): seq<string> {
    Runs(s, NotSpace)
  }

  /** Decimal rendering of `n`, as Python's `str(n)` or an f-string prints it. */
  function NatToString(n: nat): (r: string)
    ensures |r| > 0 && forall k :: 0 <= k < |r| ==> '0' <= r[k] <= '9'
  {
    if n < 10 then [Digit(n)] else NatToString(n / 10) + [Digit(n % 10)]
  }

  function Digit(d: nat): (c: char)
    requires d < 10
    ensures '0' <= c <= '9'
  {
    ['0', '1', '2', '3', '4', '5', '6', '7', '8', '9'][d]
  }
}
