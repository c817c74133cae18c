/** Character and string primitives with PHP's byte-string semantics, restricted
    to what the controllers use: ASCII case mapping (strtoupper, strtolower,
    ucfirst), trim, implode/join, integer-to-decimal conversion, str_replace of
    one character, PHP truthiness of strings and the character classes of PCRE. */
module Text {
  import opened Wrappers

  /** PCRE `\s` without the UTF flag: space, and tab, LF, VT, FF and CR, which
      are the consecutive code points 9 to 13. */
  predicate IsRegexSpace(c: char) {
    c == ' ' || '\t' <= c <= '\r'
  }

  /** The characters PHP's trim() removes by default: space, tab, LF, CR, NUL and VT. */
  predicate IsTrimChar(c: char) {
    c == ' ' || c == '\t' || c == '\n' || c == '\r' || c == '\0' || c == '\U{000B}'
  }

  /** PCRE `\d` without the UTF flag. */
  predicate IsDigit(c: char) { '0' <= c <= '9' }

  /** PCRE `[A-Z]` under the `i` flag: the ASCII letters of either case. */
  predicate IsLetter(c: char) { ('A' <= c <= 'Z') || ('a' <= c <= 'z') }

  predicate AllDigits(s: string) { forall i | 0 <= i < |s| :: IsDigit(s[i]) }
  predicate AllLetters(s: string) { forall i | 0 <= i < |s| :: IsLetter(s[i]) }

  function UpperChar(c: char): char {
    if 'a' <= c <= 'z' then (c as int - 32) as char else c
  }

  function LowerChar(c: char): char {
    if 'A' <= c <= 'Z' then (c as int + 32) as char else c
  }

  /** strtoupper (ASCII only, as in PHP 8.2 and later). */
  function Upper(s: string): (r: string)
    ensures |r| == |s|
    ensures forall i | 0 <= i < |s| :: r[i] == UpperChar(s[i])
  {
    seq(|s|, i requires 0 <= i < |s| => UpperChar(s[i]))
  }

  /** strtolower (ASCII only). */
  function Lower(s: string): (r: string)
    ensures |r| == |s|
    ensures forall i | 0 <= i < |s| :: r[i] == LowerChar(s[i])
  {
    seq(|s|, i requires 0 <= i < |s| => LowerChar(s[i]))
  }

  /** ucfirst: upper-cases the first character only. */
  function UpperFirst(s: string): (r: string)
    ensures |r| == |s|
    ensures |s| > 0 ==> r[0] == UpperChar(s[0]) && r[1..] == s[1..]
  {
    if s == [] then [] else [UpperChar(s[0])] + s[1..]
  }

  lemma UpperConcat(a: string, b: string)
    ensures Upper(a + b) == Upper(a) + Upper(b)
  {
    assert forall i | 0 <= i < |a + b| :: Upper(a + b)[i] == (Upper(a) + Upper(b))[i];
  }

  lemma LowerConcat(a: string, b: string)
    ensures Lower(a + b) == Lower(a) + Lower(b)
  {
    assert forall i | 0 <= i < |a + b| :: Lower(a + b)[i] == (Lower(a) + Lower(b))[i];
  }

  /** str_replace of a single character by another. */
  function ReplaceChar(s: string, from: char, to: char): (r: string)
    ensures |r| == |s|
    ensures forall i | 0 <= i < |s| :: r[i] == (if s[i] == from then to else s[i])
  {
    seq(|s|, i requires 0 <= i < |s| => if s[i] == from then to else s[i])
  }

  /** PHP truthiness of a string: "" and "0" are false, every other string is true. */
  predicate Truthy(s: string) { s != "" && s != "0" }

  /** Nothing but trim() characters. */
  predicate Blank(s: string) { forall i | 0 <= i < |s| :: IsTrimChar(s[i]) }

  /** Laravel's `required` (and `$request->filled`) on a string: present, not null and
      not blank, which is trim() leaving something (BlankIffTrimEmpty). */
  predicate Filled(o: Option<string>) { o.Some? && !Blank(o.value) }

  /** PHP empty() on a nullable string: null, "" and "0". */
  predicate IsEmptyValue(o: Option<string>) { o.None? || !Truthy(o.value) }

  /** Index of the first character that trim() keeps, scanning from `i`. */
  function SkipTrimForward(s: string, i: nat): (k: nat)
    requires i <= |s|
    ensures i <= k <= |s|
    ensures forall j | i <= j < k :: IsTrimChar(s[j])
    ensures k < |s| ==> !IsTrimChar(s[k])
    decreases |s| - i
  {
    if i == |s| || !IsTrimChar(s[i]) then i else SkipTrimForward(s, i + 1)
  }

  /** End (exclusive) of the text trim() keeps, scanning backwards from `j`. */
  function SkipTrimBackward(s: string, j: nat): (k: nat)
    requires j <= |s|
    ensures k <= j
    ensures forall m | k <= m < j :: IsTrimChar(s[m])
    ensures k > 0 ==> !IsTrimChar(s[k - 1])
  {
    if j == 0 || !IsTrimChar(s[j - 1]) then j else SkipTrimBackward(s, j - 1)
  }

  /** PHP trim() with its default character list. */
  function Trim(s: string): (r: string)
    ensures |r| <= |s|
    ensures r != [] ==> !IsTrimChar(r[0]) && !IsTrimChar(r[|r| - 1])
    ensures Contains(s, r)
    ensures exists a, b | 0 <= a <= b <= |s| :: r == s[a..b] && Blank(s[..a]) && Blank(s[b..])
  {
    var a := SkipTrimForward(s, 0);
    var b := SkipTrimBackward(s, |s|);
    if b <= a then
      assert OccursAt(s, [], 0);
      assert s[|s|..|s|] == [] && Blank(s[..|s|]) && Blank(s[|s|..]) by {
        assert forall j | 0 <= j < |s| :: j < a && IsTrimChar(s[j]);
      }
      []
    else
      assert OccursAt(s, s[a..b], a);
      assert Blank(s[..a]) && Blank(s[b..]);
      s[a..b]
  }

  /** A string trim() leaves alone is its own trim. */
  lemma TrimUntrimmed(s: string)
    requires s != [] ==> !IsTrimChar(s[0]) && !IsTrimChar(s[|s| - 1])
    ensures Trim(s) == s
  {
    if s != [] {
      assert SkipTrimForward(s, 0) == 0;
      assert SkipTrimBackward(s, |s|) == |s|;
    }
  }

  /** A string is blank exactly when trim() leaves nothing of it. */
  lemma BlankIffTrimEmpty(s: string)
    ensures Blank(s) <==> Trim(s) == ""
  {
    if Blank(s) {
      assert SkipTrimForward(s, 0) == |s|;
    } else {
      var i :| 0 <= i < |s| && !IsTrimChar(s[i]);
      assert SkipTrimForward(s, 0) <= i;
      assert SkipTrimBackward(s, |s|) > i;
    }
  }

  /** A string whose first character trim() keeps is filled. */
  lemma FilledFirst(s: string)
    requires s != [] && !IsTrimChar(s[0])
    ensures Filled(Some(s))
  {
  }

  /** implode($sep, $parts) / Collection::join($sep). */
  function Join(parts: seq<string>, sep: string): string {
    if |parts| == 0 then ""
    else if |parts| == 1 then parts[0]
    else Join(parts[..|parts| - 1], sep) + sep + parts[|parts| - 1]
  }

  lemma JoinAppend(parts: seq<string>, p: string, sep: string)
    requires parts != []
    ensures Join(parts + [p], sep) == Join(parts, sep) + sep + p
  {
    assert (parts + [p])[..|parts|] == parts;
  }

  function DigitChar(d: nat): (c: char)
    requires d < 10
    ensures IsDigit(c)
  {
    ('0' as int + d) as char
  }

  function DigitValue(c: char): nat
    requires IsDigit(c)
  {
    c as int - '0' as int
  }

  /** The decimal rendering of a natural number, as PHP's string
      interpolation of an int writes it (no sign, no leading zeros). */
  function NatToString(n: nat): (r: string)
    ensures r != [] && AllDigits(r)
    ensures (r[0] == '0') <==> n == 0
    ensures n < 10 <==> |r| == 1
  {
    if n < 10 then [DigitChar(n)] else NatToString(n / 10) + [DigitChar(n % 10)]
  }

  /** The value of a non-empty decimal digit string. */
  function DigitsValue(s: string): nat
    requires AllDigits(s)
  {
    if s == [] then 0 else DigitsValue(s[..|s| - 1]) * 10 + DigitValue(s[|s| - 1])
  }

  lemma {:induction false} DigitsValueOfNatToString(n: nat)
    ensures DigitsValue(NatToString(n)) == n
  {
    if n >= 10 {
      var r := NatToString(n / 10) + [DigitChar(n % 10)];
      assert r[..|r| - 1] == NatToString(n / 10);
      DigitsValueOfNatToString(n / 10);
    }
  }

  /** Different numbers are written differently. */
  lemma NatToStringInjective(m: nat, n: nat)
    requires NatToString(m) == NatToString(n)
    ensures m == n
  {
    DigitsValueOfNatToString(m);
    DigitsValueOfNatToString(n);
  }

  /** Index of the first c in s, or |s| when there is none. */
  function IndexOfChar(s: string, c: char): (i: nat)
    ensures i <= |s|
    ensures i < |s| ==> s[i] == c
    ensures forall j | 0 <= j < i :: s[j] != c
  {
    if s == [] then 0 else if s[0] == c then 0 else 1 + IndexOfChar(s[1..], c)
  }

  predicate StartsWith(s: string, prefix: string) {
    |prefix| <= |s| && s[..|prefix|] == prefix
  }

  /** `sub` occurs in `s` at position i. */
  predicate OccursAt(s: string, sub: string, i: nat) {
    i + |sub| <= |s| && s[i..i + |sub|] == sub
  }

  /** `sub` occurs somewhere in `s` (SQL `LIKE '%sub%'` read without wildcards in `sub`). */
  predicate Contains(s: string, sub: string) {
    exists i: nat | i <= |s| :: OccursAt(s, sub, i)
  }
}
