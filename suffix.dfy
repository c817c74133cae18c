/** The directional-suffix remover that FacultyLoadController applies wherever a
    section is shown or compared:

      preg_replace('/\s*-\s*(West|North|East|South|WEST|NORTH|EAST|SOUTH)$/i', '', $section)

    written as an explicit scanner. Under the `i` flag every mix of case of the
    four words matches, so the upper-case alternatives add nothing. PCRE's `$`
    without the `m` or `D` flag matches at the end of the subject and also just
    before a final newline; the newline is then not part of the match and
    survives the replacement. */
module DirectionalSuffix {
  import opened Text
  import opened Wrappers

  /** West, North, East or South in any mix of case. */
  predicate IsDirectionWord(w: string) {
    Lower(w) in {"west", "north", "east", "south"}
  }

  /** The positions where `$` matches. */
  predicate DollarAt(s: string, e: nat) {
    e == |s| || (e + 1 == |s| && s[e] == '\n')
  }

  /** s[a..b] consists of `\s` characters only. */
  predicate SpacesIn(s: string, a: nat, b: nat)
    requires a <= b <= |s|
  {
    forall j | a <= j < b :: IsRegexSpace(s[j])
  }

  /** The regex matches s[i..e]: spaces s[i..h], the hyphen s[h], spaces
      s[h+1..d] and the direction word s[d..e], with `$` matching at e. */
  predicate SuffixWitness(s: string, i: nat, h: nat, d: nat, e: nat) {
    i <= h < d <= e <= |s|
    && SpacesIn(s, i, h) && s[h] == '-' && SpacesIn(s, h + 1, d)
    && IsDirectionWord(s[d..e]) && DollarAt(s, e)
  }

  /** Boundaries of the match the scanner finds. */
  datatype SuffixMatch = SuffixMatch(start: nat, hyphen: nat, word: nat, end: nat)

  /** Start of the run of `\s` characters that ends at j. */
  function SkipSpaceBackward(s: string, j: nat): (k: nat)
    requires j <= |s|
    ensures k <= j && SpacesIn(s, k, j)
    ensures k > 0 ==> !IsRegexSpace(s[k - 1])
  {
    if j == 0 || !IsRegexSpace(s[j - 1]) then j
    else SkipSpaceBackward(s, j - 1)
  }

  /** Every run of spaces ending at j starts at or after the scanner's start. */
  lemma {:induction false} SkipSpaceBackwardLeast(s: string, i: nat, j: nat)
    requires i <= j <= |s| && SpacesIn(s, i, j)
    ensures SkipSpaceBackward(s, j) <= i
  {
    if i < j {
      assert IsRegexSpace(s[j - 1]);
      SkipSpaceBackwardLeast(s, i, j - 1);
    }
  }

  /** A run of spaces preceded by a non-space is found exactly. */
  lemma SkipSpaceBackwardExact(s: string, i: nat, j: nat)
    requires 0 < i <= j <= |s| && SpacesIn(s, i, j) && !IsRegexSpace(s[i - 1])
    ensures SkipSpaceBackward(s, j) == i
  {
    SkipSpaceBackwardLeast(s, i, j);
  }

  /** The end position the scanner tries: `$` can only succeed there after a letter. */
  function DollarEnd(s: string): (e: nat)
    ensures e <= |s| && DollarAt(s, e)
  {
    if |s| > 0 && s[|s| - 1] == '\n' then |s| - 1 else |s|
  }

  /** Length of the direction word ending at e, or 0 when there is none. */
  function WordLengthAt(s: string, e: nat): (n: nat)
    requires e <= |s|
    ensures n == 0 || ((n == 4 || n == 5) && n <= e && IsDirectionWord(s[e - n..e]))
  {
    if e >= 4 && IsDirectionWord(s[e - 4..e]) then 4
    else if e >= 5 && IsDirectionWord(s[e - 5..e]) then 5
    else 0
  }

  /** The leftmost match of the pattern, if any. */
  function FindSuffix(s: string): (m: Option<SuffixMatch>)
    ensures m.Some? ==> SuffixWitness(s, m.value.start, m.value.hyphen, m.value.word, m.value.end)
    ensures m.Some? ==> m.value.start == 0 || !IsRegexSpace(s[m.value.start - 1])
  {
    var e := DollarEnd(s);
    var n := WordLengthAt(s, e);
    if n == 0 then None
    else
      var j := SkipSpaceBackward(s, e - n);
      if j == 0 || s[j - 1] != '-' then None
      else Some(SuffixMatch(SkipSpaceBackward(s, j - 1), j - 1, e - n, e))
  }

  /** The reported match starts where the scanner's run of spaces before the
      hyphen does. */
  lemma FindSuffixStart(s: string)
    ensures FindSuffix(s).Some? ==>
              FindSuffix(s).value.start == SkipSpaceBackward(s, FindSuffix(s).value.hyphen)
  {
    if FindSuffix(s).Some? {
      var m := FindSuffix(s).value;
      if m.start > 0 {
        SkipSpaceBackwardExact(s, m.start, m.hyphen);
      } else {
        SkipSpaceBackwardLeast(s, 0, m.hyphen);
      }
    }
  }

  lemma DirectionWordShape(w: string)
    requires IsDirectionWord(w)
    ensures |w| == 4 || |w| == 5
    ensures IsLetter(w[|w| - 1])
    ensures |w| == 5 ==> !IsDirectionWord(w[1..])
  {
    var l := Lower(w);
    assert l == "west" || l == "north" || l == "east" || l == "south";
    if |w| == 5 {
      assert Lower(w[1..]) == l[1..];
    }
  }

  /** Every match the regex could make is found by the scanner: the same end,
      and a start no later than the witness's start. */
  lemma FindSuffixComplete(s: string, i: nat, h: nat, d: nat, e: nat)
    requires SuffixWitness(s, i, h, d, e)
    ensures FindSuffix(s).Some?
    ensures FindSuffix(s).value.end == e && FindSuffix(s).value.start <= i
    ensures FindSuffix(s).value.word == d && FindSuffix(s).value.hyphen == h
  {
    WordEndsAtDollarEnd(s, d, e);
    WordLengthOfWord(s, d, e);
    SkipSpaceBackwardExact(s, h + 1, d);
    SkipSpaceBackwardLeast(s, i, h);
  }

  /** A direction word before `$` ends where the scanner looks. */
  lemma WordEndsAtDollarEnd(s: string, d: nat, e: nat)
    requires d <= e <= |s| && IsDirectionWord(s[d..e]) && DollarAt(s, e)
    ensures e == DollarEnd(s) && e - d >= 4
  {
    var w := s[d..e];
    DirectionWordShape(w);
    assert w[|w| - 1] == s[e - 1];
  }

  /** The scanner measures a direction word ending at e exactly. */
  lemma WordLengthOfWord(s: string, d: nat, e: nat)
    requires d <= e <= |s| && IsDirectionWord(s[d..e])
    ensures WordLengthAt(s, e) == e - d
  {
    var w := s[d..e];
    DirectionWordShape(w);
    if e - d == 5 {
      assert s[e - 4..e] == w[1..];
    }
  }

  /** The replacement: the leftmost match is cut out. No second match can follow
      the first, since every match ends at DollarEnd(s) (FindSuffixComplete). */
  function StripDirectionalSuffix(s: string): (r: string)
    ensures FindSuffix(s).None? ==> r == s
    ensures FindSuffix(s).Some? ==>
              r == s[..FindSuffix(s).value.start] + s[FindSuffix(s).value.end..] && |r| < |s|
  {
    match FindSuffix(s)
    case None => s
    case Some(m) => s[..m.start] + s[m.end..]
  }

  /** A string with no directional suffix is returned unchanged. */
  lemma StripWithoutSuffix(s: string)
    requires forall i, h, d, e :: !SuffixWitness(s, i, h, d, e)
    ensures StripDirectionalSuffix(s) == s
  {
    match FindSuffix(s)
    case None =>
    case Some(m) => assert false;
  }

  /** A string with a directional suffix is shortened, and what is removed is
      the whole run of spaces before the hyphen, the hyphen, and the word. */
  lemma StripWithSuffix(s: string, i: nat, h: nat, d: nat, e: nat)
    requires SuffixWitness(s, i, h, d, e)
    ensures |StripDirectionalSuffix(s)| < |s|
    ensures StripDirectionalSuffix(s) == s[..SkipSpaceBackward(s, h)] + s[e..]
    ensures SkipSpaceBackward(s, h) <= i
  {
    FindSuffixComplete(s, i, h, d, e);
    var m := FindSuffix(s).value;
    assert m.start == SkipSpaceBackward(s, h);
  }

  /** The output is a prefix of the input, except that a final newline the
      `$` stepped over is kept. */
  lemma StripIsPrefix(s: string)
    ensures var r := StripDirectionalSuffix(s);
            StartsWith(s, r) || (s[|s| - 1] == '\n' && r == s[..|r| - 1] + "\n")
  {
    var r := StripDirectionalSuffix(s);
    match FindSuffix(s)
    case None =>
    case Some(m) =>
      if m.end == |s| {
        assert r == s[..m.start];
      } else {
        assert s[m.end..] == "\n";
      }
  }

  /** Without a final newline the output is always a prefix of the input. */
  lemma StripPrefixWithoutNewline(s: string)
    requires s == [] || s[|s| - 1] != '\n'
    ensures StartsWith(s, StripDirectionalSuffix(s))
  {
    StripIsPrefix(s);
  }

  /** The pattern needs a hyphen, so a string without one is never changed. */
  lemma StripWithoutHyphen(s: string)
    requires forall k | 0 <= k < |s| :: s[k] != '-'
    ensures StripDirectionalSuffix(s) == s
  {
    StripWithoutSuffix(s);
  }

  // ---------------------------------------------------------------------
  // The removal on assembled strings.

  /** A run of spaces that crosses from p into t before a hyphen puts a space at
      the end of p and a space or the hyphen at the start of t. */
  lemma JunctionOfRun(p: string, t: string, i: nat, h: nat)
    requires i < |p| <= h < |p + t| && SpacesIn(p + t, i, h) && (p + t)[h] == '-'
    ensures IsRegexSpace(p[|p| - 1]) && (IsRegexSpace(t[0]) || t[0] == '-')
  {
    var s := p + t;
    assert s[|p| - 1] == p[|p| - 1];
    assert s[|p|] == t[0];
  }

  /** Conversely, when p holds no hyphen and the junction cannot carry a run of
      spaces into p, every match in p + t lies within t. */
  lemma WitnessWithinRest(p: string, t: string, i: nat, h: nat, d: nat, e: nat)
    requires p != [] && t != [] && forall k | 0 <= k < |p| :: p[k] != '-'
    requires !IsRegexSpace(p[|p| - 1]) || (!IsRegexSpace(t[0]) && t[0] != '-')
    requires SuffixWitness(p + t, i, h, d, e)
    ensures |p| <= i && SuffixWitness(t, i - |p|, h - |p|, d - |p|, e - |p|)
  {
    var s := p + t;
    assert h >= |p|;
    if i < |p| {
      JunctionOfRun(p, t, i, h);
      assert false;
    }
    assert s[|p|..] == t;
    SpacesInTail(s, |p|, t, i - |p|, h - |p|);
    SpacesInTail(s, |p|, t, h - |p| + 1, d - |p|);
    assert s[d..e] == t[d - |p|..e - |p|];
    assert s[h] == t[h - |p|];
    assert e < |s| ==> s[e] == t[e - |p|];
  }

  /** A run of spaces in the tail t of s is a run of spaces in s, moved by
      the head's length, and conversely. */
  lemma SpacesInTail(s: string, k: nat, t: string, a: nat, b: nat)
    requires k <= |s| && s[k..] == t && a <= b <= |t|
    ensures SpacesIn(s, k + a, k + b) == SpacesIn(t, a, b)
  {
    if SpacesIn(t, a, b) {
      forall j | k + a <= j < k + b ensures IsRegexSpace(s[j]) {
        assert s[j] == t[j - k];
      }
    }
    if SpacesIn(s, k + a, k + b) {
      forall j | a <= j < b ensures IsRegexSpace(t[j]) {
        assert t[j] == s[k + j];
      }
    }
  }

  /** A match in the tail t of s is a match in s, moved by the head's length. */
  lemma WitnessInTail(s: string, k: nat, t: string, m: SuffixMatch)
    requires k <= |s| && s[k..] == t
    requires SuffixWitness(t, m.start, m.hyphen, m.word, m.end)
    ensures SuffixWitness(s, k + m.start, k + m.hyphen, k + m.word, k + m.end)
  {
    SpacesInTail(s, k, t, m.start, m.hyphen);
    SpacesInTail(s, k, t, m.hyphen + 1, m.word);
    assert s[k + m.word..k + m.end] == t[m.word..m.end];
    assert s[k + m.hyphen] == t[m.hyphen];
    assert m.end < |t| ==> s[k + m.end] == t[m.end];
  }

  /** When the tail has a suffix, s loses it from the same start. */
  lemma StripInTail(s: string, k: nat, t: string, m: SuffixMatch)
    requires 0 < k <= |s| && s[k..] == t && t != []
    requires !IsRegexSpace(s[k - 1]) || (!IsRegexSpace(t[0]) && t[0] != '-')
    requires SuffixWitness(t, m.start, m.hyphen, m.word, m.end)
    requires m.start == 0 || !IsRegexSpace(t[m.start - 1])
    ensures StripDirectionalSuffix(s) == s[..k + m.start] + s[k + m.end..]
  {
    WitnessInTail(s, k, t, m);
    if m.start > 0 {
      assert s[k + m.start - 1] == t[m.start - 1];
    } else if m.start < m.hyphen {
      assert s[k] == t[0];
    }
    StripFromRunStart(s, k + m.start, k + m.hyphen, k + m.word, k + m.end);
  }

  lemma ConcatParts(p: string, t: string)
    requires p != []
    ensures (p + t)[..|p|] == p && (p + t)[|p|..] == t && (p + t)[|p| - 1] == p[|p| - 1]
  {
    assert (p + t)[..|p|] == p;
    assert (p + t)[|p|..] == t;
  }

  /** Cutting s[k + a..k + b] out of s leaves the head s[..k] in front of t
      with t[a..b] cut out. */
  lemma TailSlices(s: string, k: nat, t: string, a: nat, b: nat, head: string, whole: string, cut: string)
    requires k <= |s| && s[k..] == t && a <= b <= |t| && head == s[..k]
    requires whole == s[..k + a] + s[k + b..] && cut == t[..a] + t[b..]
    ensures whole == head + cut
  {
    assert s[..k + a] == s[..k] + t[..a];
    assert s[k + b..] == t[b..];
  }

  /** Cutting t's match, moved by k, out of s leaves the head s[..k] in front
      of t with its suffix removed. */
  lemma TailCut(s: string, k: nat, t: string, m: SuffixMatch, head: string, whole: string)
    requires k <= |s| && s[k..] == t && FindSuffix(t) == Some(m) && head == s[..k]
    requires whole == s[..k + m.start] + s[k + m.end..]
    ensures whole == head + StripDirectionalSuffix(t)
  {
    StripOfMatch(t, m);
    TailSlices(s, k, t, m.start, m.end, head, whole, StripDirectionalSuffix(t));
  }

  /** The replacement cuts out the match the scanner reports. */
  lemma StripOfMatch(t: string, m: SuffixMatch)
    requires FindSuffix(t) == Some(m)
    ensures m.end <= |t| && StripDirectionalSuffix(t) == t[..m.start] + t[m.end..]
  {
  }

  /** A match whose run of spaces cannot be extended to the left is cut out
      from its own start. */
  lemma StripFromRunStart(s: string, i: nat, h: nat, d: nat, e: nat)
    requires SuffixWitness(s, i, h, d, e) && (i == 0 || !IsRegexSpace(s[i - 1]))
    ensures StripDirectionalSuffix(s) == s[..i] + s[e..]
  {
    if i > 0 {
      SkipSpaceBackwardExact(s, i, h);
    }
    StripWithSuffix(s, i, h, d, e);
  }

  /** When the tail t of s has a suffix, s loses that one and keeps its head. */
  lemma StripSomeInTail(s: string, k: nat, t: string, m: SuffixMatch)
    requires 0 < k <= |s| && s[k..] == t && t != []
    requires !IsRegexSpace(s[k - 1]) || (!IsRegexSpace(t[0]) && t[0] != '-')
    requires FindSuffix(t) == Some(m)
    ensures StripDirectionalSuffix(s) == s[..k] + StripDirectionalSuffix(t)
  {
    StripInTail(s, k, t, m);
    TailCut(s, k, t, m, s[..k], StripDirectionalSuffix(s));
  }

  /** When the rest has no suffix, neither has the whole string. */
  lemma StripNoneShifted(p: string, t: string)
    requires p != [] && t != [] && forall k | 0 <= k < |p| :: p[k] != '-'
    requires !IsRegexSpace(p[|p| - 1]) || (!IsRegexSpace(t[0]) && t[0] != '-')
    requires FindSuffix(t).None?
    ensures StripDirectionalSuffix(p + t) == p + t
  {
    forall i: nat, h: nat, d: nat, e: nat | SuffixWitness(p + t, i, h, d, e) ensures false {
      WitnessWithinRest(p, t, i, h, d, e);
      FindSuffixComplete(t, i - |p|, h - |p|, d - |p|, e - |p|);
    }
    StripWithoutSuffix(p + t);
  }

  /** A text before the suffix that holds no hyphen, and whose junction with the
      rest cannot extend a run of spaces in front of a hyphen, is left alone:
      only the rest can lose its suffix. */
  lemma StripAfterPrefix(p: string, t: string)
    requires forall k | 0 <= k < |p| :: p[k] != '-'
    requires p == [] || t == [] || !IsRegexSpace(p[|p| - 1]) || (!IsRegexSpace(t[0]) && t[0] != '-')
    ensures StripDirectionalSuffix(p + t) == p + StripDirectionalSuffix(t)
  {
    if p == [] {
      assert p + t == t;
    } else if t == [] {
      assert p + t == p;
      StripWithoutHyphen(p);
    } else {
      match FindSuffix(t)
      case Some(m) =>
        ConcatParts(p, t);
        StripSomeInTail(p + t, |p|, t, m);
      case None =>
        StripNoneShifted(p, t);
    }
  }

  /** Under the `i` flag a match in a string is a match in its upper-case form. */
  lemma WitnessUpper(s: string, i: nat, h: nat, d: nat, e: nat)
    ensures SuffixWitness(Upper(s), i, h, d, e) <==> SuffixWitness(s, i, h, d, e)
  {
    if i <= h < d <= e <= |s| {
      assert Upper(s)[d..e] == Upper(s[d..e]);
      assert Lower(Upper(s[d..e])) == Lower(s[d..e]);
    }
  }

  /** Removing the suffix and upper-casing commute. */
  lemma StripUpper(s: string)
    ensures StripDirectionalSuffix(Upper(s)) == Upper(StripDirectionalSuffix(s))
  {
    match FindSuffix(s)
    case Some(m) =>
      StripUpperAt(s, m);
    case None =>
      match FindSuffix(Upper(s))
      case None =>
      case Some(m) =>
        WitnessUpper(s, m.start, m.hyphen, m.word, m.end);
        FindSuffixComplete(s, m.start, m.hyphen, m.word, m.end);
  }

  /** A match that cannot be extended to the left is cut from the upper-cased
      string at the same place. */
  lemma StripUpperAt(s: string, m: SuffixMatch)
    requires SuffixWitness(s, m.start, m.hyphen, m.word, m.end)
    requires m.start == 0 || !IsRegexSpace(s[m.start - 1])
    ensures StripDirectionalSuffix(Upper(s)) == Upper(s[..m.start] + s[m.end..])
  {
    WitnessUpper(s, m.start, m.hyphen, m.word, m.end);
    if m.start > 0 {
      assert Upper(s)[m.start - 1] == UpperChar(s[m.start - 1]);
    }
    StripFromRunStart(Upper(s), m.start, m.hyphen, m.word, m.end);
    UpperCut(s, m.start, m.end, StripDirectionalSuffix(Upper(s)));
  }

  /** Cutting s[a..b] out and upper-casing commute. */
  lemma UpperCut(s: string, a: nat, b: nat, whole: string)
    requires a <= b <= |s| && whole == Upper(s)[..a] + Upper(s)[b..]
    ensures whole == Upper(s[..a] + s[b..])
  {
    UpperConcat(s[..a], s[b..]);
    assert Upper(s)[..a] == Upper(s[..a]);
    assert Upper(s)[b..] == Upper(s[b..]);
  }

  /** A string that starts with neither a space nor a hyphen keeps its first
      character: a match needs a hyphen after its run of spaces. */
  lemma StripKeepsFirst(s: string)
    requires s != [] && !IsRegexSpace(s[0]) && s[0] != '-'
    ensures StripDirectionalSuffix(s) != [] && StripDirectionalSuffix(s)[0] == s[0]
  {
    match FindSuffix(s)
    case None =>
    case Some(m) =>
      assert m.start > 0;
  }

  lemma StripExampleUpperWord()
    ensures StripDirectionalSuffix("C-WEST") == "C"
  {
    var s := "C-WEST";
    assert s[2..6] == "WEST";
    assert Lower("WEST") == "west";
    assert WordLengthAt(s, 6) == 4;
    assert SkipSpaceBackward(s, 2) == 2;
    assert SkipSpaceBackward(s, 1) == 1;
  }

  /** Only the last suffix goes: one replacement is not idempotent. */
  lemma StripExampleTwoSuffixes()
    ensures StripDirectionalSuffix("A-West-East") == "A-West"
    ensures StripDirectionalSuffix("A-West") == "A"
  {
    var s := "A-West-East";
    assert s[7..11] == "East";
    assert Lower("East") == "east";
    assert WordLengthAt(s, 11) == 4;
    assert SkipSpaceBackward(s, 7) == 7;
    assert SkipSpaceBackward(s, 6) == 6;
    var t := "A-West";
    assert t[2..6] == "West";
    assert Lower("West") == "west";
    assert WordLengthAt(t, 6) == 4;
    assert SkipSpaceBackward(t, 2) == 2;
    assert SkipSpaceBackward(t, 1) == 1;
  }

  /** A direction word without a hyphen before it stays. */
  lemma StripExampleNoHyphen()
    ensures StripDirectionalSuffix("A West") == "A West"
  {
    StripWithoutHyphen("A West");
  }

  /** `$` matches before a final newline, which survives the replacement. */
  lemma StripExampleFinalNewline()
    ensures StripDirectionalSuffix("B - North\n") == "B\n"
  {
    var s := "B - North\n";
    assert DollarEnd(s) == 9;
    assert s[4..9] == "North";
    assert s[5..9] == "orth";
    assert Lower("orth") == "orth";
    assert Lower("North") == "north";
    assert WordLengthAt(s, 9) == 5;
    assert SkipSpaceBackward(s, 4) == 3;
    assert SkipSpaceBackward(s, 2) == 1;
  }
}
