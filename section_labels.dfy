/** The printable section label of a faculty load ("BSIT 4A"), built in
    FacultyLoadController::enrichFacultyLoadData: from the offering's program,
    year level and parent section for a linked load, and by parsing the stored
    section string for a manual one. */
module SectionLabels {
  import opened Text
  import opened DirectionalSuffix
  import opened YearLevels
  import opened Wrappers

  /** The character classes the two section patterns use. With the `i` flag
      `[A-Z]` matches ASCII letters of either case; `[\s\-]` is a regex space or
      a hyphen. */
  datatype CharClass = Letters | Digits | Separators

  predicate InClass(c: char, k: CharClass) {
    match k
    case Letters => IsLetter(c)
    case Digits => IsDigit(c)
    case Separators => IsRegexSpace(c) || c == '-'
  }

  predicate AllIn(s: string, k: CharClass) {
    forall i | 0 <= i < |s| :: InClass(s[i], k)
  }

  /** End of the maximal run of class k starting at i (a greedy quantifier). */
  function RunEnd(s: string, i: nat, k: CharClass): (j: nat)
    requires i <= |s|
    ensures i <= j <= |s| && AllIn(s[i..j], k)
    ensures j == |s| || !InClass(s[j], k)
    decreases |s| - i
  {
    if i == |s| || !InClass(s[i], k) then i
    else
      var j := RunEnd(s, i + 1, k);
      assert s[i..j] == [s[i]] + s[i + 1..j];
      j
  }

  /** A run of class k from i reaches at most the greedy end. */
  lemma RunEndMaximal(s: string, i: nat, j: nat, k: CharClass)
    requires i <= j <= |s| && AllIn(s[i..j], k)
    ensures j <= RunEnd(s, i, k)
  {
  }

  /** The greedy end is reached exactly when the run is followed by a
      character outside the class. */
  lemma RunEndExact(s: string, i: nat, j: nat, k: CharClass)
    requires i <= j <= |s| && AllIn(s[i..j], k) && (j == |s| || !InClass(s[j], k))
    ensures RunEnd(s, i, k) == j
  {
    RunEndMaximal(s, i, j, k);
  }

  lemma ClassesDisjoint(c: char)
    ensures !(InClass(c, Letters) && InClass(c, Digits))
    ensures !(InClass(c, Letters) && InClass(c, Separators))
    ensures !(InClass(c, Digits) && InClass(c, Separators))
  {
  }

  // ---------------------------------------------------------------------
  // `/([A-Z]+)[\s\-]*(\d+)([A-Z]+)/i`: program, year and section, e.g. "BSIT-4A".

  /** A way the first section pattern can match s[p..e]: letters s[p..a],
      separators s[a..b], digits s[b..c], letters s[c..e]. */
  predicate FullWitness(s: string, p: nat, a: nat, b: nat, c: nat, e: nat) {
    p < a <= b < c < e <= |s|
    && AllIn(s[p..a], Letters) && AllIn(s[a..b], Separators)
    && AllIn(s[b..c], Digits) && AllIn(s[c..e], Letters)
  }

  /** The capture groups of a match: program, year and section. */
  datatype FullMatch = FullMatch(start: nat, program: string, year: string, section: string)

  /** The match the backtracking engine reports at p: every quantifier greedy. */
  function FullMatchAt(s: string, p: nat): (m: Option<FullMatch>)
    requires p <= |s|
    ensures m.Some? ==> m.value.start == p
  {
    var a := RunEnd(s, p, Letters);
    var b := RunEnd(s, a, Separators);
    var c := RunEnd(s, b, Digits);
    var e := RunEnd(s, c, Letters);
    if a == p || c == b || e == c then None
    else Some(FullMatch(p, s[p..a], s[b..c], s[c..e]))
  }

  /** Every way to match at p is the greedy one up to the last group, so the
      engine's first try succeeds whenever any try can. */
  lemma FullMatchAtComplete(s: string, p: nat, a: nat, b: nat, c: nat, e: nat)
    requires FullWitness(s, p, a, b, c, e)
    ensures FullMatchAt(s, p).Some?
    ensures FullMatchAt(s, p).value.program == s[p..a]
    ensures FullMatchAt(s, p).value.year == s[b..c]
  {
    ClassesDisjoint(s[a]);
    if a < b { assert s[a..b][0] == s[a]; } else { assert s[b..c][0] == s[b]; }
    RunEndExact(s, p, a, Letters);
    ClassesDisjoint(s[b]);
    assert s[b..c][0] == s[b];
    RunEndExact(s, a, b, Separators);
    ClassesDisjoint(s[c]);
    assert s[c..e][0] == s[c];
    RunEndExact(s, b, c, Digits);
    RunEndMaximal(s, c, e, Letters);
  }

  /** The leftmost match at or after p. */
  function FindFullFrom(s: string, p: nat): (m: Option<FullMatch>)
    requires p <= |s|
    ensures m.Some? ==> p <= m.value.start <= |s| && FullMatchAt(s, m.value.start) == m
    ensures m.Some? ==> forall q | p <= q < m.value.start :: FullMatchAt(s, q).None?
    decreases |s| - p
  {
    var here := FullMatchAt(s, p);
    if here.Some? then here
    else if p == |s| then None
    else FindFullFrom(s, p + 1)
  }

  /** `preg_match` with the first pattern. */
  function FindFull(s: string): (m: Option<FullMatch>)
    ensures m.Some? ==> m.value.start <= |s| && FullMatchAt(s, m.value.start) == m
    ensures m.Some? ==> forall q | 0 <= q < m.value.start :: FullMatchAt(s, q).None?
  {
    FindFullFrom(s, 0)
  }

  lemma {:induction false} FindFullFromComplete(s: string, p: nat, q: nat)
    requires p <= q <= |s| && FullMatchAt(s, q).Some?
    ensures FindFullFrom(s, p).Some? && FindFullFrom(s, p).value.start <= q
    decreases q - p
  {
    if FullMatchAt(s, p).None? {
      FindFullFromComplete(s, p + 1, q);
    }
  }

  /** The pattern is found whenever it can match anywhere, and no later than
      that place. */
  lemma FindFullComplete(s: string, p: nat, a: nat, b: nat, c: nat, e: nat)
    requires FullWitness(s, p, a, b, c, e)
    ensures FindFull(s).Some? && FindFull(s).value.start <= p
  {
    FullMatchAtComplete(s, p, a, b, c, e);
    FindFullFromComplete(s, 0, p);
  }

  /** A match the scanner reports is a real match of the pattern. */
  lemma FindFullSound(s: string)
    requires FindFull(s).Some?
    ensures var m := FindFull(s).value;
            m.program != [] && AllIn(m.program, Letters)
            && m.year != [] && AllIn(m.year, Digits)
            && m.section != [] && AllIn(m.section, Letters)
  {
  }

  // ---------------------------------------------------------------------
  // `/(\d+)([A-Z]+)/i`: year and section only, e.g. "4A".

  predicate ShortWitness(s: string, p: nat, c: nat, e: nat) {
    p < c < e <= |s| && AllIn(s[p..c], Digits) && AllIn(s[c..e], Letters)
  }

  datatype ShortMatch = ShortMatch(start: nat, year: string, section: string)

  function ShortMatchAt(s: string, p: nat): (m: Option<ShortMatch>)
    requires p <= |s|
    ensures m.Some? ==> m.value.start == p
  {
    var c := RunEnd(s, p, Digits);
    var e := RunEnd(s, c, Letters);
    if c == p || e == c then None else Some(ShortMatch(p, s[p..c], s[c..e]))
  }

  lemma ShortMatchAtComplete(s: string, p: nat, c: nat, e: nat)
    requires ShortWitness(s, p, c, e)
    ensures ShortMatchAt(s, p).Some? && ShortMatchAt(s, p).value.year == s[p..c]
  {
    ClassesDisjoint(s[c]);
    assert s[c..e][0] == s[c];
    RunEndExact(s, p, c, Digits);
    RunEndMaximal(s, c, e, Letters);
  }

  function FindShortFrom(s: string, p: nat): (m: Option<ShortMatch>)
    requires p <= |s|
    ensures m.Some? ==> p <= m.value.start <= |s| && ShortMatchAt(s, m.value.start) == m
    ensures m.Some? ==> forall q | p <= q < m.value.start :: ShortMatchAt(s, q).None?
    decreases |s| - p
  {
    var here := ShortMatchAt(s, p);
    if here.Some? then here
    else if p == |s| then None
    else FindShortFrom(s, p + 1)
  }

  /** `preg_match` with the second pattern. */
  function FindShort(s: string): (m: Option<ShortMatch>)
    ensures m.Some? ==> m.value.start <= |s| && ShortMatchAt(s, m.value.start) == m
    ensures m.Some? ==> forall q | 0 <= q < m.value.start :: ShortMatchAt(s, q).None?
  {
    FindShortFrom(s, 0)
  }

  lemma {:induction false} FindShortFromComplete(s: string, p: nat, q: nat)
    requires p <= q <= |s| && ShortMatchAt(s, q).Some?
    ensures FindShortFrom(s, p).Some? && FindShortFrom(s, p).value.start <= q
    decreases q - p
  {
    if ShortMatchAt(s, p).None? {
      FindShortFromComplete(s, p + 1, q);
    }
  }

  lemma FindShortComplete(s: string, p: nat, c: nat, e: nat)
    requires ShortWitness(s, p, c, e)
    ensures FindShort(s).Some? && FindShort(s).value.start <= p
  {
    ShortMatchAtComplete(s, p, c, e);
    FindShortFromComplete(s, 0, p);
  }

  // ---------------------------------------------------------------------
  // The labels.

  /** The two patterns in turn: program-year-section, then year-section,
      else the string itself. */
  function ParseSectionString(cleaned: string): string {
    match FindFull(cleaned)
    case Some(m) => Upper(m.program + " " + m.year + m.section)
    case None =>
      match FindShort(cleaned)
      case Some(m) => Upper(m.year + m.section)
      case None => cleaned
  }

  /** The label of a manual load (lines 468-489), from its stored section. */
  function ManualLabel(section: Option<string>): (r: string)
  {
    var raw := section.GetOr("");
    var formatted :=
      if Truthy(raw) then
        var cleaned := StripDirectionalSuffix(raw);
        ParseSectionString(cleaned)
      else raw;
    if Truthy(formatted) then StripDirectionalSuffix(formatted) else formatted
  }

  predicate NoHyphen(s: string) {
    forall k | 0 <= k < |s| :: s[k] != '-'
  }

  lemma NoHyphenConcat(a: string, b: string)
    requires NoHyphen(a) && NoHyphen(b)
    ensures NoHyphen(a + b)
  {
    forall k | 0 <= k < |a + b| ensures (a + b)[k] != '-' {
      if k < |a| { assert (a + b)[k] == a[k]; } else { assert (a + b)[k] == b[k - |a|]; }
    }
  }

  lemma UpperNoHyphen(s: string)
    requires NoHyphen(s)
    ensures NoHyphen(Upper(s))
  {
  }

  /** Upper-casing a hyphen-free string and removing the suffix leaves the
      upper-cased string. */
  lemma StripUpperNoHyphen(s: string)
    requires NoHyphen(s)
    ensures StripDirectionalSuffix(Upper(s)) == Upper(s)
  {
    UpperNoHyphen(s);
    StripWithoutHyphen(Upper(s));
  }

  lemma ClassNoHyphen(s: string, k: CharClass)
    requires k != Separators && AllIn(s, k)
    ensures NoHyphen(s)
  {
  }

  /** A stored section in which program, year and section can be found reads
      as "PROGRAM YEARSECTION" in capitals, from the leftmost such place; the
      final suffix removal has nothing to remove, since the groups hold no
      hyphen. */
  lemma ManualLabelFull(section: string, p: nat, a: nat, b: nat, c: nat, e: nat)
    requires Truthy(section)
    requires FullWitness(StripDirectionalSuffix(section), p, a, b, c, e)
    ensures FindFull(StripDirectionalSuffix(section)).Some?
    ensures var m := FindFull(StripDirectionalSuffix(section)).value;
            m.start <= p && ManualLabel(Some(section)) == Upper(m.program + " " + m.year + m.section)
  {
    var cleaned := StripDirectionalSuffix(section);
    FindFullComplete(cleaned, p, a, b, c, e);
    var m := FindFull(cleaned).value;
    ClassNoHyphen(m.program, Letters);
    ClassNoHyphen(m.year, Digits);
    ClassNoHyphen(m.section, Letters);
    NoHyphenConcat(m.program, " ");
    NoHyphenConcat(m.program + " ", m.year);
    NoHyphenConcat(m.program + " " + m.year, m.section);
    StripUpperNoHyphen(m.program + " " + m.year + m.section);
  }

  /** A stored section with only year and section (no full match) reads as
      "YEARSECTION" in capitals. */
  lemma ManualLabelShort(section: string, p: nat, c: nat, e: nat)
    requires Truthy(section)
    requires FindFull(StripDirectionalSuffix(section)).None?
    requires ShortWitness(StripDirectionalSuffix(section), p, c, e)
    ensures FindShort(StripDirectionalSuffix(section)).Some?
    ensures var m := FindShort(StripDirectionalSuffix(section)).value;
            m.start <= p && ManualLabel(Some(section)) == Upper(m.year + m.section)
  {
    var cleaned := StripDirectionalSuffix(section);
    FindShortComplete(cleaned, p, c, e);
    var m := FindShort(cleaned).value;
    ClassNoHyphen(m.year, Digits);
    ClassNoHyphen(m.section, Letters);
    NoHyphenConcat(m.year, m.section);
    StripUpperNoHyphen(m.year + m.section);
  }

  /** A missing or falsy stored section is kept as it is ("" for null). */
  lemma ManualLabelFalsy(section: Option<string>)
    requires IsEmptyValue(section)
    ensures ManualLabel(section) == section.GetOr("")
    ensures ManualLabel(section) == "" || ManualLabel(section) == "0"
  {
  }

  /** The label of a load linked to an offering (lines 381-452), from the
      program code, the year level, the parent section and the computed section. */
  function OfferingLabel(programName: string, yearLevel: string, parentSection: string, computedSection: string): (r: string)
  {
    LinkedLabel(programName, YearLevelNumber(yearLevel), parentSection, computedSection)
  }

  /** The same label from the year-level number yn: the program code, yn and the
      cleaned parent section, upper-cased; without a year number the program and
      section only; without a program or a section the cleaned computed section.
      Then the suffix is removed from a non-empty label once more. */
  function LinkedLabel(programName: string, yn: string, parentSection: string, computedSection: string): (r: string)
  {
    var formatted :=
      if Truthy(programName) && Truthy(yn) && Truthy(parentSection) then
        Upper(programName + " " + yn + StripDirectionalSuffix(parentSection))
      else if Truthy(programName) && Truthy(parentSection) then
        Upper(programName + " " + StripDirectionalSuffix(parentSection))
      else StripDirectionalSuffix(computedSection);
    if !Truthy(formatted) then StripDirectionalSuffix(computedSection) else StripDirectionalSuffix(formatted)
  }

  /** The text in front of the section in a label linked to an offering. */
  function LabelPrefix(programName: string, yn: string): (r: string)
    ensures |r| > |programName| && r[..|programName|] == programName && r[|programName|] == ' '
  {
    programName + " " + (if Truthy(yn) then yn else "")
  }

  /** With a program and a section, both formatting branches are the prefix
      followed by the cleaned section, upper-cased, with the suffix removed. */
  lemma LinkedLabelPrefixed(programName: string, yn: string, parentSection: string, computedSection: string)
    requires Truthy(programName) && Truthy(parentSection)
    ensures LinkedLabel(programName, yn, parentSection, computedSection)
         == StripDirectionalSuffix(Upper(LabelPrefix(programName, yn) + StripDirectionalSuffix(parentSection)))
  {
    var once := StripDirectionalSuffix(parentSection);
    var q := LabelPrefix(programName, yn);
    if Truthy(yn) {
      assert programName + " " + yn + once == q + once;
    } else {
      assert programName + " " + once == q + once;
    }
    assert Upper(q + once)[|programName|] == ' ';
  }

  /** With a program and a section, the label is the capitalised
      "PROGRAM YEARSECTION" (or "PROGRAM SECTION" without a year number),
      provided program, year number and section carry no hyphen. */
  lemma OfferingLabelPlain(programName: string, yearLevel: string, parentSection: string, computedSection: string)
    requires Truthy(programName) && Truthy(parentSection)
    requires NoHyphen(programName) && NoHyphen(parentSection) && NoHyphen(YearLevelNumber(yearLevel))
    ensures var yn := YearLevelNumber(yearLevel);
            OfferingLabel(programName, yearLevel, parentSection, computedSection)
            == Upper(programName + " " + (if Truthy(yn) then yn else "") + parentSection)
  {
    LinkedLabelPlain(programName, YearLevelNumber(yearLevel), parentSection, computedSection);
  }

  lemma LinkedLabelPlain(programName: string, yn: string, parentSection: string, computedSection: string)
    requires Truthy(programName) && Truthy(parentSection)
    requires NoHyphen(programName) && NoHyphen(parentSection) && NoHyphen(yn)
    ensures LinkedLabel(programName, yn, parentSection, computedSection)
            == Upper(programName + " " + (if Truthy(yn) then yn else "") + parentSection)
  {
    var q := LabelPrefix(programName, yn);
    LinkedLabelPrefixed(programName, yn, parentSection, computedSection);
    StripWithoutHyphen(parentSection);
    NoHyphenConcat(programName, " ");
    if Truthy(yn) {
      NoHyphenConcat(programName + " ", yn);
    } else {
      assert programName + " " + "" == programName + " ";
    }
    NoHyphenConcat(q, parentSection);
    StripUpperNoHyphen(q + parentSection);
  }

  lemma YearLevelNumberFourthYear()
    ensures YearLevelNumber("Fourth Year") == "4"
  {
    var y := "Fourth Year";
    TrimUntrimmed(y);
    assert !IsDigit(y[0]);
    assert Lower(y) == "fourth year";
  }

  lemma OfferingLabelFirstBranch(programName: string, yearLevel: string, parentSection: string, computedSection: string)
    requires Truthy(programName) && Truthy(YearLevelNumber(yearLevel)) && Truthy(parentSection)
    ensures OfferingLabel(programName, yearLevel, parentSection, computedSection)
         == StripDirectionalSuffix(Upper(programName + " " + YearLevelNumber(yearLevel) + StripDirectionalSuffix(parentSection)))
  {
    var yn := YearLevelNumber(yearLevel);
    LinkedLabelPrefixed(programName, yn, parentSection, computedSection);
    assert LabelPrefix(programName, yn) + StripDirectionalSuffix(parentSection)
        == programName + " " + yn + StripDirectionalSuffix(parentSection);
  }

  /** Upper-casing "PREFIX" + x and removing the suffix touches x only, when
      the prefix holds no hyphen and cannot carry a run of spaces into x. */
  lemma StripUpperAfterPrefix(q: string, x: string)
    requires q != [] && NoHyphen(q)
    requires x == [] || !IsRegexSpace(q[|q| - 1]) || (!IsRegexSpace(x[0]) && x[0] != '-')
    ensures StripDirectionalSuffix(Upper(q + x)) == Upper(q) + Upper(StripDirectionalSuffix(x))
  {
    UpperConcat(q, x);
    UpperNoHyphen(q);
    StripAfterPrefix(Upper(q), Upper(x));
    StripUpper(x);
  }

  /** The conditions under which the prefix leaves the section's suffixes to the
      section alone: program and year number without a hyphen, a year number
      that does not end in a space, and, without a year number, a section that
      starts with neither a space nor a hyphen. */
  predicate PrefixSeparated(programName: string, yn: string, parentSection: string) {
    NoHyphen(programName) && NoHyphen(yn)
    && (Truthy(yn) ==> !IsRegexSpace(yn[|yn| - 1]))
    && (!Truthy(yn) && parentSection != [] ==> !IsRegexSpace(parentSection[0]) && parentSection[0] != '-')
  }

  /** Under PrefixSeparated the prefix holds no hyphen and ends in a non-space
      unless the section starts with neither a space nor a hyphen. */
  lemma LabelPrefixShape(programName: string, yn: string, parentSection: string)
    requires PrefixSeparated(programName, yn, parentSection)
    ensures var q := LabelPrefix(programName, yn);
            NoHyphen(q) && (!IsRegexSpace(q[|q| - 1]) || parentSection == [] || (!IsRegexSpace(parentSection[0]) && parentSection[0] != '-'))
  {
    NoHyphenConcat(programName, " ");
    if Truthy(yn) {
      NoHyphenConcat(programName + " ", yn);
    } else {
      assert programName + " " + "" == programName + " ";
    }
  }

  /** With a program and a section, the label is the upper-cased prefix
      "PROGRAM YEAR" followed by the upper-cased section from which the
      directional suffix has been removed twice (once when the section is
      cleaned, once on the assembled label); the prefix itself is never cut. */
  lemma OfferingLabelSuffixes(programName: string, yearLevel: string, parentSection: string, computedSection: string)
    requires Truthy(programName) && Truthy(parentSection)
    requires PrefixSeparated(programName, YearLevelNumber(yearLevel), parentSection)
    ensures OfferingLabel(programName, yearLevel, parentSection, computedSection)
         == Upper(LabelPrefix(programName, YearLevelNumber(yearLevel)))
            + Upper(StripDirectionalSuffix(StripDirectionalSuffix(parentSection)))
  {
    LinkedLabelSuffixes(programName, YearLevelNumber(yearLevel), parentSection, computedSection);
  }

  lemma LinkedLabelSuffixes(programName: string, yn: string, parentSection: string, computedSection: string)
    requires Truthy(programName) && Truthy(parentSection)
    requires PrefixSeparated(programName, yn, parentSection)
    ensures LinkedLabel(programName, yn, parentSection, computedSection)
         == Upper(LabelPrefix(programName, yn)) + Upper(StripDirectionalSuffix(StripDirectionalSuffix(parentSection)))
  {
    LinkedLabelPrefixed(programName, yn, parentSection, computedSection);
    LabelPrefixShape(programName, yn, parentSection);
    if !Truthy(yn) {
      StripKeepsFirst(parentSection);
    }
    StripUpperAfterPrefix(LabelPrefix(programName, yn), StripDirectionalSuffix(parentSection));
  }

  /** A section that carries at most two directional suffixes yields a label
      that carries none: removing the suffix from the label changes nothing. */
  lemma OfferingLabelHasNoSuffix(programName: string, yearLevel: string, parentSection: string, computedSection: string)
    requires Truthy(programName) && Truthy(parentSection)
    requires PrefixSeparated(programName, YearLevelNumber(yearLevel), parentSection)
    requires FindSuffix(StripDirectionalSuffix(StripDirectionalSuffix(parentSection))).None?
    ensures var r := OfferingLabel(programName, yearLevel, parentSection, computedSection);
            StripDirectionalSuffix(r) == r
  {
    LinkedLabelHasNoSuffix(programName, YearLevelNumber(yearLevel), parentSection, computedSection);
  }

  lemma LinkedLabelHasNoSuffix(programName: string, yn: string, parentSection: string, computedSection: string)
    requires Truthy(programName) && Truthy(parentSection)
    requires PrefixSeparated(programName, yn, parentSection)
    requires FindSuffix(StripDirectionalSuffix(StripDirectionalSuffix(parentSection))).None?
    ensures var r := LinkedLabel(programName, yn, parentSection, computedSection);
            StripDirectionalSuffix(r) == r
  {
    var q := LabelPrefix(programName, yn);
    var twice := StripDirectionalSuffix(StripDirectionalSuffix(parentSection));
    LinkedLabelSuffixes(programName, yn, parentSection, computedSection);
    LabelPrefixShape(programName, yn, parentSection);
    if !Truthy(yn) {
      StripKeepsFirst(parentSection);
      StripKeepsFirst(StripDirectionalSuffix(parentSection));
    }
    PrefixedWithoutSuffix(q, twice);
  }

  /** A hyphen-free prefix in front of a text without a suffix, upper-cased,
      has no suffix to remove. */
  lemma PrefixedWithoutSuffix(q: string, x: string)
    requires q != [] && NoHyphen(q)
    requires x == [] || !IsRegexSpace(q[|q| - 1]) || (!IsRegexSpace(x[0]) && x[0] != '-')
    requires FindSuffix(x).None?
    ensures StripDirectionalSuffix(Upper(q) + Upper(x)) == Upper(q) + Upper(x)
  {
    StripUpperAfterPrefix(q, x);
    UpperConcat(q, x);
  }

  lemma ExampleLinkedBranch()
    ensures OfferingLabel("BSIT", "Fourth Year", "A-West", "A-West")
         == StripDirectionalSuffix(Upper("BSIT" + " " + YearLevelNumber("Fourth Year") + StripDirectionalSuffix("A-West")))
  {
    YearLevelNumberFourthYear();
    StripExampleTwoSuffixes();
    OfferingLabelFirstBranch("BSIT", "Fourth Year", "A-West", "A-West");
  }

  lemma ExampleLinkedParts()
    ensures Upper("BSIT" + " " + YearLevelNumber("Fourth Year") + StripDirectionalSuffix("A-West")) == Upper("BSIT 4A")
  {
    ExampleLinkedPlain();
  }

  lemma ExampleLinkedPlain()
    ensures "BSIT" + " " + YearLevelNumber("Fourth Year") + StripDirectionalSuffix("A-West") == "BSIT 4A"
  {
    YearLevelNumberFourthYear();
    StripExampleTwoSuffixes();
    ConcatExample("BSIT" + " ", YearLevelNumber("Fourth Year"), StripDirectionalSuffix("A-West"));
  }

  lemma ConcatExample(a: string, y: string, c: string)
    requires a == "BSIT " && y == "4" && c == "A"
    ensures a + y + c == "BSIT 4A"
  {
  }

  lemma ExampleLinkedAssembled()
    ensures StripDirectionalSuffix(Upper("BSIT 4A")) == "BSIT 4A"
  {
    assert NoHyphen("BSIT 4A");
    StripUpperNoHyphen("BSIT 4A");
  }

  /** "Fourth Year" and "A-West" under program BSIT give "BSIT 4A". */
  lemma OfferingLabelExample()
    ensures OfferingLabel("BSIT", "Fourth Year", "A-West", "A-West") == "BSIT 4A"
  {
    ExampleLinkedBranch();
    ExampleLinkedParts();
    ExampleLinkedAssembled();
  }

  lemma ExampleTwoSuffixesBranch()
    ensures OfferingLabel("BSIT", "4", "A-West-East", "A-West-East")
         == StripDirectionalSuffix(Upper("BSIT" + " " + YearLevelNumber("4") + StripDirectionalSuffix("A-West-East")))
  {
    YearLevelNumberFour();
    OfferingLabelFirstBranch("BSIT", "4", "A-West-East", "A-West-East");
  }

  lemma YearLevelNumberFour()
    ensures YearLevelNumber("4") == "4"
  {
    TrimUntrimmed("4");
  }

  lemma ExampleUpperAssembled()
    ensures Upper("BSIT 4A-West") == "BSIT 4A-WEST"
  {
  }

  lemma ExampleTwoSuffixesParts()
    ensures Upper("BSIT" + " " + YearLevelNumber("4") + StripDirectionalSuffix("A-West-East")) == "BSIT 4A-WEST"
  {
    YearLevelNumberFour();
    StripExampleTwoSuffixes();
    assert "BSIT" + " " + "4" + "A-West" == "BSIT 4A-West";
    ExampleUpperAssembled();
  }

  lemma StripExampleAssembled()
    ensures StripDirectionalSuffix("BSIT 4A-WEST") == "BSIT 4A"
  {
    var u := "BSIT 4A-WEST";
    assert u[8..12] == "WEST";
    assert Lower("WEST") == "west";
    assert WordLengthAt(u, 12) == 4;
    assert SkipSpaceBackward(u, 8) == 8;
    assert SkipSpaceBackward(u, 7) == 7;
  }

  /** Two suffixes: the section loses one, the assembled label the other. */
  lemma OfferingLabelTwoSuffixes()
    ensures OfferingLabel("BSIT", "4", "A-West-East", "A-West-East") == "BSIT 4A"
  {
    ExampleTwoSuffixesBranch();
    ExampleTwoSuffixesParts();
    StripExampleAssembled();
  }

  lemma ExampleManualNoSuffix()
    ensures StripDirectionalSuffix("bsit-4a") == "bsit-4a"
  {
    var s := "bsit-4a";
    assert s[3..7] == "t-4a" && Lower("t-4a") == "t-4a";
    assert s[2..7] == "it-4a" && Lower("it-4a") == "it-4a";
    assert WordLengthAt(s, 7) == 0;
  }

  lemma ExampleManualMatch()
    ensures FindFull("bsit-4a") == Some(FullMatch(0, "bsit", "4", "a"))
  {
    var s := "bsit-4a";
    assert s[0..4] == "bsit" && s[4..5] == "-" && s[5..6] == "4" && s[6..7] == "a";
    RunEndExact(s, 0, 4, Letters);
    RunEndExact(s, 4, 5, Separators);
    RunEndExact(s, 5, 6, Digits);
    RunEndExact(s, 6, 7, Letters);
    assert FullMatchAt(s, 0) == Some(FullMatch(0, "bsit", "4", "a"));
  }

  lemma ExampleManualUpper()
    ensures Upper("bsit" + " " + "4" + "a") == "BSIT 4A"
  {
    assert "bsit" + " " + "4" + "a" == "bsit 4a";
  }

  /** A manual section "bsit-4a" is printed as "BSIT 4A". */
  lemma ManualLabelExample()
    ensures ManualLabel(Some("bsit-4a")) == "BSIT 4A"
  {
    ExampleManualNoSuffix();
    ExampleManualMatch();
    ExampleManualUpper();
    ExampleLinkedAssembled();
  }
}
