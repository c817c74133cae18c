/** Year-level normalisation of FacultyLoadController: a year level stored as
    digits ("4"), as a word ("Fourth Year") or as an ordinal ("4th") is turned
    into the digit string "1".."5" through a twenty-entry table. */
module YearLevels {
  import opened Text

  /** The alias table, keyed by the trimmed, lower-cased year level. */
  const YearAliases: map<string, string> := map[
    "first year" := "1", "first" := "1", "1st year" := "1", "1st" := "1",
    "second year" := "2", "second" := "2", "2nd year" := "2", "2nd" := "2",
    "third year" := "3", "third" := "3", "3rd year" := "3", "3rd" := "3",
    "fourth year" := "4", "fourth" := "4", "4th year" := "4", "4th" := "4",
    "fifth year" := "5", "fifth" := "5", "5th year" := "5", "5th" := "5"
  ]

  /** `preg_match('/^\d+$/', $t)` on a trimmed string: one or more digits
      (a trimmed string never ends in the newline `$` could step over). */
  predicate IsDigitString(t: string) { t != [] && AllDigits(t) }

  /** `$yearMap[strtolower(trim($y))] ?? $y`. */
  function LookupAlias(y: string): (r: string)
    ensures y != [] ==> r != []
  {
    var key := Lower(Trim(y));
    if key in YearAliases then
      AliasTableShape(key);
      YearAliases[key]
    else y
  }

  /** Every alias value is one of "1".."5", and no alias key is a digit string. */
  lemma AliasTableShape(key: string)
    requires key in YearAliases
    ensures YearAliases[key] in {"1", "2", "3", "4", "5"}
    ensures !IsDigitString(key)
  {
    assert key[0] in "f1s2t3f4f5";
    assert !IsDigit(key[|key| - 1]);
  }

  /** The year-level number of an offering's year level (lines 396-413):
      "" for a falsy year level, the trimmed digits for a digit string, the
      table's value for an alias, and otherwise the year level unchanged. */
  function YearLevelNumber(yearLevel: string): (r: string)
    ensures r == "" <==> !Truthy(yearLevel)
  {
    if !Truthy(yearLevel) then ""
    else if IsDigitString(Trim(yearLevel)) then Trim(yearLevel)
    else LookupAlias(yearLevel)
  }

  /** A year level that is all digits after trimming yields the trimmed digits. */
  lemma YearNumberOfDigits(y: string)
    requires Truthy(y) && IsDigitString(Trim(y))
    ensures YearLevelNumber(y) == Trim(y) && IsDigitString(YearLevelNumber(y))
  {
  }

  /** Each alias, in any case and with any surrounding trim characters, yields its digit. */
  lemma YearNumberOfAlias(y: string)
    requires Lower(Trim(y)) in YearAliases
    ensures YearLevelNumber(y) == YearAliases[Lower(Trim(y))]
    ensures YearLevelNumber(y) in {"1", "2", "3", "4", "5"}
  {
    var key := Lower(Trim(y));
    AliasTableShape(key);
    FalsyNotAlias(y);
    DigitStringNotAlias(Trim(y));
  }

  /** "" and "0" are not aliases. */
  lemma FalsyNotAlias(y: string)
    ensures !Truthy(y) ==> Lower(Trim(y)) !in YearAliases
  {
    if !Truthy(y) {
      TrimUntrimmed(y);
      assert Lower(y) == y;
      DigitStringNotAlias(y);
    }
  }

  /** Any other truthy year level comes back unchanged and untrimmed. */
  lemma YearNumberOfOther(y: string)
    requires Truthy(y) && !IsDigitString(Trim(y)) && Lower(Trim(y)) !in YearAliases
    ensures YearLevelNumber(y) == y
  {
  }

  /** Normalising twice changes nothing, except for the digit string "0",
      which is falsy and therefore normalises to "". */
  lemma {:induction false} YearNumberIdempotent(y: string)
    requires YearLevelNumber(y) != "0"
    ensures YearLevelNumber(YearLevelNumber(y)) == YearLevelNumber(y)
  {
    var r := YearLevelNumber(y);
    if !Truthy(y) {
    } else if IsDigitString(Trim(y)) {
      DigitStringIsUntrimmed(r);
    } else if Lower(Trim(y)) in YearAliases {
      AliasTableShape(Lower(Trim(y)));
      DigitStringIsUntrimmed(r);
    }
  }

  lemma DigitStringIsUntrimmed(t: string)
    requires IsDigitString(t)
    ensures Trim(t) == t
  {
    TrimUntrimmed(t);
  }

  /** Lower-casing leaves a digit string alone, so it is never an alias key. */
  lemma DigitStringNotAlias(t: string)
    ensures AllDigits(t) ==> Lower(t) == t
    ensures IsDigitString(t) || t == "" ==> t !in YearAliases
  {
    if AllDigits(t) {
      assert forall i | 0 <= i < |t| :: Lower(t)[i] == t[i];
    }
    if t in YearAliases {
      AliasTableShape(t);
    }
  }

  /** The year level used for counting students (lines 517-528): a falsy or
      digit year level is kept as it is (untrimmed), anything else goes
      through the table. */
  function StudentYearLevel(yearLevel: string): string {
    if Truthy(yearLevel) && !IsDigitString(Trim(yearLevel)) then LookupAlias(yearLevel)
    else yearLevel
  }

  /** The second conversion inside the student query (lines 536-547), with
      `is_numeric` left as the boolean `isNumeric`. */
  function QueryYearLevel(yearLevel: string, isNumeric: bool): string {
    if isNumeric then yearLevel else LookupAlias(yearLevel)
  }

  /** Whatever is_numeric answers, the second conversion returns the year level
      produced by the first: its table lookup can never hit. */
  lemma QueryYearLevelIsNoOp(y: string, isNumeric: bool)
    ensures QueryYearLevel(StudentYearLevel(y), isNumeric) == StudentYearLevel(y)
  {
    var s := StudentYearLevel(y);
    if !isNumeric {
      if Truthy(y) && !IsDigitString(Trim(y)) {
        var key := Lower(Trim(y));
        if key in YearAliases {
          AliasTableShape(key);
          DigitStringIsUntrimmed(s);
          DigitStringNotAlias(s);
        }
      } else if Truthy(y) {
        var t := Trim(y);
        DigitStringIsUntrimmed(t);
        DigitStringNotAlias(t);
      } else {
        FalsyNotAlias(y);
      }
    }
  }
}
