# CITADEL backend: faculty loads, section offerings, accounts and the dashboard

CITADEL is a campus administration system with a Laravel (PHP) backend. This
project models its controllers for these areas:

- **Faculty loads.** A faculty load assigns a subject and a section to a
  faculty member. A load is either linked to a section offering or entered by
  hand.
  - Before a load is shown, it is enriched: the subject code, hours, units,
    schedule text, rooms and a printable section label such as "BSIT 4A" are
    derived from the stored row, the linked offering, the offering's subject
    and its schedule entries.
  - `store` and `update` write load rows. `getFacultySections` lists a faculty
    member's sections, and each load carries a count of the students in its
    section.
- **Section offerings.** An offering is a subject offered to one section in
  one term. `store` has a duplicate guard. `update` replaces the schedule
  inside a transaction. `index` is a filtered listing, and `destroy` deletes.
- **Password resets.** A table holds one token per email. `sendResetLink`
  issues tokens; `resetPassword` uses them once, within 60 minutes.
- **Program subjects.** A pivot table records which subjects a program
  teaches. `assignSubject` and `unassignSubject` add and remove pairs.
- **Accounts and users.** The tables of administrators (Account) and staff
  users (User), and the maps between role slugs and display labels. Role gates
  decide who may list and manage accounts; creating, editing and deleting
  rows follow them.
- **Dashboard.** The "time ago" text, the user totals by role, the dean's
  student summary, and the five most recent activities.

Modelling conventions:

- Each source component is one module.
- The database tables are maps from id to row, or sequences in table order.
  The controllers that change a table are classes whose methods change that
  table's field. Each method is proved against a function that states the
  outcome: the status code and the new table.
- PHP semantics are written out:
  - `??` tests only null.
  - `empty()` and truthiness treat `""` and `"0"` as false.
  - `trim()`, `strtoupper()` and `strtolower()` are the ASCII versions.
  - The regular expressions are scanners. Each is proved sound and complete
    against a predicate that names every boundary position of a match. The
    PCRE `$` also matches before a final newline.
- Inputs the code does not compute come in as parameters:
  - the clock, as the "now" instant or as elapsed seconds;
  - password hashes, as the string `Hash::make` returns;
  - random tokens;
  - a Laravel validation rule that cannot be stated on the model's values
    (`email`, `date`, `exists` on tables the model does not hold), as a
    boolean verdict;
  - whether a mail can be sent;
  - which database write raises inside a transaction.

All source paths below are relative to the repository root;
`web-app/citadel-backend/citadel-backend/` is the Laravel application.

## Model

Where a row of "## Findings" shows the source doing something its authors
evidently did not intend, the model keeps both readings. Members whose names
end in `AsWritten` follow the code as it stands. The table classes
(`SectionOfferings.OfferingTable`, `Accounts.AccountTable`, `Users.UserTable`,
`ProgramSubjects.ProgramSubjectTable`) and the rest of the model follow the
intended behaviour.
A row whose third column begins "definition of" names a function that carries
no contract of its own; the lemmas it names state its properties.

| member | source | states |
|---|---|---|
| Wrappers.Coalesce | web-app/citadel-backend/citadel-backend/app/Http/Controllers/FacultyLoadController.php:343-350 | `a ?? b` is `a` when it is not null, else `b`; an empty string counts as a value |
| Text.Trim | web-app/citadel-backend/citadel-backend/app/Http/Controllers/FacultyLoadController.php:399 | the result is the input with a run of trim() characters cut from each end, and neither starts nor ends with such a character (so exactly the maximal runs are cut) |
| Text.TrimUntrimmed | web-app/citadel-backend/citadel-backend/app/Http/Controllers/FacultyLoadController.php:399 | a string with no trim character at either end is its own trim |
| Text.BlankIffTrimEmpty | web-app/citadel-backend/citadel-backend/app/Http/Controllers/AccountController.php:158 | a string counts as not filled exactly when trim() leaves nothing of it |
| Text.Upper | web-app/citadel-backend/citadel-backend/app/Http/Controllers/FacultyLoadController.php:417 | keeps the length and maps each character to its upper-case form |
| Text.ReplaceChar | web-app/citadel-backend/citadel-backend/app/Http/Controllers/AccountController.php:59 | keeps the length and replaces exactly the occurrences of one character |
| Text.NatToString | web-app/citadel-backend/citadel-backend/app/Http/Controllers/DashboardController.php:384-398 | a decimal number has digits only, a leading zero only for 0, and one digit exactly below 10 |
| Text.DigitsValueOfNatToString | web-app/citadel-backend/citadel-backend/app/Http/Controllers/DashboardController.php:384-398 | reading a written number gives the number back |
| Text.NatToStringInjective | web-app/citadel-backend/citadel-backend/app/Http/Controllers/DashboardController.php:384-398 | different numbers are written differently |
| Text.JoinAppend | web-app/citadel-backend/citadel-backend/app/Http/Controllers/FacultyLoadController.php:361 | joining one more part adds the separator and the part at the end |
| Records.Lookup | web-app/citadel-backend/citadel-backend/app/Http/Controllers/SectionOfferingController.php:148-155 | finding a row by id succeeds exactly for an existing id and gives that row |
| Records.Assign | web-app/citadel-backend/citadel-backend/app/Http/Controllers/FacultyLoadController.php:196 | mass assignment writes a given key, a null included, and keeps the column for a missing key |
| DirectionalSuffix.SkipSpaceBackward | web-app/citadel-backend/citadel-backend/app/Http/Controllers/FacultyLoadController.php:418 | finds the start of the maximal run of `\s` characters ending at a position |
| DirectionalSuffix.FindSuffix | web-app/citadel-backend/citadel-backend/app/Http/Controllers/FacultyLoadController.php:418 | a reported match is a real match of the suffix pattern, and it starts at the beginning of the run of spaces before its hyphen |
| DirectionalSuffix.FindSuffixStart | web-app/citadel-backend/citadel-backend/app/Http/Controllers/FacultyLoadController.php:418 | the reported start is where the greedy `\s*` before the hyphen begins: the scanner's backward skip over spaces from the hyphen |
| DirectionalSuffix.FindSuffixComplete | web-app/citadel-backend/citadel-backend/app/Http/Controllers/FacultyLoadController.php:418 | every match the pattern can make is found, with the same hyphen, word and end and a start no later (leftmost match) |
| DirectionalSuffix.StripDirectionalSuffix | web-app/citadel-backend/citadel-backend/app/Http/Controllers/FacultyLoadController.php:418 | without a match the string is unchanged; with one the match is cut out and the string becomes shorter |
| DirectionalSuffix.StripWithoutSuffix | web-app/citadel-backend/citadel-backend/app/Http/Controllers/FacultyLoadController.php:471 | a string with no `<spaces>-<spaces>West/North/East/South` suffix, in any case, is returned unchanged |
| DirectionalSuffix.StripWithSuffix | web-app/citadel-backend/citadel-backend/app/Http/Controllers/FacultyLoadController.php:471 | a string with such a suffix loses the whole run of spaces before the hyphen, the hyphen and the word, and nothing else |
| DirectionalSuffix.StripIsPrefix | web-app/citadel-backend/citadel-backend/app/Http/Controllers/FacultyLoadController.php:514 | the output is a prefix of the input, except that a final newline passed over by `$` is kept |
| DirectionalSuffix.StripPrefixWithoutNewline | web-app/citadel-backend/citadel-backend/app/Http/Controllers/FacultyLoadController.php:514 | without a final newline the output is always a prefix of the input |
| DirectionalSuffix.StripWithoutHyphen | web-app/citadel-backend/citadel-backend/app/Http/Controllers/FacultyLoadController.php:308 | the hyphen is required: a string without one is never changed |
| DirectionalSuffix.StripAfterPrefix | web-app/citadel-backend/citadel-backend/app/Http/Controllers/FacultyLoadController.php:418-419 | a hyphen-free text in front of a string, whose junction cannot extend a run of spaces before a hyphen, is kept: only the string after it loses its suffix |
| DirectionalSuffix.StripUpper | web-app/citadel-backend/citadel-backend/app/Http/Controllers/FacultyLoadController.php:419 | upper-casing and removing the suffix commute, since the pattern carries the `i` flag |
| DirectionalSuffix.StripExampleTwoSuffixes | web-app/citadel-backend/citadel-backend/app/Http/Controllers/FacultyLoadController.php:308 | only the last suffix goes ("A-West-East" becomes "A-West"), so one replacement is not idempotent |
| DirectionalSuffix.StripExampleNoHyphen | web-app/citadel-backend/citadel-backend/app/Http/Controllers/FacultyLoadController.php:308 | "A West" is kept as it is |
| DirectionalSuffix.StripExampleFinalNewline | web-app/citadel-backend/citadel-backend/app/Http/Controllers/FacultyLoadController.php:308 | "B - North" followed by a newline becomes "B" followed by the newline |
| YearLevels.YearLevelNumber | web-app/citadel-backend/citadel-backend/app/Http/Controllers/FacultyLoadController.php:396-413 | the year number is "" exactly for a falsy year level; otherwise it is the trimmed digits, the alias's digit or the year level itself (YearNumberOfDigits, YearNumberOfAlias, YearNumberOfOther) |
| YearLevels.LookupAlias | web-app/citadel-backend/citadel-backend/app/Http/Controllers/FacultyLoadController.php:409-411 | `$yearMap[strtolower(trim($y))] ?? $y` never turns a non-empty year level into "" |
| YearLevels.QueryYearLevel | web-app/citadel-backend/citadel-backend/app/Http/Controllers/FacultyLoadController.php:536-547 | definition of the second conversion inside the student query: a numeric year level as given, else its alias; QueryYearLevelIsNoOp states what it does to the first conversion's output |
| YearLevels.AliasTableShape | web-app/citadel-backend/citadel-backend/app/Http/Controllers/FacultyLoadController.php:402-408 | every one of the 20 aliases maps to one of "1".."5", and no alias is a digit string |
| YearLevels.YearNumberOfDigits | web-app/citadel-backend/citadel-backend/app/Http/Controllers/FacultyLoadController.php:396-400 | a year level that is all digits after trimming yields the trimmed digits |
| YearLevels.YearNumberOfAlias | web-app/citadel-backend/citadel-backend/app/Http/Controllers/FacultyLoadController.php:401-411 | an alias in any case, with any surrounding trim characters, yields its digit "1".."5" |
| YearLevels.YearNumberOfOther | web-app/citadel-backend/citadel-backend/app/Http/Controllers/FacultyLoadController.php:409-411 | any other truthy year level comes back unchanged and untrimmed |
| YearLevels.FalsyNotAlias | web-app/citadel-backend/citadel-backend/app/Http/Controllers/FacultyLoadController.php:396-397 | "" and "0" are never aliases, so they take the empty year number |
| YearLevels.YearNumberIdempotent | web-app/citadel-backend/citadel-backend/app/Http/Controllers/FacultyLoadController.php:396-413 | normalising an already normalised year level changes nothing, except for the digit string "0" |
| YearLevels.QueryYearLevelIsNoOp | web-app/citadel-backend/citadel-backend/app/Http/Controllers/FacultyLoadController.php:536-547 | whatever is_numeric answers, the second conversion inside the student query returns the year level it is given |
| Schedules.FormatTime12 | web-app/citadel-backend/citadel-backend/app/Http/Controllers/FacultyLoadController.php:357-358 | definition of `date('g:i A')`: the 12-hour hour without padding, two-digit minutes and AM or PM; ParseFormatTime12 and FormatTime12Injective state that it loses nothing |
| Schedules.RenderEntry | web-app/citadel-backend/citadel-backend/app/Http/Controllers/FacultyLoadController.php:356-360 | definition of one entry's text, upper-cased day, start-end and the room part; ParseRenderEntry states that it reads back |
| Schedules.RenderSchedule | web-app/citadel-backend/citadel-backend/app/Http/Controllers/FacultyLoadController.php:355-362 | definition of the schedule text, the entries' texts in order joined by ", "; RenderScheduleAppend and RenderScheduleSingle pin it down entry by entry |
| Schedules.Hour12 | web-app/citadel-backend/citadel-backend/app/Http/Controllers/FacultyLoadController.php:357-358 | the 12-hour clock hour lies in 1..12 and agrees with the hour modulo 12 |
| Schedules.ParseFormatTime12 | web-app/citadel-backend/citadel-backend/app/Http/Controllers/FacultyLoadController.php:357-358 | a time written as `g:i A` reads back as the same time, so the rendering loses nothing |
| Schedules.FormatTime12Injective | web-app/citadel-backend/citadel-backend/app/Http/Controllers/FacultyLoadController.php:357-358 | two different times are never rendered alike |
| Schedules.HHMMRoundTrip | web-app/citadel-backend/citadel-backend/app/Http/Controllers/SectionOfferingController.php:168-178 | every time passes the `H:i` rule in its own `H:i` form, and a value that passes is that form of the time it parses to |
| Schedules.RenderScheduleAppend | web-app/citadel-backend/citadel-backend/app/Http/Controllers/FacultyLoadController.php:355-362 | one more entry adds ", " and its rendering at the end, so the entries appear in order |
| Schedules.RenderScheduleSingle | web-app/citadel-backend/citadel-backend/app/Http/Controllers/FacultyLoadController.php:355-362 | one entry is rendered without a separator |
| Schedules.ParseRoomPartOf | web-app/citadel-backend/citadel-backend/app/Http/Controllers/FacultyLoadController.php:359 | the ` (room)` part appears exactly when the room is truthy, and reads back as that room |
| Schedules.ParseRenderEntry | web-app/citadel-backend/citadel-backend/app/Http/Controllers/FacultyLoadController.php:356-360 | a rendered entry reads back as the upper-cased day, both times and the truthy room, provided the day is one word |
| Schedules.TruthyRooms | web-app/citadel-backend/citadel-backend/app/Http/Controllers/FacultyLoadController.php:370 | `pluck('room')->filter()` holds exactly the truthy rooms of the entries and no more values than there are entries; one entry contributes its room exactly when that room is truthy |
| Schedules.TruthyRoomsAppend | web-app/citadel-backend/citadel-backend/app/Http/Controllers/FacultyLoadController.php:370 | the filter keeps the entries' order: the rooms of a concatenation are the first part's rooms followed by the second's (with the one-entry case of TruthyRooms this fixes the result completely) |
| Schedules.Distinct | web-app/citadel-backend/citadel-backend/app/Http/Controllers/FacultyLoadController.php:370 | `unique()` has no duplicates, the same members as its input, and keeps each value at its first occurrence in first-seen order (string equality; see Left out for loose `==`) |
| Schedules.FirstIndexPrefix | web-app/citadel-backend/citadel-backend/app/Http/Controllers/FacultyLoadController.php:370 | the first occurrence of a value that occurs in a prefix is found in that prefix |
| SectionLabels.ParseSectionString | web-app/citadel-backend/citadel-backend/app/Http/Controllers/FacultyLoadController.php:474-481 | definition of the two patterns tried in turn, program-year-section then year-section, else the cleaned string; ManualLabelFull and ManualLabelShort state the results |
| SectionLabels.ManualLabel | web-app/citadel-backend/citadel-backend/app/Http/Controllers/FacultyLoadController.php:466-490 | definition of a manual load's label: the stored section cleaned, parsed and cleaned once more when truthy; ManualLabelFull, ManualLabelShort and ManualLabelFalsy state its cases |
| SectionLabels.OfferingLabel | web-app/citadel-backend/citadel-backend/app/Http/Controllers/FacultyLoadController.php:381-452 | definition of a linked load's label: LinkedLabel applied to the year number, that is the three branches and the final suffix removal; OfferingLabelSuffixes, OfferingLabelPlain and OfferingLabelHasNoSuffix state its results |
| SectionLabels.RunEnd | web-app/citadel-backend/citadel-backend/app/Http/Controllers/FacultyLoadController.php:474 | a greedy quantifier ends at the end of the maximal run of its class |
| SectionLabels.FullMatchAtComplete | web-app/citadel-backend/citadel-backend/app/Http/Controllers/FacultyLoadController.php:474 | every way `([A-Z]+)[\s\-]*(\d+)([A-Z]+)` can match at a position has the program and year groups the engine reports |
| SectionLabels.FindFull | web-app/citadel-backend/citadel-backend/app/Http/Controllers/FacultyLoadController.php:474 | the reported match is the match at its start, and no earlier start matches |
| SectionLabels.FindFullComplete | web-app/citadel-backend/citadel-backend/app/Http/Controllers/FacultyLoadController.php:474 | the pattern is found whenever it can match, no later than any possible match |
| SectionLabels.FindFullSound | web-app/citadel-backend/citadel-backend/app/Http/Controllers/FacultyLoadController.php:474 | a reported match is a real match of the pattern |
| SectionLabels.FindShort | web-app/citadel-backend/citadel-backend/app/Http/Controllers/FacultyLoadController.php:476 | the leftmost match of `(\d+)([A-Z]+)`: the match at its start, with no earlier start matching |
| SectionLabels.FindShortComplete | web-app/citadel-backend/citadel-backend/app/Http/Controllers/FacultyLoadController.php:476 | the year-section pattern is found whenever it can match, no later than any possible match |
| SectionLabels.ManualLabelFull | web-app/citadel-backend/citadel-backend/app/Http/Controllers/FacultyLoadController.php:468-489 | a manual section in which program, year and section can be found is labelled "PROGRAM YEARSECTION" in capitals, from the leftmost such place |
| SectionLabels.ManualLabelShort | web-app/citadel-backend/citadel-backend/app/Http/Controllers/FacultyLoadController.php:476-478 | without a full match but with a year-section match, the label is "YEARSECTION" in capitals |
| SectionLabels.ManualLabelFalsy | web-app/citadel-backend/citadel-backend/app/Http/Controllers/FacultyLoadController.php:482-484 | a null or falsy manual section stays as it is ("" for null) |
| SectionLabels.ManualLabelExample | web-app/citadel-backend/citadel-backend/app/Http/Controllers/FacultyLoadController.php:467 | the manual section "bsit-4a" is labelled "BSIT 4A" |
| SectionLabels.OfferingLabelPlain | web-app/citadel-backend/citadel-backend/app/Http/Controllers/FacultyLoadController.php:416-423 | with a program and a section (and no hyphens in the parts), a linked load's label is "PROGRAM YEARSECTION" in capitals, or "PROGRAM SECTION" without a year number |
| SectionLabels.OfferingLabelSuffixes | web-app/citadel-backend/citadel-backend/app/Http/Controllers/FacultyLoadController.php:416-452 | with a program and a section, a linked load's label is the upper-cased "PROGRAM YEAR" prefix (the year number only when truthy) followed by the upper-cased section with its directional suffix removed twice, once when the section is cleaned and once on the assembled label; the prefix is never cut, provided program and year number hold no hyphen and the junction cannot extend a run of spaces |
| SectionLabels.OfferingLabelHasNoSuffix | web-app/citadel-backend/citadel-backend/app/Http/Controllers/FacultyLoadController.php:446-452 | when the section has at most two directional suffixes (none is left after two removals), the label carries none: one more removal leaves it unchanged |
| SectionLabels.OfferingLabelExample | web-app/citadel-backend/citadel-backend/app/Http/Controllers/FacultyLoadController.php:414 | program BSIT, year "Fourth Year" and section "A-West" give "BSIT 4A" |
| SectionLabels.OfferingLabelTwoSuffixes | web-app/citadel-backend/citadel-backend/app/Http/Controllers/FacultyLoadController.php:446-452 | a section with two suffixes loses one in the section and the other in the final strip |
| Enrichment.Enrich | web-app/citadel-backend/citadel-backend/app/Http/Controllers/FacultyLoadController.php:336-493 | definition of the enriched values, field by field, for linked and manual loads; StoredValueWins, LinkedFallbacks, ManualDefaults and EnrichIdempotent state its properties |
| Enrichment.ComputedSchedule | web-app/citadel-backend/citadel-backend/app/Http/Controllers/FacultyLoadController.php:354-366 | definition of computed_schedule; ScheduleAuthority states its two cases |
| Enrichment.ComputedRoom | web-app/citadel-backend/citadel-backend/app/Http/Controllers/FacultyLoadController.php:369-378 | definition of computed_room; RoomResolution states its cases |
| Enrichment.LinkOf | web-app/citadel-backend/citadel-backend/app/Http/Controllers/FacultyLoadController.php:339-340 | a load has a linked offering exactly when its offering id is set and exists, and then it is that offering |
| Enrichment.StoredValueWins | web-app/citadel-backend/citadel-backend/app/Http/Controllers/FacultyLoadController.php:343-350 | a stored value that is not null is always the value shown, for linked and manual loads alike |
| Enrichment.LinkedFallbacks | web-app/citadel-backend/citadel-backend/app/Http/Controllers/FacultyLoadController.php:343-350 | a null stored value takes the offering's value, else the subject's, else 0 or null; a linked load's section, year and semester are never null |
| Enrichment.ManualDefaults | web-app/citadel-backend/citadel-backend/app/Http/Controllers/FacultyLoadController.php:455-464 | a manual load shows its stored values verbatim, with 0 for missing hours and units, "" for a missing schedule and "TBA" for a missing room |
| Enrichment.ScheduleAuthority | web-app/citadel-backend/citadel-backend/app/Http/Controllers/FacultyLoadController.php:354-366 | with schedule entries the schedule text is their rendering, whatever was stored; without entries it is the stored schedule or "" |
| Enrichment.RoomResolution | web-app/citadel-backend/citadel-backend/app/Http/Controllers/FacultyLoadController.php:369-378 | a truthy stored room wins; else the distinct truthy entry rooms in first-seen order, joined by ", "; else the stored room or "TBA" |
| Enrichment.JoinTruthy | web-app/citadel-backend/citadel-backend/app/Http/Controllers/FacultyLoadController.php:372-373 | a join of truthy rooms is truthy |
| Enrichment.EnrichIdempotent | web-app/citadel-backend/citadel-backend/app/Http/Controllers/FacultyLoadController.php:336-493 | storing the computed values back and enriching again gives the same computed values |
| Enrichment.LoadObject.EnrichFields | web-app/citadel-backend/citadel-backend/app/Http/Controllers/FacultyLoadController.php:336-493 | setting the fields step by step on the load object leaves exactly the values of the enrichment function |
| Enrichment.LoadObject.EnrichLinked | web-app/citadel-backend/citadel-backend/app/Http/Controllers/FacultyLoadController.php:339-452 | the linked branch sets every computed field and the label as the enrichment function gives them |
| Enrichment.LoadObject.SetLinkedValues | web-app/citadel-backend/citadel-backend/app/Http/Controllers/FacultyLoadController.php:343-350 | each field is set to the stored value, else the offering's, else the subject's, else 0 or null |
| Enrichment.LoadObject.SetScheduleAndRoom | web-app/citadel-backend/citadel-backend/app/Http/Controllers/FacultyLoadController.php:354-378 | the schedule text and the room are set from the offering's entries as stated above |
| Enrichment.LoadObject.SetOfferingLabel | web-app/citadel-backend/citadel-backend/app/Http/Controllers/FacultyLoadController.php:381-452 | the label is set to the offering label of the program, year level and section |
| Enrichment.LoadObject.EnrichManual | web-app/citadel-backend/citadel-backend/app/Http/Controllers/FacultyLoadController.php:453-490 | the manual branch sets every computed field and the label as the enrichment function gives them |
| Enrichment.LoadObject.SetManualValues | web-app/citadel-backend/citadel-backend/app/Http/Controllers/FacultyLoadController.php:455-464 | stored values are copied verbatim, with the defaults 0, "" and "TBA" |
| Enrichment.LoadObject.SetManualLabel | web-app/citadel-backend/citadel-backend/app/Http/Controllers/FacultyLoadController.php:468-489 | the label is parsed from the stored section |
| FacultyLoads.DeriveFromOffering | web-app/citadel-backend/citadel-backend/app/Http/Controllers/FacultyLoadController.php:84-107 | definition of the row store derives from an offering; StoreLinkedOverrides states what it takes from where |
| FacultyLoads.StoreDecision | web-app/citadel-backend/citadel-backend/app/Http/Controllers/FacultyLoadController.php:56-141 | definition of store's decision: invalid, rejected with a status and message, or the row to insert; StoreCases, StoreRejectsWith422 and StorePreservesNoDuplicates state its properties |
| FacultyLoads.UpdatedRow | web-app/citadel-backend/citadel-backend/app/Http/Controllers/FacultyLoadController.php:176-206 | definition of the row after update; EmptyUpdateKeepsRow, UpdateManualWritesGiven and UpdateLinkedPrecedence state its properties |
| FacultyLoads.UpdateDecisionOf | web-app/citadel-backend/citadel-backend/app/Http/Controllers/FacultyLoadController.php:151-215 | definition of update's decision: not found, rejected, or the updated row |
| FacultyLoads.CollectSections | web-app/citadel-backend/citadel-backend/app/Http/Controllers/FacultyLoadController.php:287-303 | definition of the sections the loop of getFacultySections collects; CollectedFrom, CollectedIncludes and CollectSectionsStep state it |
| FacultyLoads.SectionList | web-app/citadel-backend/citadel-backend/app/Http/Controllers/FacultyLoadController.php:306-309 | definition of the list pipeline (unique, sort, strip, filter, unique, sort); SectionListSpec states its result |
| FacultyLoads.StoreCases | web-app/citadel-backend/citadel-backend/app/Http/Controllers/FacultyLoadController.php:110-139 | invalid input is rejected; a manual load without a subject code or description is rejected with 422; an inserted row duplicates no row; a manual insert writes the request as given; a duplicate rejection has an existing matching row |
| FacultyLoads.StoreRejectsWith422 | web-app/citadel-backend/citadel-backend/app/Http/Controllers/FacultyLoadController.php:76-80 | the validator checks that the offering exists, so the 404 branch is never reached and every rejection is a 422 |
| FacultyLoads.StoreLinkedOverrides | web-app/citadel-backend/citadel-backend/app/Http/Controllers/FacultyLoadController.php:84-107 | a load created from an offering takes the offering's subject, section, year, semester, hours and schedule over the request's values |
| FacultyLoads.StorePreservesNoDuplicates | web-app/citadel-backend/citadel-backend/app/Http/Controllers/FacultyLoadController.php:123-141 | inserting what store decides keeps the table free of duplicate assignments |
| FacultyLoads.EmptyUpdateKeepsRow | web-app/citadel-backend/citadel-backend/app/Http/Controllers/FacultyLoadController.php:151-215 | an update with no keys changes nothing |
| FacultyLoads.UpdateManualWritesGiven | web-app/citadel-backend/citadel-backend/app/Http/Controllers/FacultyLoadController.php:196 | without an offering, given keys are written as given (a null too) and the others are kept |
| FacultyLoads.UpdateLinkedPrecedence | web-app/citadel-backend/citadel-backend/app/Http/Controllers/FacultyLoadController.php:181-188 | with an offering, the offering's value wins over the request's, and the request's over the current row |
| FacultyLoads.UpdateCanCreateDuplicate | web-app/citadel-backend/citadel-backend/app/Http/Controllers/FacultyLoadController.php:151-215 | update runs no duplicate check: two loads that store kept apart become duplicates |
| FacultyLoads.SectionOfLoad | web-app/citadel-backend/citadel-backend/app/Http/Controllers/FacultyLoadController.php:295-303 | each load contributes at most one section to the list |
| FacultyLoads.CollectedFrom | web-app/citadel-backend/citadel-backend/app/Http/Controllers/FacultyLoadController.php:287-303 | every collected section comes from a load of the faculty member in the period |
| FacultyLoads.CollectedIncludes | web-app/citadel-backend/citadel-backend/app/Http/Controllers/FacultyLoadController.php:287-303 | every such load's section is collected |
| FacultyLoads.SectionListSpec | web-app/citadel-backend/citadel-backend/app/Http/Controllers/FacultyLoadController.php:306-309 | the answer is sorted and holds no duplicates, and it holds exactly the truthy suffix-stripped forms of the collected sections |
| FacultyLoads.FacultyLoadTable.Store | web-app/citadel-backend/citadel-backend/app/Http/Controllers/FacultyLoadController.php:53-148 | store decides as stated above; an insert takes the next id and changes nothing else; a rejection changes nothing; no duplicates are created |
| FacultyLoads.FacultyLoadTable.Update | web-app/citadel-backend/citadel-backend/app/Http/Controllers/FacultyLoadController.php:151-215 | the decision is the update function's; an accepted update replaces only that row, any other answer leaves the table unchanged |
| FacultyLoads.FacultyLoadTable.FacultySections | web-app/citadel-backend/citadel-backend/app/Http/Controllers/FacultyLoadController.php:281-312 | the loop collects the sections of the faculty member's loads in the period (default "2024", "First"), and the answer is their list pipeline |
| StudentCounts.CountMatching | web-app/citadel-backend/citadel-backend/app/Http/Controllers/FacultyLoadController.php:530-565 | the count never exceeds the number of students, and it is 0 exactly when no student matches |
| StudentCounts.CountMatchingAppend | web-app/citadel-backend/citadel-backend/app/Http/Controllers/FacultyLoadController.php:530-565 | the count adds up over parts of the students table |
| StudentCounts.StudentCount | web-app/citadel-backend/citadel-backend/app/Http/Controllers/FacultyLoadController.php:498-572 | the intended count, with Student's `yearSection` relation declared: a load's student count never exceeds the number of students |
| StudentCounts.ManualLoadCountsNone | web-app/citadel-backend/citadel-backend/app/Http/Controllers/FacultyLoadController.php:502-506 | a load without an existing offering counts no students |
| StudentCounts.CountedSimplified | web-app/citadel-backend/citadel-backend/app/Http/Controllers/FacultyLoadController.php:550-560 | once the two year forms coincide, a student is counted exactly when the program matches, the year level contains the year, and the section equals the queried section or starts with its suffix-stripped form |
| StudentCounts.QueriedFormsCoincide | web-app/citadel-backend/citadel-backend/app/Http/Controllers/FacultyLoadController.php:517-547 | for the year level actually queried, the two year forms coincide |
| StudentCounts.OwnSectionCounted | web-app/citadel-backend/citadel-backend/app/Http/Controllers/FacultyLoadController.php:550-560 | in the intended count, a student of the offering's program whose year section holds exactly the offering's year and section is counted: a table of that one student counts 1 |
| StudentCounts.StudentCountAsWritten | web-app/citadel-backend/citadel-backend/app/Http/Controllers/FacultyLoadController.php:532-571 | as the code stands every load counts 0: the query raises on the relation Student lacks and the catch returns 0 |
| StudentCounts.UnreachedCountsNone | web-app/citadel-backend/citadel-backend/app/Http/Controllers/FacultyLoadController.php:498-531 | without an offering, or with its program, year level or section empty, the query is not reached and the count is 0 |
| StudentCounts.MissingRelationCountsNone | web-app/citadel-backend/citadel-backend/app/Models/Student.php:8-35 | on OwnSectionCounted's input, the count as written is 0 and the intended count is 1 |
| StudentCounts.PrefixOverCounts | web-app/citadel-backend/citadel-backend/app/Http/Controllers/FacultyLoadController.php:557-560 | the prefix condition over-counts: for section "A", a student of section "AB" is counted |
| Sorting.Sort | web-app/citadel-backend/citadel-backend/app/Http/Controllers/FacultyLoadController.php:306 | `sort()` gives the same strings, as a multiset, in ascending order (code-point order; see Left out for SORT_REGULAR) |
| Sorting.SortByDesc | web-app/citadel-backend/citadel-backend/app/Http/Controllers/DashboardController.php:163 | `sortByDesc` gives the same elements, as a multiset, latest key first |
| SectionOfferings.Index | web-app/citadel-backend/citadel-backend/app/Http/Controllers/SectionOfferingController.php:16-69 | definition of the intended listing; IndexMembers and IndexUnfiltered state which offerings it holds |
| SectionOfferings.OfferingUpdateOf | web-app/citadel-backend/citadel-backend/app/Http/Controllers/SectionOfferingController.php:146-214 | definition of update's outcome: not found, rejected, rolled back, or the updated offering; OfferingTable.Update and UpdateSchedules state it |
| SectionOfferings.OfferingStoreStatus | web-app/citadel-backend/citadel-backend/app/Http/Controllers/SectionOfferingController.php:76-111 | 422 exactly for a request the rules reject, 409 exactly for a valid one whose six identifying columns are taken, 201 otherwise |
| SectionOfferings.NewOffering | web-app/citadel-backend/citadel-backend/app/Http/Controllers/SectionOfferingController.php:113 | the created row has the request's six identifying columns, slots and hours, and no schedules |
| SectionOfferings.StoreKeepsKeysUnique | web-app/citadel-backend/citadel-backend/app/Http/Controllers/SectionOfferingController.php:97-113 | a store that creates keeps the six identifying columns unique |
| SectionOfferings.CreatedEntryAsWritten | web-app/citadel-backend/citadel-backend/app/Models/SectionOfferingSchedule.php:10-15 | as the code stands, a created schedule entry never has a room |
| SectionOfferings.RoomDroppedExample | web-app/citadel-backend/citadel-backend/app/Http/Controllers/SectionOfferingController.php:192-194 | an entry given room R101 would show " (R101)" but is stored with no room part |
| SectionOfferings.CreatedEntry | web-app/citadel-backend/citadel-backend/app/Http/Controllers/SectionOfferingController.php:192-194 | a created entry keeps the given day and room |
| SectionOfferings.CreatedEntries | web-app/citadel-backend/citadel-backend/app/Http/Controllers/SectionOfferingController.php:192-194 | one schedule row per given entry, in order |
| SectionOfferings.CreatedEntryTimes | web-app/citadel-backend/citadel-backend/app/Http/Controllers/SectionOfferingController.php:168-178 | the stored times of a validated entry format back to the given `H:i` strings |
| SectionOfferings.UpdateSchedules | web-app/citadel-backend/citadel-backend/app/Http/Controllers/SectionOfferingController.php:184-195 | given schedules replace the old ones exactly and in order (day, times, room); without the key the schedules are kept; the other columns follow the request |
| SectionOfferings.UpdateCanDuplicateKey | web-app/citadel-backend/citadel-backend/app/Http/Controllers/SectionOfferingController.php:184 | update runs no duplicate check, so it can give two offerings the same identifying columns |
| SectionOfferings.IndexAsWritten | web-app/citadel-backend/citadel-backend/app/Http/Controllers/SectionOfferingController.php:50-61 | as the code stands, the listing fails exactly when exclude_assigned is requested |
| SectionOfferings.IndexMembers | web-app/citadel-backend/citadel-backend/app/Http/Controllers/SectionOfferingController.php:21-61 | an offering is listed exactly when it equals every given filter and, with exclude_assigned=true, has no faculty load in the given year and semester |
| SectionOfferings.IndexAgreesWithoutExclusion | web-app/citadel-backend/citadel-backend/app/Http/Controllers/SectionOfferingController.php:50-61 | without exclusion the code as written lists what is intended; with exclusion it raises |
| SectionOfferings.IndexUnfiltered | web-app/citadel-backend/citadel-backend/app/Http/Controllers/SectionOfferingController.php:16-69 | without filters every offering is listed |
| SectionOfferings.OfferingTable.Store | web-app/citadel-backend/citadel-backend/app/Http/Controllers/SectionOfferingController.php:74-121 | 422 and 409 change nothing; 201 adds the new row under the next id; the identifying columns stay unique |
| SectionOfferings.OfferingTable.Update | web-app/citadel-backend/citadel-backend/app/Http/Controllers/SectionOfferingController.php:146-214 | the offering is updated as a whole or not at all: a missing id, a rejected request or a raising write leaves the table unchanged |
| SectionOfferings.OfferingTable.CreateSchedules | web-app/citadel-backend/citadel-backend/app/Http/Controllers/SectionOfferingController.php:192-194 | the loop creates the entries in order; it succeeds exactly when no create raises, and then the schedule is the given list |
| SectionOfferings.OfferingTable.Destroy | web-app/citadel-backend/citadel-backend/app/Http/Controllers/SectionOfferingController.php:219-238 | 404 with no change for a missing id, else exactly that row is removed |
| PasswordResets.Upsert | web-app/citadel-backend/citadel-backend/app/Http/Controllers/Auth/PasswordResetController.php:29-32 | definition of `updateOrInsert` on the reset table; UpsertRows and UpsertOnePerEmail state its result |
| PasswordResets.DeleteEmail | web-app/citadel-backend/citadel-backend/app/Http/Controllers/Auth/PasswordResetController.php:79 | definition of the delete of an email's rows; DeleteEmailRows and DeleteEmailOnePerEmail state its result |
| PasswordResets.FindRecord | web-app/citadel-backend/citadel-backend/app/Http/Controllers/Auth/PasswordResetController.php:57-60 | a found record has the email and the token; none is found only when no row has both |
| PasswordResets.UpsertRows | web-app/citadel-backend/citadel-backend/app/Http/Controllers/Auth/PasswordResetController.php:29-32 | after the upsert the email has exactly one row, holding the new token and time; other emails keep their rows |
| PasswordResets.UpsertOnePerEmail | web-app/citadel-backend/citadel-backend/app/Http/Controllers/Auth/PasswordResetController.php:29-32 | the upsert keeps at most one row per email |
| PasswordResets.DeleteEmailRows | web-app/citadel-backend/citadel-backend/app/Http/Controllers/Auth/PasswordResetController.php:79 | after the delete the email has no row; other emails keep theirs |
| PasswordResets.DeleteEmailOnePerEmail | web-app/citadel-backend/citadel-backend/app/Http/Controllers/Auth/PasswordResetController.php:67 | the delete keeps at most one row per email and adds no row |
| PasswordResets.DeleteEmailMembers | web-app/citadel-backend/citadel-backend/app/Http/Controllers/Auth/PasswordResetController.php:79 | every row left by the delete was already in the table |
| PasswordResets.FindRecordRows | web-app/citadel-backend/citadel-backend/app/Http/Controllers/Auth/PasswordResetController.php:57-60 | a record is found exactly when the email has a row with that token |
| PasswordResets.SendOutcome | web-app/citadel-backend/citadel-backend/app/Http/Controllers/Auth/PasswordResetController.php:16-47 | 422 for an invalid email and 404 for an unknown one, both with no change; otherwise the token is upserted, with 200, or 500 when the mail fails |
| PasswordResets.ResetOutcome | web-app/citadel-backend/citadel-backend/app/Http/Controllers/Auth/PasswordResetController.php:48-87 | 200 exactly for a valid request (email, token, a confirmed password of 8 or more characters), a record with that email and token at most 3600 seconds old, and an existing user |
| PasswordResets.ResetFailures | web-app/citadel-backend/citadel-backend/app/Http/Controllers/Auth/PasswordResetController.php:62-81 | a failure leaves the password as it was; an expired token deletes the email's rows; other failures change nothing; success sets the new hash and deletes the email's rows |
| PasswordResets.TokenSingleUse | web-app/citadel-backend/citadel-backend/app/Http/Controllers/Auth/PasswordResetController.php:77-79 | after a successful reset, the same token is an invalid token |
| PasswordResets.SendThenReset | web-app/citadel-backend/citadel-backend/app/Http/Controllers/Auth/PasswordResetController.php:29-81 | a link used within the hour resets the password to the new hash |
| PasswordResets.NewTokenReplacesOld | web-app/citadel-backend/citadel-backend/app/Http/Controllers/Auth/PasswordResetController.php:29-32 | after a new request, the old token no longer resets |
| PasswordResets.ResetStore.SendResetLink | web-app/citadel-backend/citadel-backend/app/Http/Controllers/Auth/PasswordResetController.php:16-47 | the table and passwords become what SendOutcome states, and one row per email is kept |
| PasswordResets.ResetStore.ResetPassword | web-app/citadel-backend/citadel-backend/app/Http/Controllers/Auth/PasswordResetController.php:48-87 | the table and passwords become what ResetOutcome states, and one row per email is kept |
| ProgramSubjects.SubjectsOf | web-app/citadel-backend/citadel-backend/app/Http/Controllers/AcademicManagement/ProgramController.php:169 | a program's subjects are exactly those it has a pivot row for |
| ProgramSubjects.Detach | web-app/citadel-backend/citadel-backend/app/Http/Controllers/AcademicManagement/ProgramController.php:209 | detach removes every row of the pair and keeps every other row |
| ProgramSubjects.DetachSubjects | web-app/citadel-backend/citadel-backend/app/Http/Controllers/AcademicManagement/ProgramController.php:209 | after detach the program's subjects lose that subject; other programs keep theirs |
| ProgramSubjects.AttachSubjects | web-app/citadel-backend/citadel-backend/app/Http/Controllers/AcademicManagement/ProgramController.php:177 | after attach the program's subjects gain that subject; other programs keep theirs |
| ProgramSubjects.AssignThenUnassign | web-app/citadel-backend/citadel-backend/app/Http/Controllers/AcademicManagement/ProgramController.php:177 | assigning a new subject and then unassigning it restores the pivot table exactly |
| ProgramSubjects.ProgramSubjectTable.AssignSubject | web-app/citadel-backend/citadel-backend/app/Http/Controllers/AcademicManagement/ProgramController.php:153-184 | 404 for an unknown program, 422 for a missing or unknown subject, 400 when it is already assigned, each with no change; 200 exactly when program and subject exist and the subject is not yet assigned, and then the subject set is the old one plus the subject (the answer and new table are AssignOutcome of the old table) |
| ProgramSubjects.ProgramSubjectTable.UnassignSubject | web-app/citadel-backend/citadel-backend/app/Http/Controllers/AcademicManagement/ProgramController.php:189-216 | 404 for an unknown program, 400 when the subject is not assigned, each with no change; 200 exactly when the subject is assigned, and then the set is the old one minus the subject (the answer and new table are UnassignOutcome of the old table) |
| ProgramSubjects.AssignAsWritten | web-app/citadel-backend/citadel-backend/app/Http/Controllers/AcademicManagement/ProgramController.php:159-169 | as written: 404 for an unknown program, 422 for a missing or unknown subject, and 500 for every other request, since Program has no subjects() relation; the pivot never changes and 200 never occurs |
| ProgramSubjects.AssignOutcome | web-app/citadel-backend/citadel-backend/app/Http/Controllers/AcademicManagement/ProgramController.php:153-184 | the intended assignment: 404 exactly for an unknown program, 200 exactly for an existing program and subject not yet assigned, which adds the subject to the program's set; every other answer leaves the pivot |
| ProgramSubjects.UnassignAsWritten | web-app/citadel-backend/citadel-backend/app/Http/Controllers/AcademicManagement/ProgramController.php:191-201 | as written: 404 for an unknown program, 500 for every existing one; the pivot never changes |
| ProgramSubjects.UnassignOutcome | web-app/citadel-backend/citadel-backend/app/Http/Controllers/AcademicManagement/ProgramController.php:189-216 | the intended unassignment: 404 exactly for an unknown program, 200 exactly when the subject is assigned, which removes it from the program's set; every other answer leaves the pivot |
| ProgramSubjects.MissingRelationFails | web-app/citadel-backend/citadel-backend/app/Models/AcademicManagement/Program.php:8-21 | requests turned away before the relation is used get the same answer in both versions; every request the intended version accepts ends in 500 as written, with the subject neither assigned nor unassigned |
| Roles.SlugFallback | web-app/citadel-backend/citadel-backend/app/Http/Controllers/AccountController.php:107 | the fallback slug has the name's length, no space and no capital, and '_' exactly where the name had a space or '_' |
| Roles.RoleLabel | web-app/citadel-backend/citadel-backend/app/Http/Controllers/AccountController.php:47-59 | the three listed slugs get their labels; every label has the slug's length and no '_' |
| Roles.AccountStoreSlug | web-app/citadel-backend/citadel-backend/app/Http/Controllers/AccountController.php:96-107 | the three listed labels map to their slugs, every other label to the lowercase/underscore fallback |
| Roles.EditSlugsAgree | web-app/citadel-backend/citadel-backend/app/Http/Controllers/AccountController.php:208-221 | for every name, an administrator's edit and user creation store the same slug: the fallback's lowercase/underscore form, except "Professor", which both store as prof |
| Roles.EditSlugRoundTrip | web-app/citadel-backend/citadel-backend/app/Http/Controllers/UserController.php:48-61 | labelling any well-formed slug and mapping the label back through user creation or an edit gives the slug again, except professor, which comes back as prof |
| Roles.StoreSlugIsFallback | web-app/citadel-backend/citadel-backend/app/Http/Controllers/AccountController.php:96-107 | account creation's table adds nothing to its fallback: every name is stored as its lowercase/underscore form |
| Roles.FallbackIsSlug | web-app/citadel-backend/citadel-backend/app/Http/Controllers/AccountController.php:107 | a name of letters, digits and spaces becomes a well-formed slug |
| Roles.LabelRoundTrip | web-app/citadel-backend/citadel-backend/app/Http/Controllers/AccountController.php:96-107 | mapping one of the three listed labels to its slug and labelling it gives the label back |
| Roles.FallbackInvertsLabel | web-app/citadel-backend/citadel-backend/app/Http/Controllers/AccountController.php:59 | the fallback slug of a fallback label is the slug it came from |
| Roles.FallbackLabelShape | web-app/citadel-backend/citadel-backend/app/Http/Controllers/AccountController.php:59 | a fallback label has no capital after its first character |
| Roles.SlugRoundTrip | web-app/citadel-backend/citadel-backend/app/Http/Controllers/AccountController.php:96-107 | labelling any well-formed slug and mapping the label back through account creation gives the slug |
| Roles.ProgramHeadLabelChanges | web-app/citadel-backend/citadel-backend/app/Http/Controllers/AccountController.php:208-221 | an edit stores "Program Head" as program_head, which the listing shows as "Program head" |
| Roles.ProfessorMapsDiffer | web-app/citadel-backend/citadel-backend/app/Http/Controllers/AccountController.php:96-107 | account creation maps "Professor" to professor, while account edits and user creation map it to prof |
| BulkDelete.WithoutIds | web-app/citadel-backend/citadel-backend/app/Http/Controllers/AccountController.php:286 | exactly the rows whose ids are listed go; unknown ids are ignored; the kept rows are unchanged |
| BulkDelete.DeleteMultiple | web-app/citadel-backend/citadel-backend/app/Http/Controllers/UserController.php:125-133 | 400 with no change exactly for missing, non-array or empty ids; otherwise the listed rows are deleted |
| BulkDelete.DeleteMultipleIdempotent | web-app/citadel-backend/citadel-backend/app/Http/Controllers/UserController.php:131 | deleting the same ids twice deletes nothing more the second time |
| Accounts.Index | web-app/citadel-backend/citadel-backend/app/Http/Controllers/AccountController.php:11-69 | 403 exactly for a role other than super_admin, dean and college_secretary; otherwise the listing holds exactly the accounts with the given role (all when none is given), each labelled by the role map |
| Accounts.WithProfile | web-app/citadel-backend/citadel-backend/app/Http/Controllers/AccountController.php:146-155 | a profile write sets the given fields and keeps the role and password |
| Accounts.WriteKeepsUnique | web-app/citadel-backend/citadel-backend/app/Http/Controllers/AccountController.php:141-142 | writing a row whose email and username no other row has keeps both unique |
| Accounts.NewAccount | web-app/citadel-backend/citadel-backend/app/Http/Controllers/AccountController.php:103-114 | the created row has the mapped role, the given fields and college id, and the hash |
| Accounts.StoreOutcome | web-app/citadel-backend/citadel-backend/app/Http/Controllers/AccountController.php:71-119 | 403 exactly for a caller who is not super_admin, 422 for a rejected request, both with no change; otherwise 201 with the new row added |
| Accounts.StoreKeepsUnique | web-app/citadel-backend/citadel-backend/app/Http/Controllers/AccountController.php:90-91 | store keeps emails and usernames unique |
| Accounts.StoredLabelListed | web-app/citadel-backend/citadel-backend/app/Http/Controllers/AccountController.php:96-107 | an account created under one of the three listed labels is listed under that label |
| Accounts.ProfileUpdated | web-app/citadel-backend/citadel-backend/app/Http/Controllers/AccountController.php:145-161 | the caller's role is never changed, and the password only when a new one is filled in |
| Accounts.ProfileOutcome | web-app/citadel-backend/citadel-backend/app/Http/Controllers/AccountController.php:130-169 | 422 with no change exactly for a rejected request; otherwise 200 with the caller's row updated; the role is unchanged either way |
| Accounts.ProfileKeepsUnique | web-app/citadel-backend/citadel-backend/app/Http/Controllers/AccountController.php:141-142 | updateProfile keeps emails and usernames unique |
| Accounts.Edited | web-app/citadel-backend/citadel-backend/app/Http/Controllers/AccountController.php:207-232 | an edit stores the role through the edit map, and the password only when a new one is filled in and truthy |
| Accounts.EditOutcome | web-app/citadel-backend/citadel-backend/app/Http/Controllers/AccountController.php:175-251 | 403 for a caller who is not super_admin and 500 for a missing id or a rejected request, both with no change; otherwise 200 with the row edited |
| Accounts.EditKeepsUnique | web-app/citadel-backend/citadel-backend/app/Http/Controllers/AccountController.php:202-203 | updateUser keeps emails and usernames unique |
| Accounts.BlankPasswordKept | web-app/citadel-backend/citadel-backend/app/Http/Controllers/AccountController.php:157-161 | neither update touches the password unless a new one is filled in |
| Accounts.BlankPasswordEditAccepted | web-app/citadel-backend/citadel-backend/app/Http/Controllers/AccountController.php:194-232 | an otherwise valid edit whose password is left out or blank (such as "   ") is answered 200 and keeps the old password: `sometimes|string|min:6` is not applied to a blank string |
| Accounts.DestroyOutcome | web-app/citadel-backend/citadel-backend/app/Http/Controllers/AccountController.php:254-268 | 403 for a caller who is not super_admin and 404 for a missing id, both with no change; otherwise exactly that row is removed |
| Accounts.DeleteMultipleOutcome | web-app/citadel-backend/citadel-backend/app/Http/Controllers/AccountController.php:270-289 | 403 for a caller who is not super_admin and 400 for bad ids, both with no change; otherwise the listed rows are removed |
| Accounts.RemovalKeepsUnique | web-app/citadel-backend/citadel-backend/app/Http/Controllers/AccountController.php:264-286 | removing rows keeps emails and usernames unique |
| Accounts.AccountTable.Store | web-app/citadel-backend/citadel-backend/app/Http/Controllers/AccountController.php:71-119 | the table becomes what StoreOutcome states, and the next id advances only on 201 |
| Accounts.AccountTable.UpdateProfile | web-app/citadel-backend/citadel-backend/app/Http/Controllers/AccountController.php:130-169 | the table becomes what ProfileOutcome states |
| Accounts.AccountTable.UpdateUser | web-app/citadel-backend/citadel-backend/app/Http/Controllers/AccountController.php:175-251 | the table becomes what EditOutcome states |
| Accounts.AccountTable.Destroy | web-app/citadel-backend/citadel-backend/app/Http/Controllers/AccountController.php:254-268 | the table becomes what DestroyOutcome states |
| Accounts.AccountTable.DeleteMultiple | web-app/citadel-backend/citadel-backend/app/Http/Controllers/AccountController.php:270-289 | the table becomes what DeleteMultipleOutcome states |
| Accounts.NewAccountAsWritten | web-app/citadel-backend/citadel-backend/app/Models/Account.php:16-28 | as the code stands, the created row has no college id |
| Accounts.ProfileUpdatedAsWritten | web-app/citadel-backend/citadel-backend/app/Models/Account.php:16-28 | as the code stands, a profile update keeps the old college id |
| Accounts.CollegeIdDropped | web-app/citadel-backend/citadel-backend/app/Http/Controllers/AccountController.php:103-116 | a valid create or profile update loses the college id it is given, and the corrected rows keep it |
| Users.WithFields | web-app/citadel-backend/citadel-backend/app/Http/Controllers/UserController.php:97-107 | a write sets the given fields and role and keeps the password |
| Users.WriteKeepsUnique | web-app/citadel-backend/citadel-backend/app/Http/Controllers/UserController.php:92 | writing a row whose email no other row has keeps emails unique |
| Users.NewUser | web-app/citadel-backend/citadel-backend/app/Http/Controllers/UserController.php:57-70 | the created row has the mapped role, the given fields and the hash |
| Users.StoreOutcome | web-app/citadel-backend/citadel-backend/app/Http/Controllers/UserController.php:31-73 | 422 with no change exactly for a rejected request; otherwise 201 with the new row added |
| Users.StoreKeepsUnique | web-app/citadel-backend/citadel-backend/app/Http/Controllers/UserController.php:42 | store keeps emails unique |
| Users.Updated | web-app/citadel-backend/citadel-backend/app/Http/Controllers/UserController.php:97-112 | update stores the role label verbatim, and the password only when one is filled in |
| Users.UpdateOutcomeAsWritten | web-app/citadel-backend/citadel-backend/app/Http/Controllers/UserController.php:110-112 | as the code stands, a valid update with a filled password raises, with a 500 and no change |
| Users.UpdateOutcome | web-app/citadel-backend/citadel-backend/app/Http/Controllers/UserController.php:80-120 | 404 for a missing id and 422 for a rejected request, both with no change; otherwise 200 with the row updated |
| Users.FilledPasswordRaises | web-app/citadel-backend/citadel-backend/app/Http/Controllers/UserController.php:110-112 | the code as written and the corrected update agree except on a valid request with a filled password, which the code answers with an error |
| Users.UpdateKeepsUnique | web-app/citadel-backend/citadel-backend/app/Http/Controllers/UserController.php:92 | update keeps emails unique |
| Users.UpdateCanDuplicateUsername | web-app/citadel-backend/citadel-backend/app/Http/Controllers/UserController.php:93 | update does not check the username, so two users can end up with the same one |
| Users.UserTable.Store | web-app/citadel-backend/citadel-backend/app/Http/Controllers/UserController.php:31-73 | the table becomes what StoreOutcome states, and the next id advances only on 201 |
| Users.UserTable.Update | web-app/citadel-backend/citadel-backend/app/Http/Controllers/UserController.php:80-120 | the table becomes what UpdateOutcome states |
| Users.UserTable.DeleteMultiple | web-app/citadel-backend/citadel-backend/app/Http/Controllers/UserController.php:123-134 | the table becomes what the shared bulk-delete guard states |
| Dashboard.ReadingOf | web-app/citadel-backend/citadel-backend/app/Http/Controllers/DashboardController.php:380-399 | the text for any delay reads back as a reading that fits the delay |
| Dashboard.TimeAgo | web-app/citadel-backend/citadel-backend/app/Http/Controllers/DashboardController.php:380-399 | definition of getTimeAgo on elapsed seconds; TimeAgoReadsBack, MinutesReadBack and HoursReadBack state what its text says |
| Dashboard.MinutesReadBack | web-app/citadel-backend/citadel-backend/app/Http/Controllers/DashboardController.php:386-389 | "N minute ago" (N = 1) and "N minutes ago" (N > 1) read back as N minutes |
| Dashboard.HoursReadBack | web-app/citadel-backend/citadel-backend/app/Http/Controllers/DashboardController.php:390-392 | "N hour ago" (N = 1) and "N hours ago" (N > 1) read back as N hours |
| Dashboard.DescribesUnique | web-app/citadel-backend/citadel-backend/app/Http/Controllers/DashboardController.php:384-398 | the ranges of "Just now", minutes, hours, "Yesterday" and days do not overlap |
| Dashboard.TimeAgoReadsBack | web-app/citadel-backend/citadel-backend/app/Http/Controllers/DashboardController.php:380-399 | the text getTimeAgo writes reads back as a reading exactly when that reading fits the delay: under a minute "Just now", under an hour minutes, under a day hours, one day "Yesterday", else days |
| Dashboard.CountRole | web-app/citadel-backend/citadel-backend/app/Http/Controllers/DashboardController.php:30-33 | a role's count never exceeds the number of users, and it is 0 exactly when no user has the role |
| Dashboard.GroupByRole | web-app/citadel-backend/citadel-backend/app/Http/Controllers/DashboardController.php:30-33 | the grouped counts have exactly the roles present as keys, each with its positive count |
| Dashboard.CountOfGroup | web-app/citadel-backend/citadel-backend/app/Http/Controllers/DashboardController.php:35-38 | reading a role from the grouped counts with `?? 0` gives its count, 0 for an absent role |
| Dashboard.UserTotalsAsWritten | web-app/citadel-backend/citadel-backend/app/Http/Controllers/DashboardController.php:35-38 | the figures lines 35-38 compute as the code stands: faculty is the 'faculty' plus the 'professor' count, and the total is students + users + accounts; they reach the answer only once line 44 stops raising (StatisticsAsWritten) |
| Dashboard.StoredProfessorNotCounted | web-app/citadel-backend/citadel-backend/app/Http/Controllers/DashboardController.php:36 | a single user stored as 'prof' adds 1 to the total but 0 to faculty |
| Dashboard.UserTotals | web-app/citadel-backend/citadel-backend/app/Http/Controllers/DashboardController.php:25-38 | the corrected totals: each figure is its role's count, faculty also counts 'prof', and the total is students + users + accounts |
| Dashboard.RoleCountsBounded | web-app/citadel-backend/citadel-backend/app/Http/Controllers/DashboardController.php:35-38 | each user has one role, so the role counts together never exceed the number of users |
| Dashboard.StatisticsAsWritten | web-app/citadel-backend/citadel-backend/app/Http/Controllers/DashboardController.php:21-115 | as the code stands (Program's `students` relation missing) every call answers 500 with "Failed to fetch dashboard statistics: " and the exception's text; with the relation declared the answer carries the as-written totals |
| Dashboard.Statistics | web-app/citadel-backend/citadel-backend/app/Http/Controllers/DashboardController.php:21-115 | the corrected answer always carries the figures |
| Dashboard.StatisticsFiguresHold | web-app/citadel-backend/citadel-backend/app/Http/Controllers/DashboardController.php:80-106 | in the corrected answer the breakdown stays within the total, a stored 'prof' counts as faculty, and the recent list is at most five of the entries, latest first |
| Dashboard.StatisticsAlwaysFail | web-app/citadel-backend/citadel-backend/app/Models/AcademicManagement/Program.php:8-21 | for every input, 500 as written, the figures in the corrected answer |
| Dashboard.StoredProfessorMasked | web-app/citadel-backend/citadel-backend/app/Http/Controllers/DashboardController.php:35-44 | for one user stored as 'prof': the failure as written; with the relation declared, faculty 0 as written and 1 corrected |
| Dashboard.UserTotalsBreakdown | web-app/citadel-backend/citadel-backend/app/Http/Controllers/DashboardController.php:80-87 | the breakdown never exceeds the total, and a user stored as 'prof' is counted as faculty |
| Dashboard.DeanCollege | web-app/citadel-backend/citadel-backend/app/Http/Controllers/DashboardController.php:250 | the college found has the dean; none is found only when no college has the dean |
| Dashboard.ProgramIds | web-app/citadel-backend/citadel-backend/app/Http/Controllers/DashboardController.php:260 | exactly the ids of the college's programs |
| Dashboard.StudentsIn | web-app/citadel-backend/citadel-backend/app/Http/Controllers/DashboardController.php:264-268 | exactly the students whose program is one of the ids, each as many times as in the table; none for an empty id set |
| Dashboard.CountRegular | web-app/citadel-backend/citadel-backend/app/Http/Controllers/DashboardController.php:274 | `whereNotNull('year_section_id')->count()` never exceeds the number of students, and a one-row table counts 1 exactly when the row has a year section |
| Dashboard.CountRegularAppend | web-app/citadel-backend/citadel-backend/app/Http/Controllers/DashboardController.php:274 | the regular count adds up over parts of the table; with the one-row case it is the number of rows with a year section |
| Dashboard.CountIrregularAppend | web-app/citadel-backend/citadel-backend/app/Http/Controllers/DashboardController.php:277 | the irregular count adds up over parts of the table; with the one-row case it is the number of rows without a year section |
| Dashboard.CountIrregular | web-app/citadel-backend/citadel-backend/app/Http/Controllers/DashboardController.php:277 | `whereNull('year_section_id')->count()` never exceeds the number of students, and a one-row table counts 1 exactly when the row has no year section; RegularIrregularSplit states that the two add up to the total |
| Dashboard.RegularIrregularSplit | web-app/citadel-backend/citadel-backend/app/Http/Controllers/DashboardController.php:271-277 | regular plus irregular students is the total |
| Dashboard.PresentEstimate | web-app/citadel-backend/citadel-backend/app/Http/Controllers/DashboardController.php:285 | the present estimate is 95% of the total rounded down (`p * 100 <= total * 95 < (p + 1) * 100`), so it never exceeds the total and the absent count is not negative |
| Dashboard.DeanStatistics | web-app/citadel-backend/citadel-backend/app/Http/Controllers/DashboardController.php:221-320 | 401 exactly without a signed-in user, 403 exactly for one who is not a dean, 404 exactly when no college has the dean; otherwise the total counts the college's students, regular and irregular count its regular and irregular students and add up to the total, present is 95% of the total rounded down, and present + absent = total |
| Dashboard.StudentActivitiesEach | web-app/citadel-backend/citadel-backend/app/Http/Controllers/DashboardController.php:125-139 | the i-th entry is the registration entry of the i-th student row, in the admin list and in the dean list (lines 336-343) alike |
| Dashboard.LoadActivities | web-app/citadel-backend/citadel-backend/app/Http/Controllers/DashboardController.php:141-160 | definition of the admin list's load entries: at most one per load row, each of kind faculty_load; LoadActivitiesMembers, LoadActivitiesAppend and LoadActivitiesOne fix which loads contribute and in what order |
| Dashboard.LoadActivitiesMembers | web-app/citadel-backend/citadel-backend/app/Http/Controllers/DashboardController.php:141-160 | an entry is in the list exactly when it is the entry of a load whose faculty resolves, in the admin and the dean list |
| Dashboard.LoadActivitiesAppend | web-app/citadel-backend/citadel-backend/app/Http/Controllers/DashboardController.php:141-160 | the entries keep the query order: those of a concatenation are the first part's followed by the second's |
| Dashboard.LoadActivitiesOne | web-app/citadel-backend/citadel-backend/app/Http/Controllers/DashboardController.php:143-159 | one load contributes its entry exactly when its faculty resolves, and nothing otherwise |
| Dashboard.ShowAll | web-app/citadel-backend/citadel-backend/app/Http/Controllers/DashboardController.php:368-373 | each dean entry is reduced to its text and time, in order |
| Dashboard.TopFive | web-app/citadel-backend/citadel-backend/app/Http/Controllers/DashboardController.php:163-167 | at most five entries, fewer only when there are fewer; latest first; all taken from the input |
| Dashboard.TopFiveKeepsLatest | web-app/citadel-backend/citadel-backend/app/Http/Controllers/DashboardController.php:163-167 | an entry left out is never later than any entry kept |
| Dashboard.TopFiveOfFew | web-app/citadel-backend/citadel-backend/app/Http/Controllers/DashboardController.php:163-167 | with five entries or fewer, nothing is dropped |
| Dashboard.QueryLimitsKeepAll | web-app/citadel-backend/citadel-backend/app/Http/Controllers/DashboardController.php:125-160 | the query limits of 3 students and 2 loads leave at most five entries, so the admin list keeps all of them |
| Dashboard.RecentActivities | web-app/citadel-backend/citadel-backend/app/Http/Controllers/DashboardController.php:120-168 | the loops append the student entries, then the entries of loads with a faculty member, and the answer is their latest five; the corrected getStatistics answers this list (as written it fails before line 72, see Findings) |
| Dashboard.DeanRecentActivities | web-app/citadel-backend/citadel-backend/app/Http/Controllers/DashboardController.php:325-375 | student entries are added only when the college has programs; the answer is the latest five of the student and load entries, reduced to text and time |

## Left out

- Eloquent queries, eager loading, pagination and JSON shaping are not modelled. Tables are maps or sequences, and a query is the function it computes over them.
- Request middleware and authentication are not modelled. The caller's role or id is a parameter, and updateProfile takes the authenticated user's id as given.
- Validation rules that cannot be stated on the model's values are boolean verdicts: `email`, `date`, `max` on fields the model does not keep, and `exists` on tables the model does not hold. So is `is_numeric` in the student query.
- `Hash::make`, `bcrypt` and `Str::random` are opaque. Their results are parameters.
- Mail, `env('FRONTEND_URL')` and `\Log` are left out. A failing mail is a parameter of sendResetLink.
- The clock is a parameter, as in the password-reset "now" and the dashboard's elapsed seconds. Carbon's diffInMinutes, diffInHours and diffInDays are taken as Carbon 2 computes them: whole elapsed seconds divided by 60, 3600 and 86400, rounded down. Carbon 3 returns fractional differences; no composer file here fixes the version, and the Carbon 3 behaviour is not modelled.
- `date('g:i A', strtotime(...))` is modelled on hour and minute values only. A `time` column is taken to hold a valid time.
- SQL equality, `LIKE` and collation are plain string equality, prefix and substring tests.
- Dashboard.PresentEstimate: `(int)($total * 0.95)` is taken as the exact `total * 95 / 100`, rounded down. The floating-point product is not modelled.
- The dashboard's getWeeklyStats is not modelled: it uses `rand`.
- getProgramStatistics is not modelled. Neither is the rest of getStatistics: the program top-ten (whose query raises as written, see Findings), the section-offering counts and the active-user count.
- The user totals distinguish no Account or User instance. getDeanStatistics takes the signed-in user as an id and a role, whichever table it comes from.
- Dashboard.RecentActivities and Dashboard.DeanRecentActivities take the latest-rows query results as inputs, in query order. The query limits of 3 and 2 rows appear only in QueryLimitsKeepAll.
- Dashboard.TopFive: `sortByDesc` is stated as an ordering and a multiset. Its stability, the order among equal timestamps, is not proved.
- Timestamps are compared as strings. The database's `Y-m-d H:i:s` form makes that the time order.
- Accounts.Index: the `search` filter (ILIKE over four columns), the `latest()` order and pagination are not modelled. Only the role filter and the labels are.
- AccountController `show` and `changePassword`, UserController `index` and `show`, and ProgramController's other actions are not modelled. They are plain CRUD outside the core.
- Accounts.ProfileOutcome: the profile row is looked up as an Account. The authenticated user could be a User instance, which is not modelled.
- Accounts.EditOutcome: a missing id and a rejected request both answer 500. The try/catch inside updateUser turns `findOrFail` and the validation exception into a 500. A password key given as null fails the `string` rule there and answers 500; the model takes it as absent and answers 200.
- A missing request key and a key given as null are both "not filled" in the account and user requests. The distinction, which matters for `sometimes`, is not modelled there.
- Users.StoreOutcome: the uniqueness of usernames is checked by validation. Whether the database also enforces it is not known from the migrations here, so UniqueEmails is the only invariant kept.
- FacultyLoads.StoreDecision: the faculty_loads columns are taken as nullable, as the migration make_redundant_fields_nullable_in_faculty_loads intends. In file-name order that migration runs before create_faculty_loads_table, and its `Schema::hasTable` guard (line 18) makes it do nothing. On a freshly migrated database subject_code, subject_description, section, schedule, room, academic_year and semester (create migration lines 18-28) then stay NOT NULL, and an insert with one of them null fails with a 500: a linked load given no room, or whose offering has no schedule rows and no schedule was given (FacultyLoadController.php:106). StoreDecision and FacultyLoadTable.Store, and the update decisions, answer as with the nullable schema.
- StudentCounts.OwnSectionCounted: states the intended count. As the code stands every load counts 0 (StudentCountAsWritten, see Findings).
- FacultyLoads.StoreRejectsWith422: the `exists` rule on section_offering_id rejects a missing offering with 422 first, so the 404 of lines 76-80 is unreachable.
- FacultyLoadController store: the difference between an absent key and a null key at lines 128-130 is not modelled. Reading an undefined array key raises in PHP.
- SectionOfferings.OfferingTable.Update: a `schedules` key given as null deletes the old rows, then fails in the foreach and rolls back with a 500. The model has it as RolledBack.
- The "N/A" fallback at FacultyLoadController.php:447 is not modelled, because it is unreachable. A linked load's computed section is never null: the offering's parent_section column is not nullable.
- Enrichment.LoadObject: enrichment is modelled on a load object with its own fields. Aliasing with other Eloquent objects, and the lazy loading of relations, are not.
- ProgramSubjects.AssignOutcome and ProgramSubjects.UnassignOutcome take the program_subject pivot table as the contents of the `subjects()` relation that Program.php lacks (see Findings). The success response's `$program->load(['college', 'programHead', 'subjects'])` (ProgramController.php lines 182 and 214) is not modelled. Program defines none of those three relations either, so as written the load would raise even after the pivot had been written.
- The year levels of `enrichFacultyLoadData` and of the student count are modelled on strings only. PHP's loose comparison of numeric strings is not.
- Roles.FallbackIsSlug: slug well-formedness is claimed only for names made of letters, digits and spaces. The maps accept any name, and a name with other characters ("Vice-Dean", say) is stored as a role that is not a well-formed slug, so no claim about every stored role is made. The listed names map to listed slugs (ListedNamesFollowFallback).
- Sorting.Sort: PHP's `sort` and `sortBy` use SORT_REGULAR, which compares two numeric strings as numbers ("9" before "10"). The model orders all strings by code points ("10" before "9"). The two orders agree whenever at most one of the two strings compared is numeric, and on strings of decimal digits of equal length.
- Schedules.Distinct: Collection::unique() compares with PHP's loose `==`, under which numeric strings such as "1" and "01" are equal. The model uses string equality, so it keeps both.
- Faculty load `destroy`, `index`, `getFacultyLoads` and `getAllSections` are not modelled beyond the enrichment and student count they share. They are plain queries.

## Findings

| source | as written | input that shows it | evidently intended | confidence | as-written member | corrected member |
|---|---|---|---|---|---|---|
| web-app/citadel-backend/citadel-backend/app/Models/SectionOfferingSchedule.php:10-15 | `room` is not fillable, so `schedules()->create($schedule)` in SectionOfferingController.php:192-194 drops the room of every entry | an update with schedule {day "Mon", 08:00-09:30, room "R101"} stores the entry without a room, so the load shows "MON 8:00 AM-9:30 AM" and room "TBA" | the entry keeps its room, as the add_room_to_section_offering_schedules migration provides | not executed | SectionOfferings.CreatedEntryAsWritten, SectionOfferings.RoomDroppedExample | SectionOfferings.CreatedEntry |
| web-app/citadel-backend/citadel-backend/app/Http/Controllers/SectionOfferingController.php:50-61 | `whereDoesntHave('facultyLoads')` names a relation that SectionOffering does not define, so the query raises | any index request with exclude_assigned=true | the offerings with no faculty load in the given year and semester are dropped | not executed | SectionOfferings.IndexAsWritten, SectionOfferings.IndexAgreesWithoutExclusion | SectionOfferings.Index, SectionOfferings.IndexMembers |
| web-app/citadel-backend/citadel-backend/app/Models/Account.php:16-28 | `college_id` is not fillable, so Account::create and `$user->update` ignore the college id that store and updateProfile validate as required | a valid store with college_id "C1" creates an account whose college id is null | the account keeps the college id it is given, as the accounts migration (2025_10_24_091024, line 14) provides | not executed | Accounts.NewAccountAsWritten, Accounts.ProfileUpdatedAsWritten, Accounts.CollegeIdDropped | Accounts.NewAccount, Accounts.ProfileUpdated |
| web-app/citadel-backend/citadel-backend/app/Http/Controllers/UserController.php:110-112 | the password is read from `$validated`, whose rules have no `password` key, so a filled password raises an undefined-key error | a valid update request with password "secret123" | the filled password is hashed and stored | not executed | Users.UpdateOutcomeAsWritten, Users.FilledPasswordRaises | Users.UpdateOutcome |
| web-app/citadel-backend/citadel-backend/app/Http/Controllers/DashboardController.php:35-36 | faculty counts the roles 'faculty' and 'professor', but UserController.php:48-61 stores a professor as 'prof' | one user created as "Professor": faculty 0, total 1, observable only once Program declares `students()` (see the DashboardController.php:44 row) | users stored as 'prof' count as faculty | not executed | Dashboard.UserTotalsAsWritten, Dashboard.StoredProfessorNotCounted, Dashboard.StoredProfessorMasked | Dashboard.UserTotals |
| web-app/citadel-backend/citadel-backend/app/Models/AcademicManagement/Program.php:8-21 | Program declares only head(), while assignSubject (ProgramController.php:169, 177) and unassignSubject (line 201, 209) call `$program->subjects()`; the call raises, so both answer 500 for every existing program once the request validates | assigning an existing, unassigned subject to an existing program | the subject is attached to (or detached from) the program through program_subject and the request answers 200 | not executed | ProgramSubjects.AssignAsWritten, ProgramSubjects.UnassignAsWritten, ProgramSubjects.MissingRelationFails | ProgramSubjects.AssignOutcome, ProgramSubjects.UnassignOutcome, ProgramSubjects.ProgramSubjectTable.AssignSubject, ProgramSubjects.ProgramSubjectTable.UnassignSubject |
| web-app/citadel-backend/citadel-backend/app/Http/Controllers/DashboardController.php:44 | `Program::withCount('students')` names a relation that Program.php:8-21 does not declare; the exception is caught at lines 109-114, so getStatistics answers 500 "Failed to fetch dashboard statistics: ..." on every call | any request, on any database | the answer carries the user totals, the program top-ten and the recent activities | not executed | Dashboard.StatisticsAsWritten, Dashboard.StatisticsAlwaysFail | Dashboard.Statistics, Dashboard.StatisticsFiguresHold, Dashboard.UserTotals, Dashboard.RecentActivities |
| web-app/citadel-backend/citadel-backend/app/Models/Student.php:8-35 | Student declares no `yearSection` relation, so the `whereHas('yearSection', ...)` of FacultyLoadController.php:534 raises; the catch at lines 567-569 logs it and line 571 returns 0 | a linked load whose offering has program 3, year "2" and section "A", and one student of program 3 in year "2", section "A": count 0 | the load counts the students of its program, year level and section | not executed | StudentCounts.StudentCountAsWritten, StudentCounts.MissingRelationCountsNone | StudentCounts.StudentCount, StudentCounts.OwnSectionCounted |
