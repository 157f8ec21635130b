# keyhorn/datetime — the pattern translation of `Datetime.Format`, in Dafny

`Datetime.Format(pattern)` accepts a Java-style date pattern such as
`"GG yyyy-MM-dd HH:mm:ss.SSS"`. In the Go source it does three things:

1. Two era passes (`replaceCommonEra`) replace "GG" and then "G" by era text.
   The text is "B.C."/"BC" for a negative year and "A.D."/"AD" otherwise.
   When a token was present, the instant's year is replaced by its magnitude.
2. `replaceFormat` runs nine fixed passes: year, month, day, hour, minute,
   second, AM/PM, zone and weekday. Each pass is a chain of
   `strings.Contains` / `strings.Replace(…, -1)` calls. Together they turn
   the pattern into a Go reference layout ("2006", "01", "15", "PM", …).
3. `time.Format` renders the instant with that layout.

This project models steps 1 and 2 as pure functions over `seq<char>`. It
also models the `Millisecond` and `Microsecond` accessors. The modules are:

- `GoStrings` (strings.dfy): `strings.Contains` and `strings.Replace` with
  n = -1 (leftmost, non-overlapping), with their algebra such as splitting,
  runs of one letter and single-character targets.
- `Rules` (rules.dfy): a pass as a list of `(target, replacement)` rules
  applied in order. Also, how such a list acts on a run of one letter
  (`Cascade`), and when it can be applied to a pattern run by run
  (`OrderedAfter`).
- `Instants` (instant.dfy): the calendar fields of a `time.Time` with Go's
  ranges, the integer magnitude used for the year, and the two accessors.
- `Datetime` (datetime.dfy): the era passes, the nine `replaceFormat`
  passes and `replaceFormat` itself, written the way the source writes them.
- `RunTranslation` (translate.dfy): an independent reference definition.
  `Translate` cuts a pattern into maximal runs of one letter and maps each
  run through a table, `RunText`. The main theorem,
  `RunTranslation.ReplaceFormatByRuns`, proves that `replaceFormat` equals
  `Translate` on every pattern.
- `Formatting` (format.dfy): `Format` up to the call of `time.Format`,
  returning the layout and the era-adjusted instant, plus the worked
  patterns of the repository's tests.

The model follows the code wherever the code and its documentation
disagree. The doc comment of `Format` (datetime.go:131-160) describes
tokens by their rendered meaning. The model states what the passes
actually produce. The most notable case is in "## Findings": the AM/PM
pass rewrites the "a" inside the month names.

Other consequences of following the code:

- Year 0 counts as AD.
- A negative year with a G token reads, for example, "BC 1000".
- In "GGG" the trailing G always reads "AD", because the "GG" pass has
  already made the year non-negative.
- A lone "y", "H" or "h" stays a literal letter.
- An S run whose length is not a multiple of three keeps its remainder as
  letters.

## Model

| member | source | states |
|---|---|---|
| GoStrings.ReplaceAll | datetime.go:181-184 | `strings.Replace(s, target, replacement, -1)` with a non-empty target; every character of the result comes from the input or from the replacement |
| GoStrings.ReplaceAllWithoutOccurrence | datetime.go:208-213 | replacing a target that does not occur returns the input unchanged, so every `strings.Contains` guard in the passes is redundant |
| GoStrings.ReplaceCharRemoves | datetime.go:228-229 | after replacing a single letter by text without that letter, the letter no longer occurs |
| GoStrings.ReplaceAllLeavesNoRun | datetime.go:211-212 | after replacing a run of n copies of a letter by text without that letter, no run of n copies remains |
| GoStrings.ReplaceAllRun | datetime.go:219-229 | a run of k letters replaced at target length n gives k / n replacements followed by the k % n leftover letters (longest-first cutting) |
| GoStrings.ReplaceAllSplit | datetime.go:181-184 | replacement distributes over a concatenation when no occurrence straddles the seam |
| GoStrings.ReplaceAllKeepsChar | datetime.go:181-184 | a character in neither the target nor the replacement is present after the replacement exactly when it was before |
| Rules.ApplyToRun | datetime.go:217-232 | a pass's rules for one letter, applied to a run of that letter, give the cascade: each rule takes as many whole targets as fit in what the earlier rules left |
| Rules.ApplySplitAtRun | datetime.go:192-204 | when no multi-letter rule looks for a letter an earlier rule produced, the rule list is applied to a leading run and to the rest separately |
| Rules.OrderedAfterAvoiding | datetime.go:192-204 | a sufficient condition for that ordering: earlier output and the replacements avoid the letters of the multi-letter targets |
| Rules.ApplyUntouched | datetime.go:192-204 | rules whose letters do not occur leave the pattern unchanged |
| Datetime.ReplaceIfContains | datetime.go:208-209 | the guarded replacement equals the unguarded `strings.Replace` |
| Datetime.ReplaceFormatYear | datetime.go:206-215 | the year pass is yyyy→2006 then yy→06; no "yy" survives it; a pattern without y is unchanged |
| Datetime.ReplaceFormatMonth | datetime.go:217-232 | MMMM, MMM, MM, M in that order; no M survives it; a pattern without M is unchanged |
| Datetime.ReplaceFormatDay | datetime.go:234-243 | dd then d; no d survives it; a pattern without d is unchanged |
| Datetime.ReplaceFormatHour | datetime.go:256-265 | HH→15 then hh→03; no "HH" or "hh" survives it; a pattern without H or h is unchanged |
| Datetime.ReplaceFormatMinute | datetime.go:267-276 | mm then m; no m survives it; a pattern without m is unchanged |
| Datetime.ReplaceFormatSecond | datetime.go:278-296 | ss, s, then S runs of nine, six and three to zeros; no s and no "SSS" survives it; a pattern without s and S is unchanged |
| Datetime.ReplaceFormatAmPm | datetime.go:298-307 | every a becomes PM; no a survives it; a pattern without a is unchanged |
| Datetime.ReplaceFormatZone | datetime.go:309-318 | z→GMT then Z→-0700; neither survives it; a pattern without them is unchanged |
| Datetime.ReplaceFormatWeekday | datetime.go:245-254 | E→Monday then e→Mon, as the last pass, so neither name is rewritten again; a pattern without E and e is unchanged |
| Datetime.ReplaceFormat | datetime.go:192-204 | the nine passes in their order are the whole rule table applied in order; a pattern with none of the letters yMdHhmsSazZEe passes through unchanged |
| Datetime.ReplaceCommonEra | datetime.go:173-190 | with the token present, every occurrence becomes the BC text for a negative year and the AD text otherwise, and the year becomes its magnitude; the other fields are kept; without the token, pattern and instant are unchanged |
| Datetime.ResolveEra | datetime.go:165-167 | after both era passes no G remains; the year is the magnitude of the old year exactly when the pattern held a G; otherwise pattern and instant are unchanged |
| Datetime.LoneEraToken | datetime.go:166-167 | a pattern with single G tokens only: each becomes BC or AD by the sign of the year |
| Datetime.LeftoverEraIsAD | datetime.go:166-167 | with a "GG" present, any G left by the first pass reads AD whatever the era |
| Datetime.EraTextsIntact | datetime.go:166-169 | "B.C.", "A.D.", "BC" and "AD" pass through `replaceFormat` unchanged |
| RunTranslation.RunTextCorrect | datetime.go:192-318 | `replaceFormat` of a run of any letter is the table text for that run |
| RunTranslation.ReplaceFormatByRuns | datetime.go:192-204 | `replaceFormat` equals the run-by-run reference translation on every pattern |
| RunTranslation.YearRun | datetime.go:206-215 | a y run becomes 2006 per four letters, then "", "y", "06" or "06y" for the rest |
| RunTranslation.MonthRun | datetime.go:217-232 | an M run, after the month pass and the AM/PM pass, becomes JPMnuPMry per four letters, then "", "1", "01" or "JPMn" |
| RunTranslation.DayRun | datetime.go:234-243 | a d run becomes 02 per pair, then 2 for an odd leftover |
| RunTranslation.Hour24Run | datetime.go:256-259 | an H run becomes 15 per pair, with an odd leftover H kept |
| RunTranslation.Hour12Run | datetime.go:261-262 | an h run becomes 03 per pair, with an odd leftover h kept |
| RunTranslation.MinuteRun | datetime.go:267-276 | an m run becomes 04 per pair, then 4 for an odd leftover |
| RunTranslation.SecondRun | datetime.go:280-285 | an s run becomes 05 per pair, then 5 for an odd leftover |
| RunTranslation.FractionRun | datetime.go:286-294 | an S run becomes 000 per three letters, with one or two leftover S kept |
| RunTranslation.AmPmRun | datetime.go:298-302 | an a run becomes PM per letter |
| RunTranslation.ZoneNameRun | datetime.go:311-312 | a z run becomes GMT per letter |
| RunTranslation.ZoneOffsetRun | datetime.go:314-315 | a Z run becomes -0700 per letter |
| RunTranslation.WeekdayLongRun | datetime.go:247-248 | an E run becomes Monday per letter, with no later pass touching it |
| RunTranslation.WeekdayShortRun | datetime.go:250-251 | an e run becomes Mon per letter |
| RunTranslation.OtherRun | datetime.go:192-204 | a run of any other letter is unchanged |
| RunTranslation.FormatRulesOrdered | datetime.go:194-202 | the table's order never joins the output of one rule to a later multi-letter target |
| RunTranslation.DateTokens | datetime_test.go:31-36 | yyyy→2006, yy→06, a lone y kept, MM→01, M→1, dd→02, d→2 |
| RunTranslation.ClockTokens | datetime_test.go:39-44 | HH→15, hh→03, a lone H or h kept, mm→04, m→4, ss→05, s→5 |
| RunTranslation.FractionTokens | datetime.go:286-294 | SSS, SSSSSS and SSSSSSSSS become three, six and nine zeros |
| RunTranslation.MarkerTokens | datetime_test.go:37-45 | a→PM, z→GMT, Z→-0700, E→Monday, e→Mon |
| RunTranslation.MonthNamesAsWritten | datetime.go:219-224 | as written, MMM becomes "JPMn" and MMMM becomes "JPMnuPMry" |
| RunTranslation.IntendedMonthTokens | datetime.go:219-229 | with the intended table, M, MM, MMM, MMMM become 1, 01, Jan, January |
| RunTranslation.TranslateIntendedAgrees | datetime.go:217-232 | the as-written and the intended translations agree exactly when the pattern holds no "MMM"; otherwise the as-written layout is strictly longer |
| RunTranslation.IntendedOnlyChangesMonths | datetime.go:217-232 | a pattern without M translates the same under both tables |
| Formatting.Format | datetime.go:161-169 | the layout is the era-resolved pattern translated run by run; the instant differs at most in the year, which becomes its magnitude exactly when the pattern holds a G |
| Formatting.FormatIntended | datetime.go:161-169 | the corrected `Format` keeps the same instant, and equals `Format` whenever the era-resolved pattern holds no "MMM", in particular without any M |
| Formatting.EraKeepsLetter | datetime.go:166-167 | the era passes add or remove no letter other than G and those of the era texts |
| Formatting.SingleRunPattern | datetime_test.go:31-45 | a pattern that is one run of a letter other than G gives its table text and the unchanged instant |
| Formatting.EraAndYear | datetime_test.go:59-63 | "G yyyy" and "GG yyyy" give the era text for the year's sign, then " 2006", with the year made non-negative (year -1000: "BC 2006" / "B.C. 2006" with year 1000) |
| Formatting.EraAlone | datetime_test.go:29-30 | "G" and "GG" alone give the era text, with the year made non-negative |
| Formatting.UnsignedYearKeepsSign | datetime_test.go:65-68 | "yyyy" at year -1000 gives layout "2006" with the year left negative |
| Formatting.TripleEraToken | datetime.go:166-167 | "GGG" in a negative year gives "B.C.AD" and the year's magnitude |
| Instants.Millisecond | datetime.go:85-87 | the millisecond is in [0, 999] and brackets the nanosecond field |
| Instants.Microsecond | datetime.go:91-93 | the microsecond is in [0, 999999] and brackets the nanosecond field |
| Instants.MillisecondOfMicrosecond | datetime.go:83-93 | the millisecond is the microsecond with its last three digits dropped |

## Left out

- `Now`, `Today` and `New`: the clock, and `time.Date`'s normalisation of out-of-range fields. An instant is given directly, with fields already in Go's ranges.
- `time.Location`: carried as an opaque name and never inspected.
- The last step of `Format`, `t.Format(layout)`. Go's rendering is not part of this model, so the model stops at the layout and the adjusted instant. Rendering questions stay open: "GMT" and "Mon"/"Monday" are literal text or reference tokens only as Go's layout parser decides, and "000" without a preceding '.' is not a fractional-second token in Go.
- The float detour `int(math.Abs(float64(year)))` is modelled as integer magnitude (`Instants.Abs`). The two agree for every year a `time.Time` can hold.
- `String`, `GetTime`, `Timestamp`, `Year`, `Month`, `Day`, `Hour`, `Minute`, `Second`, `Nanosecond`: plain delegation to `time.Time`, outside this model.
- The commented-out "pm" branch of `replaceFormatAMPM` (datetime.go:303-305) is dead code.
- The tokens of the Java-style comment table (datetime.go:106-129) that no pass handles (Y, L, w, W, D, F, u, k, K, X) are left as they are, and so is every other letter (`RunTranslation.OtherRun`).
- Strings are sequences of characters rather than UTF-8 bytes. Every pattern letter and replacement is ASCII, so the two views agree for the replacement logic.

## Findings

| source | as written | input that shows it | evidently intended | confidence | as-written member | corrected member |
|---|---|---|---|---|---|---|
| datetime.go:219-224 with 300-301 | the month pass writes "January" and "Jan", then the AM/PM pass rewrites their "a", giving "JPMnuPMry" and "JPMn" | pattern "MMM" (or "MMMM") | layouts "Jan" and "January", Go's abbreviated and full month | high; not executed | RunTranslation.MonthNamesAsWritten | RunTranslation.IntendedMonthTokens |

The corrected translation is `RunTranslation.TranslateIntended`, used by
`Formatting.FormatIntended`. `RunTranslation.TranslateIntendedAgrees`
proves that it differs from the as-written one exactly on patterns that
hold "MMM".
