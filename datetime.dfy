/**
 * `Datetime.Format` up to the point where it hands a Go reference layout and
 * an instant to `time.Format`: the two era passes, then the nine passes of
 * `replaceFormat`, each a fixed chain of guarded `strings.Replace` calls.
 */
module Datetime {
  import opened GoStrings
  import opened Instants
  import opened Rules

  /** `if strings.Contains(s, target) { s = strings.Replace(s, target, replacement, -1) }` */
  function ReplaceIfContains(s: string, target: string, replacement: string): (r: string)
    requires target != []
    ensures r == ReplaceAll(s, target, replacement)
  {
    if Contains(s, target) then ReplaceAll(s, target, replacement)
    else
      ReplaceAllWithoutOccurrence(s, target, replacement);
      s
  }

  // The replacement table of `replaceFormat`, one list per letter, in the order the passes apply them.
  const YearRules: RuleTable := [Rule("yyyy", "2006"), Rule("yy", "06")]
  const MonthRules: RuleTable := [Rule("MMMM", "January"), Rule("MMM", "Jan"), Rule("MM", "01"), Rule("M", "1")]
  const DayRules: RuleTable := [Rule("dd", "02"), Rule("d", "2")]
  const Hour24Rules: RuleTable := [Rule("HH", "15")]
  const Hour12Rules: RuleTable := [Rule("hh", "03")]
  const MinuteRules: RuleTable := [Rule("mm", "04"), Rule("m", "4")]
  const SecondRules: RuleTable := [Rule("ss", "05"), Rule("s", "5")]
  const FractionRules: RuleTable := [Rule("SSSSSSSSS", "000000000"), Rule("SSSSSS", "000000"), Rule("SSS", "000")]
  const AmPmRules: RuleTable := [Rule("a", "PM")]
  const ZoneNameRules: RuleTable := [Rule("z", "GMT")]
  const ZoneOffsetRules: RuleTable := [Rule("Z", "-0700")]
  const WeekdayLongRules: RuleTable := [Rule("E", "Monday")]
  const WeekdayShortRules: RuleTable := [Rule("e", "Mon")]

  // The passes that handle two letters.
  const HourRules: RuleTable := Hour24Rules + Hour12Rules
  const SecondPassRules: RuleTable := SecondRules + FractionRules
  const ZoneRules: RuleTable := ZoneNameRules + ZoneOffsetRules
  const WeekdayRules: RuleTable := WeekdayLongRules + WeekdayShortRules

  /** The whole table, in the order `replaceFormat` applies it. */
  const FormatRules: RuleTable :=
    YearRules + MonthRules + DayRules + HourRules + MinuteRules + SecondPassRules + AmPmRules + ZoneRules + WeekdayRules

  /** `replaceFormatYear`: yyyy before yy, so no "yy" is left (a lone y is). */
  function ReplaceFormatYear(f: string): (r: string)
    ensures r == Apply(YearRules, f)
    ensures !Contains(r, "yy")
    ensures 'y' !in f ==> r == f
  {
    ApplyUntouched(YearRules, f);
    var f1 := ReplaceIfContains(f, "yyyy", "2006");
    assert "yy" == Rep('y', 2);
    ReplaceAllLeavesNoRun(f1, 'y', 2, "06");
    ApplyTwo(YearRules[0], YearRules[1], f);
    ApplyOne(YearRules[1], f1);
    ReplaceIfContains(f1, "yy", "06")
  }

  /** `replaceFormatMonth`: MMMM, MMM, MM, then M, so no M is left. */
  function ReplaceFormatMonth(f: string): (r: string)
    ensures r == Apply(MonthRules, f)
    ensures 'M' !in r
    ensures 'M' !in f ==> r == f
  {
    ApplyUntouched(MonthRules, f);
    var f1 := ReplaceIfContains(f, "MMMM", "January");
    var f2 := ReplaceIfContains(f1, "MMM", "Jan");
    var f3 := ReplaceIfContains(f2, "MM", "01");
    ReplaceCharRemoves(f3, 'M', "1");
    ApplyFour(MonthRules[0], MonthRules[1], MonthRules[2], MonthRules[3], f);
    ApplyThree(MonthRules[1], MonthRules[2], MonthRules[3], f1);
    ApplyTwo(MonthRules[2], MonthRules[3], f2);
    ApplyOne(MonthRules[3], f3);
    ReplaceIfContains(f3, "M", "1")
  }

  /** `replaceFormatDay`: dd before d, so no d is left. */
  function ReplaceFormatDay(f: string): (r: string)
    ensures r == Apply(DayRules, f)
    ensures 'd' !in r
    ensures 'd' !in f ==> r == f
  {
    ApplyUntouched(DayRules, f);
    var f1 := ReplaceIfContains(f, "dd", "02");
    ReplaceCharRemoves(f1, 'd', "2");
    ApplyTwo(DayRules[0], DayRules[1], f);
    ApplyOne(DayRules[1], f1);
    ReplaceIfContains(f1, "d", "2")
  }

  /** `replaceFormatHour`: HH and hh; a single H or h is left alone. */
  function ReplaceFormatHour(f: string): (r: string)
    ensures r == Apply(HourRules, f)
    ensures !Contains(r, "HH") && !Contains(r, "hh")
    ensures 'H' !in f && 'h' !in f ==> r == f
  {
    ApplyUntouched(HourRules, f);
    var f1 := ReplaceIfContains(f, "HH", "15");
    assert "HH" == Rep('H', 2);
    ReplaceAllLeavesNoRun(f, 'H', 2, "15");
    NoPair(f1, 'H');
    ReplaceAllKeepsPairFree(f1, "hh", "03", 'H');
    NoPair(ReplaceAll(f1, "hh", "03"), 'H');
    assert "hh" == Rep('h', 2);
    ReplaceAllLeavesNoRun(f1, 'h', 2, "03");
    ApplyConcat(Hour24Rules, Hour12Rules, f);
    ApplyOne(Hour24Rules[0], f);
    ApplyOne(Hour12Rules[0], f1);
    ReplaceIfContains(f1, "hh", "03")
  }

  /** `replaceFormatMinute`: mm before m, so no m is left. */
  function ReplaceFormatMinute(f: string): (r: string)
    ensures r == Apply(MinuteRules, f)
    ensures 'm' !in r
    ensures 'm' !in f ==> r == f
  {
    ApplyUntouched(MinuteRules, f);
    var f1 := ReplaceIfContains(f, "mm", "04");
    ReplaceCharRemoves(f1, 'm', "4");
    ApplyTwo(MinuteRules[0], MinuteRules[1], f);
    ApplyOne(MinuteRules[1], f1);
    ReplaceIfContains(f1, "m", "4")
  }

  /**
   * `replaceFormatSecond`: ss before s, then runs of nine, six and three S;
   * no s and no "SSS" is left.
   */
  function ReplaceFormatSecond(f: string): (r: string)
    ensures r == Apply(SecondPassRules, f)
    ensures 's' !in r
    ensures !Contains(r, "SSS")
    ensures 's' !in f && 'S' !in f ==> r == f
  {
    SecondPassSteps(f);
    SecondPassLeaves(f);
    SecondPassUntouched(f);
    ReplaceIfContains(ReplaceIfContains(ReplaceIfContains(ReplaceIfContains(ReplaceIfContains(f,
      "ss", "05"), "s", "5"), "SSSSSSSSS", "000000000"), "SSSSSS", "000000"), "SSS", "000")
  }

  /** A pattern without s and S goes through the second pass unchanged. */
  lemma SecondPassUntouched(f: string)
    ensures 's' !in f && 'S' !in f ==>
      ReplaceAll(ReplaceAll(ReplaceAll(ReplaceAll(ReplaceAll(f, "ss", "05"), "s", "5"),
        "SSSSSSSSS", "000000000"), "SSSSSS", "000000"), "SSS", "000") == f
  {
    if 's' !in f && 'S' !in f {
      Untouched(f, "ss", "05");
      Untouched(f, "s", "5");
      Untouched(f, "SSSSSSSSS", "000000000");
      Untouched(f, "SSSSSS", "000000");
      Untouched(f, "SSS", "000");
    }
  }

  /** A target whose first letter is absent leaves the pattern as it is. */
  lemma Untouched(f: string, target: string, replacement: string)
    requires target != [] && target[0] !in f
    ensures ReplaceAll(f, target, replacement) == f
  {
    NotContainsWithoutFirst(f, target);
    ReplaceAllWithoutOccurrence(f, target, replacement);
  }

  /** After the second pass no s and no run of three S is left. */
  lemma SecondPassLeaves(f: string)
    ensures var r := ReplaceAll(ReplaceAll(ReplaceAll(ReplaceAll(ReplaceAll(f, "ss", "05"), "s", "5"),
      "SSSSSSSSS", "000000000"), "SSSSSS", "000000"), "SSS", "000");
      's' !in r && !Contains(r, "SSS")
  {
    var f1 := ReplaceAll(f, "ss", "05");
    var f4 := ReplaceAll(ReplaceAll(ReplaceAll(f1, "s", "5"), "SSSSSSSSS", "000000000"), "SSSSSS", "000000");
    ReplaceCharRemoves(f1, 's', "5");
    assert "SSS" == Rep('S', 3);
    ReplaceAllLeavesNoRun(f4, 'S', 3, "000");
  }

  /** The second pass is its five replacements one after the other. */
  lemma SecondPassSteps(f: string)
    ensures Apply(SecondPassRules, f) ==
      ReplaceAll(ReplaceAll(ReplaceAll(ReplaceAll(ReplaceAll(f, "ss", "05"), "s", "5"),
        "SSSSSSSSS", "000000000"), "SSSSSS", "000000"), "SSS", "000")
  {
    var f1 := ReplaceAll(f, "ss", "05");
    var f2 := ReplaceAll(f1, "s", "5");
    var f3 := ReplaceAll(f2, "SSSSSSSSS", "000000000");
    var f4 := ReplaceAll(f3, "SSSSSS", "000000");
    ApplyConcat(SecondRules, FractionRules, f);
    ApplyTwo(SecondRules[0], SecondRules[1], f);
    ApplyOne(SecondRules[1], f1);
    ApplyThree(FractionRules[0], FractionRules[1], FractionRules[2], f2);
    ApplyTwo(FractionRules[1], FractionRules[2], f3);
    ApplyOne(FractionRules[2], f4);
  }

  /** `replaceFormatAMPM`: every a becomes the upper-case marker PM. */
  function ReplaceFormatAmPm(f: string): (r: string)
    ensures r == Apply(AmPmRules, f)
    ensures 'a' !in r
    ensures 'a' !in f ==> r == f
  {
    ApplyUntouched(AmPmRules, f);
    ReplaceCharRemoves(f, 'a', "PM");
    ApplyOne(AmPmRules[0], f);
    ReplaceIfContains(f, "a", "PM")
  }

  /** `replaceFormatTZ`: z becomes the zone name GMT, then Z the offset -0700. */
  function ReplaceFormatZone(f: string): (r: string)
    ensures r == Apply(ZoneRules, f)
    ensures 'z' !in r && 'Z' !in r
    ensures 'z' !in f && 'Z' !in f ==> r == f
  {
    ApplyUntouched(ZoneRules, f);
    var f1 := ReplaceIfContains(f, "z", "GMT");
    ReplaceCharRemoves(f, 'z', "GMT");
    ReplaceCharRemoves(f1, 'Z', "-0700");
    ApplyConcat(ZoneNameRules, ZoneOffsetRules, f);
    ApplyOne(ZoneNameRules[0], f);
    ApplyOne(ZoneOffsetRules[0], f1);
    ReplaceIfContains(f1, "Z", "-0700")
  }

  /** `replaceFormatWeekday`: E becomes Monday, then e becomes Mon. */
  function ReplaceFormatWeekday(f: string): (r: string)
    ensures r == Apply(WeekdayRules, f)
    ensures 'E' !in r && 'e' !in r
    ensures 'E' !in f && 'e' !in f ==> r == f
  {
    ApplyUntouched(WeekdayRules, f);
    var f1 := ReplaceIfContains(f, "E", "Monday");
    ReplaceCharRemoves(f, 'E', "Monday");
    ReplaceCharRemoves(f1, 'e', "Mon");
    ApplyConcat(WeekdayLongRules, WeekdayShortRules, f);
    ApplyOne(WeekdayLongRules[0], f);
    ApplyOne(WeekdayShortRules[0], f1);
    ReplaceIfContains(f1, "e", "Mon")
  }

  /** The letters some pass of `replaceFormat` rewrites. */
  const FormatLetters: string := "yMdHhmsSazZEe"

  /** `replaceFormat`: the nine passes in their fixed order, which is the whole table applied in order. */
  function ReplaceFormat(f: string): (r: string)
    ensures r == Apply(FormatRules, f)
    ensures (forall i :: 0 <= i < |f| ==> f[i] !in FormatLetters) ==> r == f
  {
    PassesFollowTable(f);
    PassesKeepInert(f);
    ReplaceFormatWeekday(ReplaceFormatZone(ReplaceFormatAmPm(ReplaceFormatSecond(ReplaceFormatMinute(
      ReplaceFormatHour(ReplaceFormatDay(ReplaceFormatMonth(ReplaceFormatYear(f)))))))))
  }

  /** The nine passes one after the other are the whole table applied in order. */
  lemma PassesFollowTable(f: string)
    ensures ReplaceFormatWeekday(ReplaceFormatZone(ReplaceFormatAmPm(ReplaceFormatSecond(ReplaceFormatMinute(
      ReplaceFormatHour(ReplaceFormatDay(ReplaceFormatMonth(ReplaceFormatYear(f))))))))) == Apply(FormatRules, f)
  {
    FormatRulesInOrder(f);
  }

  /** A pattern without format letters goes through all nine passes unchanged. */
  lemma PassesKeepInert(f: string)
    ensures (forall i :: 0 <= i < |f| ==> f[i] !in FormatLetters) ==>
      ReplaceFormatWeekday(ReplaceFormatZone(ReplaceFormatAmPm(ReplaceFormatSecond(ReplaceFormatMinute(
      ReplaceFormatHour(ReplaceFormatDay(ReplaceFormatMonth(ReplaceFormatYear(f))))))))) == f
  {
    if forall i :: 0 <= i < |f| ==> f[i] !in FormatLetters {
      LettersAbsent(f);
    }
  }

  lemma LettersAbsent(f: string)
    requires forall i :: 0 <= i < |f| ==> f[i] !in FormatLetters
    ensures 'y' !in f && 'M' !in f && 'd' !in f && 'H' !in f && 'h' !in f && 'm' !in f && 's' !in f
    ensures 'S' !in f && 'a' !in f && 'z' !in f && 'Z' !in f && 'E' !in f && 'e' !in f
  {
  }

  lemma FormatRulesInOrder(f: string)
    ensures Apply(FormatRules, f) ==
      Apply(WeekdayRules, Apply(ZoneRules, Apply(AmPmRules, Apply(SecondPassRules, Apply(MinuteRules,
      Apply(HourRules, Apply(DayRules, Apply(MonthRules, Apply(YearRules, f)))))))))
  {
    var p1 := YearRules;
    var p2 := p1 + MonthRules;
    var p3 := p2 + DayRules;
    var p4 := p3 + HourRules;
    var p5 := p4 + MinuteRules;
    var p6 := p5 + SecondPassRules;
    var p7 := p6 + AmPmRules;
    var p8 := p7 + ZoneRules;
    ApplyConcat(p1, MonthRules, f);
    ApplyConcat(p2, DayRules, f);
    ApplyConcat(p3, HourRules, f);
    ApplyConcat(p4, MinuteRules, f);
    ApplyConcat(p5, SecondPassRules, f);
    ApplyConcat(p6, AmPmRules, f);
    ApplyConcat(p7, ZoneRules, f);
    ApplyConcat(p8, WeekdayRules, f);
  }

  /**
   * `replaceCommonEra`: if the pattern holds the era token, every occurrence
   * becomes the BC text for a negative year and the AD text otherwise (year 0
   * counts as AD), and the instant's year is replaced by its magnitude; the
   * other fields are kept. Without the token nothing changes.
   */
  function ReplaceCommonEra(f: string, t: Instant, token: string, bc: string, ad: string): (r: (string, Instant))
    requires token != []
    ensures r.1 == t.(year := r.1.year)
    ensures Contains(f, token) ==> r.1.year >= 0 && (r.1.year == t.year || r.1.year == -t.year)
    ensures Contains(f, token) ==> r.0 == ReplaceAll(f, token, if t.year < 0 then bc else ad)
    ensures !Contains(f, token) ==> r == (f, t)
  {
    if Contains(f, token) then
      var text := if t.year < 0 then bc else ad;
      (ReplaceAll(f, token, text), t.(year := Abs(t.year)))
    else (f, t)
  }

  /**
   * The two era passes of `Format`: "GG" with the dotted texts, then "G" with
   * the plain ones. No G is left, and the year is made non-negative exactly
   * when the pattern held a G.
   */
  function ResolveEra(f: string, t: Instant): (r: (string, Instant))
    ensures 'G' !in r.0
    ensures r.1 == t.(year := r.1.year)
    ensures 'G' in f ==> r.1.year == Abs(t.year)
    ensures 'G' !in f ==> r == (f, t)
  {
    var (f1, t1) := ReplaceCommonEra(f, t, "GG", "B.C.", "A.D.");
    ContainsChar(f, 'G');
    ContainsChar(f1, 'G');
    if Contains(f, "GG") then
      ContainsFirst(f, "GG");
      ReplaceCharRemoves(f1, 'G', "AD");
      ReplaceCommonEra(f1, t1, "G", "BC", "AD")
    else
      ReplaceCharRemoves(f1, 'G', if t1.year < 0 then "BC" else "AD");
      ReplaceCommonEra(f1, t1, "G", "BC", "AD")
  }

  /** A pattern with single G tokens only: each becomes BC or AD by the sign of the year. */
  lemma LoneEraToken(f: string, t: Instant)
    requires Contains(f, "G") && !Contains(f, "GG")
    ensures ResolveEra(f, t).0 == ReplaceAll(f, "G", if t.year < 0 then "BC" else "AD")
    ensures ResolveEra(f, t).1 == t.(year := Abs(t.year))
  {
  }

  /**
   * After a "GG" pass the year is no longer negative, so a single G left by
   * it (as in "GGG") always becomes AD, whatever the era.
   */
  lemma LeftoverEraIsAD(f: string, t: Instant)
    requires Contains(f, "GG")
    ensures ResolveEra(f, t).0 == ReplaceAll(ReplaceAll(f, "GG", if t.year < 0 then "B.C." else "A.D."), "G", "AD")
    ensures ResolveEra(f, t).1 == t.(year := Abs(t.year))
  {
    var f1 := ReplaceAll(f, "GG", if t.year < 0 then "B.C." else "A.D.");
    if !Contains(f1, "G") {
      ReplaceAllWithoutOccurrence(f1, "G", "AD");
    }
  }

  /** The era texts hold no letter the passes rewrite, so they reach the Go layout intact. */
  lemma EraTextsIntact()
    ensures ReplaceFormat("B.C.") == "B.C." && ReplaceFormat("A.D.") == "A.D."
    ensures ReplaceFormat("BC") == "BC" && ReplaceFormat("AD") == "AD"
  {
    var texts := ["B.C.", "A.D.", "BC", "AD"];
    assert forall j, i :: 0 <= j < 4 && 0 <= i < |texts[j]| ==> texts[j][i] !in FormatLetters;
    assert ReplaceFormat(texts[0]) == texts[0];
    assert ReplaceFormat(texts[1]) == texts[1];
    assert ReplaceFormat(texts[2]) == texts[2];
    assert ReplaceFormat(texts[3]) == texts[3];
  }
}
