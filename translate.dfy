/**
 * An independent description of what `replaceFormat` does: a pattern is cut
 * into maximal runs of one character, and each run is translated on its own
 * by a fixed table. The main theorem says the nine passes of guarded
 * replacements compute exactly this translation, for every pattern.
 */
module RunTranslation {
  import opened GoStrings
  import opened Rules
  import opened Datetime

  /**
   * The text a run of `k` copies of `c` becomes. Every run is cut greedily
   * into the longest tokens of its letter; month names come out with their
   * `a` turned into `PM` by the later AM/PM pass.
   */
  function RunText(c: char, k: nat): string
  {
    if c == 'y' then Repeat("2006", k / 4) + ["", "y", "06", "06y"][k % 4]
    else if c == 'M' then Repeat("JPMnuPMry", k / 4) + ["", "1", "01", "JPMn"][k % 4]
    else if c == 'd' then Repeat("02", k / 2) + ["", "2"][k % 2]
    else if c == 'H' then Repeat("15", k / 2) + ["", "H"][k % 2]
    else if c == 'h' then Repeat("03", k / 2) + ["", "h"][k % 2]
    else if c == 'm' then Repeat("04", k / 2) + ["", "4"][k % 2]
    else if c == 's' then Repeat("05", k / 2) + ["", "5"][k % 2]
    else if c == 'S' then Repeat("000", k / 3) + ["", "S", "SS"][k % 3]
    else if c == 'a' then Repeat("PM", k)
    else if c == 'z' then Repeat("GMT", k)
    else if c == 'Z' then Repeat("-0700", k)
    else if c == 'E' then Repeat("Monday", k)
    else if c == 'e' then Repeat("Mon", k)
    else Rep(c, k)
  }

  /** The pattern translated run by run. */
  function Translate(p: string): string
    decreases |p|
  {
    if p == [] then []
    else
      var n := LeadRun(p, p[0]);
      RunText(p[0], n) + Translate(p[n..])
  }

  // The passes of `replaceFormat` from a given one onward.
  function FromMonth(g: string): string { FromDay(ReplaceFormatMonth(g)) }
  function FromDay(g: string): string { FromHour(ReplaceFormatDay(g)) }
  function FromHour(g: string): string { FromMinute(ReplaceFormatHour(g)) }
  function FromMinute(g: string): string { FromSecond(ReplaceFormatMinute(g)) }
  function FromSecond(g: string): string { FromAmPm(ReplaceFormatSecond(g)) }
  function FromAmPm(g: string): string { FromZone(ReplaceFormatAmPm(g)) }
  function FromZone(g: string): string { ReplaceFormatWeekday(ReplaceFormatZone(g)) }

  lemma Stages(f: string)
    ensures ReplaceFormat(f) == FromMonth(ReplaceFormatYear(f))
  {
  }

  // Text without the letters of the remaining passes comes through them unchanged.

  lemma KeepFromZone(g: string)
    requires 'z' !in g && 'Z' !in g && 'E' !in g && 'e' !in g
    ensures FromZone(g) == g
  {
  }

  lemma KeepFromAmPm(g: string)
    requires 'a' !in g && 'z' !in g && 'Z' !in g && 'E' !in g && 'e' !in g
    ensures FromAmPm(g) == g
  {
    assert ReplaceFormatAmPm(g) == g;
    KeepFromZone(g);
  }

  lemma KeepFromSecond(g: string)
    requires 's' !in g && 'S' !in g && 'a' !in g && 'z' !in g && 'Z' !in g && 'E' !in g && 'e' !in g
    ensures FromSecond(g) == g
  {
    assert ReplaceFormatSecond(g) == g;
    KeepFromAmPm(g);
  }

  lemma KeepFromMinute(g: string)
    requires 'm' !in g && 's' !in g && 'S' !in g && 'a' !in g && 'z' !in g && 'Z' !in g && 'E' !in g && 'e' !in g
    ensures FromMinute(g) == g
  {
    assert ReplaceFormatMinute(g) == g;
    KeepFromSecond(g);
  }

  lemma KeepFromHour(g: string)
    requires 'H' !in g && 'h' !in g && 'm' !in g && 's' !in g && 'S' !in g && 'a' !in g && 'z' !in g && 'Z' !in g && 'E' !in g && 'e' !in g
    ensures FromHour(g) == g
  {
    assert ReplaceFormatHour(g) == g;
    KeepFromMinute(g);
  }

  lemma KeepFromDay(g: string)
    requires 'd' !in g && 'H' !in g && 'h' !in g && 'm' !in g && 's' !in g && 'S' !in g && 'a' !in g && 'z' !in g && 'Z' !in g && 'E' !in g && 'e' !in g
    ensures FromDay(g) == g
  {
    assert ReplaceFormatDay(g) == g;
    KeepFromHour(g);
  }

  lemma KeepFromMonth(g: string)
    requires 'M' !in g && 'd' !in g && 'H' !in g && 'h' !in g && 'm' !in g && 's' !in g && 'S' !in g && 'a' !in g && 'z' !in g && 'Z' !in g && 'E' !in g && 'e' !in g
    ensures FromMonth(g) == g
  {
    assert ReplaceFormatMonth(g) == g;
    KeepFromDay(g);
  }

  // A pattern without the letters of the first passes reaches a later pass unchanged.

  lemma ReachDay(f: string)
    requires 'y' !in f && 'M' !in f
    ensures ReplaceFormat(f) == FromDay(f)
  {
    Stages(f);
    assert ReplaceFormatYear(f) == f;
    assert ReplaceFormatMonth(f) == f;
  }

  lemma ReachHour(f: string)
    requires 'y' !in f && 'M' !in f && 'd' !in f
    ensures ReplaceFormat(f) == FromHour(f)
  {
    ReachDay(f);
    assert ReplaceFormatDay(f) == f;
  }

  lemma ReachMinute(f: string)
    requires 'y' !in f && 'M' !in f && 'd' !in f && 'H' !in f && 'h' !in f
    ensures ReplaceFormat(f) == FromMinute(f)
  {
    ReachHour(f);
    assert ReplaceFormatHour(f) == f;
  }

  lemma ReachSecond(f: string)
    requires 'y' !in f && 'M' !in f && 'd' !in f && 'H' !in f && 'h' !in f && 'm' !in f
    ensures ReplaceFormat(f) == FromSecond(f)
  {
    ReachMinute(f);
    assert ReplaceFormatMinute(f) == f;
  }

  lemma ReachAmPm(f: string)
    requires 'y' !in f && 'M' !in f && 'd' !in f && 'H' !in f && 'h' !in f && 'm' !in f && 's' !in f && 'S' !in f
    ensures ReplaceFormat(f) == FromAmPm(f)
  {
    ReachSecond(f);
    assert ReplaceFormatSecond(f) == f;
  }

  lemma ReachZone(f: string)
    requires 'y' !in f && 'M' !in f && 'd' !in f && 'H' !in f && 'h' !in f && 'm' !in f && 's' !in f && 'S' !in f && 'a' !in f
    ensures ReplaceFormat(f) == FromZone(f)
  {
    ReachAmPm(f);
    assert ReplaceFormatAmPm(f) == f;
  }

  lemma ReachWeekday(f: string)
    requires 'y' !in f && 'M' !in f && 'd' !in f && 'H' !in f && 'h' !in f && 'm' !in f && 's' !in f && 'S' !in f && 'a' !in f && 'z' !in f && 'Z' !in f
    ensures ReplaceFormat(f) == ReplaceFormatWeekday(f)
  {
    ReachZone(f);
    assert ReplaceFormatZone(f) == f;
  }

  // The layouts of the single tokens: Go's reference values, the S runs in
  // zeros, and a lone H, h or y kept as a literal letter.

  lemma DateTokens()
    ensures RunText('y', 4) == "2006" && RunText('y', 2) == "06" && RunText('y', 1) == "y"
    ensures RunText('M', 2) == "01" && RunText('M', 1) == "1"
    ensures RunText('d', 2) == "02" && RunText('d', 1) == "2"
  {
    assert Repeat("2006", 1) == "2006";
    assert Repeat("02", 1) == "02";
  }

  lemma ClockTokens()
    ensures RunText('H', 2) == "15" && RunText('h', 2) == "03" && RunText('H', 1) == "H" && RunText('h', 1) == "h"
    ensures RunText('m', 2) == "04" && RunText('m', 1) == "4"
    ensures RunText('s', 2) == "05" && RunText('s', 1) == "5"
  {
    assert Repeat("15", 1) == "15" && Repeat("03", 1) == "03";
    assert Repeat("04", 1) == "04" && Repeat("05", 1) == "05";
  }

  lemma FractionTokens()
    ensures RunText('S', 3) == "000" && RunText('S', 6) == "000000" && RunText('S', 9) == "000000000"
  {
    assert Repeat("000", 1) == "000";
    assert Repeat("000", 2) == "000000";
    assert Repeat("000", 3) == "000000000";
  }

  lemma MarkerTokens()
    ensures RunText('a', 1) == "PM" && RunText('z', 1) == "GMT" && RunText('Z', 1) == "-0700"
    ensures RunText('E', 1) == "Monday" && RunText('e', 1) == "Mon"
  {
  }

  /** A run followed by the end or another character is translated on its own. */
  lemma TranslateRun(c: char, n: nat, b: string)
    requires 0 < n
    requires b == [] || b[0] != c
    ensures Translate(Rep(c, n) + b) == RunText(c, n) + Translate(b)
  {
    LeadRunOfRun(c, n, b);
    assert (Rep(c, n) + b)[n..] == b;
  }

  /** Text without format letters is copied, as long as its last character does not start the rest. */
  lemma {:induction false} TranslateInertPrefix(x: string, y: string)
    requires forall i :: 0 <= i < |x| ==> x[i] !in FormatLetters
    requires x == [] || y == [] || x[|x| - 1] != y[0]
    ensures Translate(x + y) == x + Translate(y)
    decreases |x|
  {
    if x != [] {
      var c := x[0];
      var n := LeadRun(x, c);
      LeadRunSplit(x, c);
      var x' := x[n..];
      InertRunText(c, n);
      if n == |x| {
        assert x == Rep(c, n);
        TranslateRun(c, n, y);
        assert Translate(x + y) == x + Translate(y);
      } else {
        assert x'[|x'| - 1] == x[|x| - 1];
        RunThenRest(x, y, c, n);
        TranslateInertPrefix(x', y);
        ConcatAssoc(Rep(c, n), x', Translate(y));
        assert Translate(x + y) == Rep(c, n) + (x' + Translate(y));
      }
    } else {
      assert x + y == y;
    }
  }

  /** The step of the induction above: a complete run at the head of `x + y`. */
  lemma RunThenRest(x: string, y: string, c: char, n: nat)
    requires 0 < n < |x| && x[..n] == Rep(c, n) && x[n] != c
    ensures Translate(x + y) == RunText(c, n) + Translate(x[n..] + y)
    ensures x == Rep(c, n) + x[n..]
  {
    assert x + y == Rep(c, n) + (x[n..] + y);
    TranslateRun(c, n, x[n..] + y);
  }


  lemma InertRunText(c: char, n: nat)
    requires c !in FormatLetters
    ensures RunText(c, n) == Rep(c, n)
  {
  }

  /** "yyyy" is the year layout, "yy" the two-digit one. */
  lemma TranslateYear()
    ensures Translate("yyyy") == "2006"
  {
    assert "yyyy" == Rep('y', 4) + [];
    TranslateRun('y', 4, []);
    assert Repeat("2006", 1) == "2006";
  }

  lemma RepOnly(c: char, k: nat)
    ensures forall ch :: ch in Rep(c, k) ==> ch == c
  {
  }

  /** The last token of a run the pass cut into pairs: nothing, or the one-letter token's text. */
  lemma PairTail(w: string, k: nat)
    ensures Repeat(w, k % 2) == ["", w][k % 2]
  {
    assert Repeat(w, 0) == [] && Repeat(w, 1) == w;
  }

  lemma RepPairTail(c: char, k: nat)
    ensures Rep(c, k % 2) == ["", [c]][k % 2]
  {
    if k % 2 == 1 {
      assert Rep(c, 1) == [c];
    }
  }

  lemma RepeatOnce(w: string, c: char, k: nat)
    ensures Repeat(w, k / 1) + Rep(c, k % 1) == Repeat(w, k)
  {
    assert Rep(c, 0) == [];
  }

  // y: the year pass cuts a run into yyyy, then yy; a lone y is left.

  lemma YearCascade(k: nat)
    ensures Cascade(YearRules, 'y', k) == Repeat("2006", k / 4) + Repeat("06", k % 4 / 2) + Rep('y', k % 4 % 2)
  {
    CascadeTwo(YearRules[0], YearRules[1], 'y', k);
    CascadeOne(YearRules[1], 'y', k % 4);
  }

  lemma YearTail(k: nat)
    ensures Repeat("06", k % 4 / 2) + Rep('y', k % 4 % 2) == ["", "y", "06", "06y"][k % 4]
  {
    var r := k % 4;
    assert Repeat("06", 0) == [] && Repeat("06", 1) == "06";
    if r == 0 {} else if r == 1 {} else if r == 2 {} else {}
  }

  lemma YearPassRun(k: nat)
    ensures Apply(YearRules, Rep('y', k)) == RunText('y', k)
  {
    ApplyToRun(YearRules, 'y', k);
    YearCascade(k);
    YearTail(k);
  }

  lemma YearRunChars(k: nat)
    ensures var o := RunText('y', k);
      'M' !in o && 'd' !in o && 'H' !in o && 'h' !in o && 'm' !in o && 's' !in o &&
      'S' !in o && 'a' !in o && 'z' !in o && 'Z' !in o && 'E' !in o && 'e' !in o
  {
    var tail := ["", "y", "06", "06y"][k % 4];
    assert forall ch :: ch in tail ==> ch in "06y";
    assert forall ch :: ch in RunText('y', k) ==> ch in "2006y";
    YearAlphabet(RunText('y', k));
  }

  lemma YearAlphabet(o: string)
    requires forall ch :: ch in o ==> ch in "2006y"
    ensures 'M' !in o && 'd' !in o && 'H' !in o && 'h' !in o && 'm' !in o && 's' !in o &&
      'S' !in o && 'a' !in o && 'z' !in o && 'Z' !in o && 'E' !in o && 'e' !in o
  {
  }

  lemma YearRun(k: nat)
    ensures ReplaceFormat(Rep('y', k)) == RunText('y', k)
  {
    var f, o := Rep('y', k), RunText('y', k);
    Stages(f);
    YearPassRun(k);
    YearRunChars(k);
    KeepFromMonth(o);
  }

  // M: the month pass cuts a run into MMMM, MMM, MM and M; the AM/PM pass then rewrites the a of the month names.

  /** What the month pass makes of a run of M. */
  function MonthPassText(k: nat): string
  {
    Repeat("January", k / 4) + ["", "1", "01", "Jan"][k % 4]
  }

  lemma MonthTail(r: nat)
    requires r < 4
    ensures Cascade(MonthRules[1..], 'M', r) == ["", "1", "01", "Jan"][r]
  {
    assert MonthRules[1..] == [MonthRules[1], MonthRules[2], MonthRules[3]];
    CascadeThree(MonthRules[1], MonthRules[2], MonthRules[3], 'M', r);
    CascadeTwo(MonthRules[2], MonthRules[3], 'M', r % 3);
    CascadeOne(MonthRules[3], 'M', r % 3 % 2);
    assert Rep('M', 0) == [];
    assert Repeat("Jan", 0) == [] && Repeat("Jan", 1) == "Jan";
    assert Repeat("01", 0) == [] && Repeat("01", 1) == "01";
    assert Repeat("1", 0) == [] && Repeat("1", 1) == "1";
  }

  lemma MonthPassRun(k: nat)
    ensures Apply(MonthRules, Rep('M', k)) == MonthPassText(k)
  {
    ApplyToRun(MonthRules, 'M', k);
    assert MonthRules == [MonthRules[0]] + MonthRules[1..];
    assert Cascade(MonthRules, 'M', k) == Repeat("January", k / 4) + Cascade(MonthRules[1..], 'M', k % 4);
    MonthTail(k % 4);
  }

  lemma MonthPassChars(k: nat)
    ensures var o := MonthPassText(k);
      'd' !in o && 'H' !in o && 'h' !in o && 'm' !in o && 's' !in o && 'S' !in o
  {
    var tail := ["", "1", "01", "Jan"][k % 4];
    assert forall ch :: ch in tail ==> ch in "01Jan";
    assert forall ch :: ch in MonthPassText(k) ==> ch in "January01";
    MonthPassAlphabet(MonthPassText(k));
  }

  lemma MonthPassAlphabet(o: string)
    requires forall ch :: ch in o ==> ch in "January01"
    ensures 'd' !in o && 'H' !in o && 'h' !in o && 'm' !in o && 's' !in o && 'S' !in o
  {
  }

  lemma MonthNamesHead(q: nat)
    ensures ReplaceAll(Repeat("January", q), "a", "PM") == Repeat("JPMnuPMry", q)
  {
    ReplaceCharRepeat("January", q, 'a', "PM");
    JanuaryRewritten();
  }

  lemma JanuaryRewritten()
    ensures ReplaceAll("January", "a", "PM") == "JPMnuPMry"
  {
    assert ReplaceAll("ry", "a", "PM") == "ry";
    assert ReplaceAll("uary", "a", "PM") == "uPMry";
    assert ReplaceAll("anuary", "a", "PM") == "PMnuPMry";
  }

  lemma MonthNamesTail(r: nat)
    requires r < 4
    ensures ReplaceAll(["", "1", "01", "Jan"][r], "a", "PM") == ["", "1", "01", "JPMn"][r]
  {
    if r == 0 {
      assert ReplaceAll([], "a", "PM") == [];
    } else if r == 1 {
      assert ReplaceAll("1", "a", "PM") == "1";
    } else if r == 2 {
      assert ReplaceAll("01", "a", "PM") == "01";
    } else {
      assert ReplaceAll("Jan", "a", "PM") == "JPMn";
    }
  }

  /** The AM/PM pass on what the month pass produced. */
  lemma MonthNamesRewritten(k: nat)
    ensures ReplaceFormatAmPm(MonthPassText(k)) == RunText('M', k)
  {
    var head, tail := Repeat("January", k / 4), ["", "1", "01", "Jan"][k % 4];
    ApplyOne(AmPmRules[0], head + tail);
    ReplaceCharConcat(head, tail, 'a', "PM");
    MonthNamesHead(k / 4);
    MonthNamesTail(k % 4);
  }

  lemma MonthRunChars(k: nat)
    ensures var o := RunText('M', k);
      'z' !in o && 'Z' !in o && 'E' !in o && 'e' !in o
  {
    var tail := ["", "1", "01", "JPMn"][k % 4];
    assert forall ch :: ch in tail ==> ch in "01JPMn";
    assert forall ch :: ch in RunText('M', k) ==> ch in "JPMnuPMry01";
    MonthAlphabet(RunText('M', k));
  }

  lemma MonthAlphabet(o: string)
    requires forall ch :: ch in o ==> ch in "JPMnuPMry01"
    ensures 'z' !in o && 'Z' !in o && 'E' !in o && 'e' !in o
  {
  }

  lemma MonthRun(k: nat)
    ensures ReplaceFormat(Rep('M', k)) == RunText('M', k)
  {
    var f, g, o := Rep('M', k), MonthPassText(k), RunText('M', k);
    RepOnly('M', k);
    Stages(f);
    assert ReplaceFormatYear(f) == f;
    MonthPassRun(k);
    MonthPassChars(k);
    assert ReplaceFormatDay(g) == g;
    assert ReplaceFormatHour(g) == g;
    assert ReplaceFormatMinute(g) == g;
    assert ReplaceFormatSecond(g) == g;
    MonthNamesRewritten(k);
    MonthRunChars(k);
    KeepFromZone(o);
  }

  // The three shapes of the remaining rule lists.

  /** A rule for one letter rewrites each copy of it. */
  lemma SingleRun(r: Rule, c: char, k: nat)
    requires IsRunRule(r) && r.target == [c]
    ensures Apply([r], Rep(c, k)) == Repeat(r.replacement, k)
  {
    ApplyToRun([r], c, k);
    CascadeOne(r, c, k);
    RepeatOnce(r.replacement, c, k);
  }

  /** A rule for a pair of letters rewrites each pair and leaves an odd letter. */
  lemma DoubleRun(r: Rule, c: char, k: nat)
    requires IsRunRule(r) && r.target == [c, c]
    ensures Apply([r], Rep(c, k)) == Repeat(r.replacement, k / 2) + ["", [c]][k % 2]
  {
    ApplyToRun([r], c, k);
    CascadeOne(r, c, k);
    RepPairTail(c, k);
  }

  /** A rule for a pair, then one for the single letter: pairs, then an odd letter, are rewritten. */
  lemma PairRun(r1: Rule, r2: Rule, c: char, k: nat)
    requires IsRunRule(r1) && r1.target == [c, c]
    requires IsRunRule(r2) && r2.target == [c]
    ensures Apply([r1, r2], Rep(c, k)) == Repeat(r1.replacement, k / 2) + ["", r2.replacement][k % 2]
  {
    ApplyToRun([r1, r2], c, k);
    CascadeTwo(r1, r2, c, k);
    CascadeOne(r2, c, k % 2);
    RepeatOnce(r2.replacement, c, k % 2);
    PairTail(r2.replacement, k);
  }

  lemma DayPassRun(k: nat)
    ensures Apply(DayRules, Rep('d', k)) == RunText('d', k)
  {
    PairRun(DayRules[0], DayRules[1], 'd', k);
  }

  lemma DayRunChars(k: nat)
    ensures var o := RunText('d', k);
      'H' !in o && 'h' !in o && 'm' !in o && 's' !in o && 'S' !in o && 'a' !in o && 'z' !in o && 'Z' !in o && 'E' !in o && 'e' !in o
  {
    var tail := ["", "2"][k % 2];
    assert forall ch :: ch in tail ==> ch in "02";
    assert forall ch :: ch in RunText('d', k) ==> ch in "02";
  }

  lemma DayRun(k: nat)
    ensures ReplaceFormat(Rep('d', k)) == RunText('d', k)
  {
    var f, o := Rep('d', k), RunText('d', k);
    RepOnly('d', k);
    ReachDay(f);
    DayPassRun(k);
    DayRunChars(k);
    KeepFromHour(o);
  }

  lemma Hour24PassRun(k: nat)
    ensures Apply(HourRules, Rep('H', k)) == RunText('H', k)
  {
    var f := Rep('H', k);
    ApplyConcat(Hour24Rules, Hour12Rules, f);
    DoubleRun(Hour24Rules[0], 'H', k);
    var o := Apply(Hour24Rules, f);
    assert forall ch :: ch in o ==> ch in "15H";
    ApplyUntouched(Hour12Rules, o);
  }

  lemma Hour24RunChars(k: nat)
    ensures var o := RunText('H', k);
      'h' !in o && 'm' !in o && 's' !in o && 'S' !in o && 'a' !in o && 'z' !in o && 'Z' !in o && 'E' !in o && 'e' !in o
  {
    var tail := ["", "H"][k % 2];
    assert forall ch :: ch in tail ==> ch in "15H";
    assert forall ch :: ch in RunText('H', k) ==> ch in "15H";
  }

  lemma Hour24Run(k: nat)
    ensures ReplaceFormat(Rep('H', k)) == RunText('H', k)
  {
    var f, o := Rep('H', k), RunText('H', k);
    RepOnly('H', k);
    ReachHour(f);
    Hour24PassRun(k);
    Hour24RunChars(k);
    KeepFromMinute(o);
  }

  lemma Hour12PassRun(k: nat)
    ensures Apply(HourRules, Rep('h', k)) == RunText('h', k)
  {
    var f := Rep('h', k);
    RepOnly('h', k);
    ApplyConcat(Hour24Rules, Hour12Rules, f);
    ApplyUntouched(Hour24Rules, f);
    DoubleRun(Hour12Rules[0], 'h', k);
  }

  lemma Hour12RunChars(k: nat)
    ensures var o := RunText('h', k);
      'H' !in o && 'm' !in o && 's' !in o && 'S' !in o && 'a' !in o && 'z' !in o && 'Z' !in o && 'E' !in o && 'e' !in o
  {
    var tail := ["", "h"][k % 2];
    assert forall ch :: ch in tail ==> ch in "03h";
    assert forall ch :: ch in RunText('h', k) ==> ch in "03h";
  }

  lemma Hour12Run(k: nat)
    ensures ReplaceFormat(Rep('h', k)) == RunText('h', k)
  {
    var f, o := Rep('h', k), RunText('h', k);
    RepOnly('h', k);
    ReachHour(f);
    Hour12PassRun(k);
    Hour12RunChars(k);
    KeepFromMinute(o);
  }

  lemma MinutePassRun(k: nat)
    ensures Apply(MinuteRules, Rep('m', k)) == RunText('m', k)
  {
    PairRun(MinuteRules[0], MinuteRules[1], 'm', k);
  }

  lemma MinuteRunChars(k: nat)
    ensures var o := RunText('m', k);
      's' !in o && 'S' !in o && 'a' !in o && 'z' !in o && 'Z' !in o && 'E' !in o && 'e' !in o
  {
    var tail := ["", "4"][k % 2];
    assert forall ch :: ch in tail ==> ch in "04";
    assert forall ch :: ch in RunText('m', k) ==> ch in "04";
  }

  lemma MinuteRun(k: nat)
    ensures ReplaceFormat(Rep('m', k)) == RunText('m', k)
  {
    var f, o := Rep('m', k), RunText('m', k);
    RepOnly('m', k);
    ReachMinute(f);
    MinutePassRun(k);
    MinuteRunChars(k);
    KeepFromSecond(o);
  }

  lemma SecondPassRun(k: nat)
    ensures Apply(SecondPassRules, Rep('s', k)) == RunText('s', k)
  {
    var f := Rep('s', k);
    ApplyConcat(SecondRules, FractionRules, f);
    PairRun(SecondRules[0], SecondRules[1], 's', k);
    var o := Apply(SecondRules, f);
    var tail := ["", "5"][k % 2];
    assert forall ch :: ch in tail ==> ch in "5";
    assert forall ch :: ch in o ==> ch in "05";
    ApplyUntouched(FractionRules, o);
  }

  lemma SecondRunChars(k: nat)
    ensures var o := RunText('s', k);
      'S' !in o && 'a' !in o && 'z' !in o && 'Z' !in o && 'E' !in o && 'e' !in o
  {
    var tail := ["", "5"][k % 2];
    assert forall ch :: ch in tail ==> ch in "05";
    assert forall ch :: ch in RunText('s', k) ==> ch in "05";
  }

  lemma SecondRun(k: nat)
    ensures ReplaceFormat(Rep('s', k)) == RunText('s', k)
  {
    var f, o := Rep('s', k), RunText('s', k);
    RepOnly('s', k);
    ReachSecond(f);
    SecondPassRun(k);
    SecondRunChars(k);
    KeepFromAmPm(o);
  }

  lemma FractionPassRun(k: nat)
    ensures Apply(SecondPassRules, Rep('S', k)) == RunText('S', k)
  {
    var f := Rep('S', k);
    RepOnly('S', k);
    ApplyConcat(SecondRules, FractionRules, f);
    ApplyUntouched(SecondRules, f);
    FractionCascade(k);
  }

  lemma FractionRunChars(k: nat)
    ensures var o := RunText('S', k);
      's' !in o && 'a' !in o && 'z' !in o && 'Z' !in o && 'E' !in o && 'e' !in o
  {
    var tail := ["", "S", "SS"][k % 3];
    assert forall ch :: ch in tail ==> ch in "0S";
    assert forall ch :: ch in RunText('S', k) ==> ch in "0S";
  }

  lemma FractionRun(k: nat)
    ensures ReplaceFormat(Rep('S', k)) == RunText('S', k)
  {
    var f, o := Rep('S', k), RunText('S', k);
    RepOnly('S', k);
    ReachSecond(f);
    FractionPassRun(k);
    FractionRunChars(k);
    KeepFromAmPm(o);
  }

  lemma AmPmPassRun(k: nat)
    ensures Apply(AmPmRules, Rep('a', k)) == RunText('a', k)
  {
    SingleRun(AmPmRules[0], 'a', k);
  }

  lemma AmPmRunChars(k: nat)
    ensures var o := RunText('a', k);
      'z' !in o && 'Z' !in o && 'E' !in o && 'e' !in o
  {
    assert forall ch :: ch in RunText('a', k) ==> ch in "PM";
  }

  lemma AmPmRun(k: nat)
    ensures ReplaceFormat(Rep('a', k)) == RunText('a', k)
  {
    var f, o := Rep('a', k), RunText('a', k);
    RepOnly('a', k);
    ReachAmPm(f);
    AmPmPassRun(k);
    AmPmRunChars(k);
    KeepFromZone(o);
  }

  lemma ZoneNamePassRun(k: nat)
    ensures Apply(ZoneRules, Rep('z', k)) == RunText('z', k)
  {
    var f := Rep('z', k);
    ApplyConcat(ZoneNameRules, ZoneOffsetRules, f);
    SingleRun(ZoneNameRules[0], 'z', k);
    assert forall ch :: ch in Repeat("GMT", k) ==> ch in "GMT";
    ApplyUntouched(ZoneOffsetRules, Repeat("GMT", k));
  }

  lemma ZoneNameRunChars(k: nat)
    ensures var o := RunText('z', k);
      'Z' !in o && 'E' !in o && 'e' !in o
  {
    assert forall ch :: ch in RunText('z', k) ==> ch in "GMT";
  }

  lemma ZoneNameRun(k: nat)
    ensures ReplaceFormat(Rep('z', k)) == RunText('z', k)
  {
    var f, o := Rep('z', k), RunText('z', k);
    RepOnly('z', k);
    ReachZone(f);
    ZoneNamePassRun(k);
    ZoneNameRunChars(k);
  }

  lemma ZoneOffsetPassRun(k: nat)
    ensures Apply(ZoneRules, Rep('Z', k)) == RunText('Z', k)
  {
    var f := Rep('Z', k);
    RepOnly('Z', k);
    ApplyConcat(ZoneNameRules, ZoneOffsetRules, f);
    ApplyUntouched(ZoneNameRules, f);
    SingleRun(ZoneOffsetRules[0], 'Z', k);
  }

  lemma ZoneOffsetRunChars(k: nat)
    ensures var o := RunText('Z', k);
      'z' !in o && 'E' !in o && 'e' !in o
  {
    assert forall ch :: ch in RunText('Z', k) ==> ch in "-0700";
  }

  lemma ZoneOffsetRun(k: nat)
    ensures ReplaceFormat(Rep('Z', k)) == RunText('Z', k)
  {
    var f, o := Rep('Z', k), RunText('Z', k);
    RepOnly('Z', k);
    ReachZone(f);
    ZoneOffsetPassRun(k);
    ZoneOffsetRunChars(k);
  }

  lemma WeekdayLongPassRun(k: nat)
    ensures Apply(WeekdayRules, Rep('E', k)) == RunText('E', k)
  {
    var f := Rep('E', k);
    ApplyConcat(WeekdayLongRules, WeekdayShortRules, f);
    SingleRun(WeekdayLongRules[0], 'E', k);
    assert forall ch :: ch in Repeat("Monday", k) ==> ch in "Monday";
    ApplyUntouched(WeekdayShortRules, Repeat("Monday", k));
  }

  lemma WeekdayLongRunChars(k: nat)
    ensures var o := RunText('E', k);
      'e' !in o
  {
    assert forall ch :: ch in RunText('E', k) ==> ch in "Monday";
  }

  lemma WeekdayLongRun(k: nat)
    ensures ReplaceFormat(Rep('E', k)) == RunText('E', k)
  {
    var f, o := Rep('E', k), RunText('E', k);
    RepOnly('E', k);
    ReachWeekday(f);
    WeekdayLongPassRun(k);
    WeekdayLongRunChars(k);
  }

  lemma WeekdayShortPassRun(k: nat)
    ensures Apply(WeekdayRules, Rep('e', k)) == RunText('e', k)
  {
    var f := Rep('e', k);
    RepOnly('e', k);
    ApplyConcat(WeekdayLongRules, WeekdayShortRules, f);
    ApplyUntouched(WeekdayLongRules, f);
    SingleRun(WeekdayShortRules[0], 'e', k);
  }

  lemma WeekdayShortRunChars(k: nat)
    ensures var o := RunText('e', k);
      'E' !in o
  {
    assert forall ch :: ch in RunText('e', k) ==> ch in "Mon";
  }

  lemma WeekdayShortRun(k: nat)
    ensures ReplaceFormat(Rep('e', k)) == RunText('e', k)
  {
    var f, o := Rep('e', k), RunText('e', k);
    RepOnly('e', k);
    ReachWeekday(f);
    WeekdayShortPassRun(k);
    WeekdayShortRunChars(k);
  }

  // S: runs of nine, six and three S all become zeros, so a run keeps only its last one or two S.

  lemma FractionCascade(k: nat)
    ensures Apply(FractionRules, Rep('S', k)) == Repeat("000", k / 3) + ["", "S", "SS"][k % 3]
  {
    ApplyToRun(FractionRules, 'S', k);
    FractionCascadeForm(k);
    FractionZeros(k);
    FractionTail(k);
  }

  lemma FractionCascadeForm(k: nat)
    ensures Cascade(FractionRules, 'S', k) ==
      Repeat("000000000", k / 9) + Repeat("000000", k % 9 / 6) + Repeat("000", k % 9 % 6 / 3) + Rep('S', k % 9 % 6 % 3)
  {
    CascadeThree(FractionRules[0], FractionRules[1], FractionRules[2], 'S', k);
    CascadeTwo(FractionRules[1], FractionRules[2], 'S', k % 9);
    CascadeOne(FractionRules[2], 'S', k % 9 % 6);
  }

  lemma FractionZeros(k: nat)
    ensures Repeat("000000000", k / 9) + Repeat("000000", k % 9 / 6) + Repeat("000", k % 9 % 6 / 3) ==
      Repeat("000", k / 3)
  {
    var q, r := k / 9, k % 9;
    assert "000000000" == Repeat("000", 3);
    assert "000000" == Repeat("000", 2);
    RepeatMul("000", 3, q);
    RepeatMul("000", 2, r / 6);
    RepeatAdd("000", 3 * q, 2 * (r / 6));
    RepeatAdd("000", 3 * q + 2 * (r / 6), r % 6 / 3);
    assert k == 9 * q + r;
    assert 3 * q + 2 * (r / 6) + r % 6 / 3 == k / 3;
  }

  lemma FractionTail(k: nat)
    ensures Rep('S', k % 9 % 6 % 3) == ["", "S", "SS"][k % 3]
  {
    var q, r := k / 9, k % 9;
    assert k == 9 * q + r;
    assert r % 6 % 3 == k % 3;
    if k % 3 == 1 {
      assert Rep('S', 1) == "S";
    } else if k % 3 == 2 {
      assert Rep('S', 2) == "SS";
    }
  }

  /** A run of a letter no pass rewrites is copied. */
  lemma OtherRun(c: char, k: nat)
    requires c !in FormatLetters
    ensures ReplaceFormat(Rep(c, k)) == RunText(c, k)
  {
    var f := Rep(c, k);
    assert forall i :: 0 <= i < |f| ==> f[i] !in FormatLetters;
    assert RunText(c, k) == f;
  }

  /** `replaceFormat` turns a run of one letter into the table's text for it. */
  lemma RunTextCorrect(c: char, k: nat)
    ensures ReplaceFormat(Rep(c, k)) == RunText(c, k)
  {
    if c == 'y' { YearRun(k); }
    else if c == 'M' { MonthRun(k); }
    else if c == 'd' { DayRun(k); }
    else if c == 'H' { Hour24Run(k); }
    else if c == 'h' { Hour12Run(k); }
    else if c == 'm' { MinuteRun(k); }
    else if c == 's' { SecondRun(k); }
    else if c == 'S' { FractionRun(k); }
    else if c == 'a' { AmPmRun(k); }
    else if c == 'z' { ZoneNameRun(k); }
    else if c == 'Z' { ZoneOffsetRun(k); }
    else if c == 'E' { WeekdayLongRun(k); }
    else if c == 'e' { WeekdayShortRun(k); }
    else { OtherRun(c, k); }
  }

  /**
   * No rule of the table with a target longer than one letter looks for a
   * letter that an earlier rule produced, so no pass can join text produced
   * by an earlier pass to a run of the pattern.
   */
  lemma FormatRulesOrdered()
    ensures OrderedAfter(FormatRules, "")
  {
    YearPassOrdered();
    MultiLetterPassesOrdered();
    YearReplacements();
    SingleLetterPasses();
    TableOrdered(YearRules, MonthRules, DayRules, HourRules, MinuteRules, SecondPassRules,
      AmPmRules, ZoneRules, WeekdayRules);
  }

  /**
   * A first pass, five passes ordered after its output, then three passes
   * with single-letter targets: the whole list is ordered.
   */
  lemma TableOrdered(y: seq<Rule>, p1: seq<Rule>, p2: seq<Rule>, p3: seq<Rule>, p4: seq<Rule>, p5: seq<Rule>,
                     s1: seq<Rule>, s2: seq<Rule>, s3: seq<Rule>)
    requires OrderedAfter(y, "")
    requires OrderedAfter(p1 + p2 + p3 + p4 + p5, Replacements(y))
    requires forall i :: 0 <= i < |s1 + s2 + s3| ==> |(s1 + s2 + s3)[i].target| <= 1
    ensures OrderedAfter(y + p1 + p2 + p3 + p4 + p5 + s1 + s2 + s3, "")
  {
    var m, single := p1 + p2 + p3 + p4 + p5, s1 + s2 + s3;
    TableShape(y, p1, p2, p3, p4, p5, s1, s2, s3);
    OrderedAfterSingles(single, Replacements(y) + Replacements(m));
    OrderedAfterConcat(m, single, Replacements(y));
    OrderedAfterFirst(y, m + single);
  }

  lemma TableShape<T>(y: seq<T>, p1: seq<T>, p2: seq<T>, p3: seq<T>, p4: seq<T>, p5: seq<T>,
                      s1: seq<T>, s2: seq<T>, s3: seq<T>)
    ensures y + p1 + p2 + p3 + p4 + p5 + s1 + s2 + s3 == y + ((p1 + p2 + p3 + p4 + p5) + (s1 + s2 + s3))
  {
    var m := p1 + p2 + p3 + p4 + p5;
    ConcatAssoc(y, p1, p2);
    ConcatAssoc(y, p1 + p2, p3);
    ConcatAssoc(y, p1 + p2 + p3, p4);
    ConcatAssoc(y, p1 + p2 + p3 + p4, p5);
    ConcatAssoc(y, m, s1);
    ConcatAssoc(y, m + s1, s2);
    ConcatAssoc(y, m + s1 + s2, s3);
    ConcatAssoc(m, s1, s2);
    ConcatAssoc(m, s1 + s2, s3);
  }

  /** A list ordered from the start, followed by one ordered after its output. */
  lemma OrderedAfterFirst(y: seq<Rule>, rest: seq<Rule>)
    requires OrderedAfter(y, "")
    requires OrderedAfter(rest, Replacements(y))
    ensures OrderedAfter(y + rest, "")
  {
    assert "" + Replacements(y) == Replacements(y);
    OrderedAfterConcat(y, rest, "");
  }

  lemma YearPassOrdered()
    ensures OrderedAfter(YearRules, "")
  {
    OrderedAfterAvoiding(YearRules, "", {'y'});
  }

  lemma YearReplacements()
    ensures Replacements(YearRules) == "200606"
  {
    assert YearRules[1..][1..] == [];
  }

  /** The AM/PM, zone and weekday passes only have single-letter targets. */
  lemma SingleLetterPasses()
    ensures forall i :: 0 <= i < |AmPmRules + ZoneRules + WeekdayRules| ==> |(AmPmRules + ZoneRules + WeekdayRules)[i].target| <= 1
  {
  }

  /** The letters that the passes with targets longer than one letter look for. */
  const LongTargetLetters: set<char> := {'M', 'd', 'H', 'h', 'm', 's', 'S'}

  /** After the year pass, the passes with longer targets produce none of their own letters. */
  lemma MultiLetterPassesOrdered()
    ensures OrderedAfter(MonthRules + DayRules + HourRules + MinuteRules + SecondPassRules, "200606")
  {
    MonthAvoids();
    DayAvoids();
    HourAvoids();
    MinuteAvoids();
    SecondAvoids();
    YearOutputAvoids();
    PassesOrdered(MonthRules, DayRules, HourRules, MinuteRules, SecondPassRules, "200606", LongTargetLetters);
  }

  /** Five passes that each avoid the forbidden letters, after output without them, are ordered. */
  lemma PassesOrdered(p1: seq<Rule>, p2: seq<Rule>, p3: seq<Rule>, p4: seq<Rule>, p5: seq<Rule>,
                      seen: string, forbidden: set<char>)
    requires Avoids(p1, forbidden) && Avoids(p2, forbidden) && Avoids(p3, forbidden)
    requires Avoids(p4, forbidden) && Avoids(p5, forbidden)
    requires forall ch :: ch in seen ==> ch !in forbidden
    ensures OrderedAfter(p1 + p2 + p3 + p4 + p5, seen)
  {
    AvoidsConcat(p1, p2, forbidden);
    AvoidsConcat(p1 + p2, p3, forbidden);
    AvoidsConcat(p1 + p2 + p3, p4, forbidden);
    AvoidsConcat(p1 + p2 + p3 + p4, p5, forbidden);
    OrderedAfterAvoiding(p1 + p2 + p3 + p4 + p5, seen, forbidden);
  }

  lemma YearOutputAvoids()
    ensures forall ch :: ch in "200606" ==> ch !in LongTargetLetters
  {
  }

  /** The month pass writes none of the letters that start a longer target. */
  lemma MonthTextsAvoid()
    ensures NoneIn("1", LongTargetLetters) && NoneIn("01", LongTargetLetters)
    ensures NoneIn("Jan", LongTargetLetters) && NoneIn("January", LongTargetLetters)
  {
    JanuaryAvoids();
  }

  lemma JanuaryAvoids()
    ensures NoneIn("January", LongTargetLetters)
  {
    assert NoneIn("uary", LongTargetLetters);
  }

  lemma MonthAvoids()
    ensures Avoids(MonthRules, LongTargetLetters)
  {
    var F := LongTargetLetters;
    var m1, m2, m3, m4 := Rule("MMMM", "January"), Rule("MMM", "Jan"), Rule("MM", "01"), Rule("M", "1");
    MonthTextsAvoid();
    AvoidsCons(m4, [], F);
    AvoidsCons(m3, [m4], F);
    AvoidsCons(m2, [m3, m4], F);
    AvoidsCons(m1, [m2, m3, m4], F);
    assert MonthRules == [m1] + [m2, m3, m4];
  }

  lemma DayAvoids()
    ensures Avoids(DayRules, LongTargetLetters)
  {
  }

  lemma HourAvoids()
    ensures Avoids(HourRules, LongTargetLetters)
  {
  }

  lemma MinuteAvoids()
    ensures Avoids(MinuteRules, LongTargetLetters)
  {
  }

  lemma SecondAvoids()
    ensures Avoids(SecondPassRules, LongTargetLetters)
  {
  }

  /**
   * The main theorem: the nine passes of guarded replacements translate
   * every pattern run by run.
   */
  lemma {:induction false} ReplaceFormatByRuns(p: string)
    ensures ReplaceFormat(p) == Translate(p)
    decreases |p|
  {
    if p == [] {
      ApplyEmpty(FormatRules);
    } else {
      var c := p[0];
      var n := LeadRun(p, c);
      LeadRunSplit(p, c);
      var a, b := Rep(c, n), p[n..];
      assert p == a + b;
      RepOnly(c, n);
      var e := if b != [] then b[0] else if c == ' ' then '.' else ' ';
      FormatRulesOrdered();
      ApplySplitAtRun(FormatRules, a, b, c, e, "");
      RunTextCorrect(c, n);
      ReplaceFormatByRuns(b);
    }
  }

  // The month names as the source evidently intends them: the run table
  // without the AM/PM pass reaching into the names.

  /** The intended text for a run: month names are Go's "January" and "Jan". */
  function IntendedRunText(c: char, k: nat): string
  {
    if c == 'M' then MonthPassText(k) else RunText(c, k)
  }

  /** The pattern translated run by run with the intended table. */
  function TranslateIntended(p: string): string
    decreases |p|
  {
    if p == [] then []
    else
      var n := LeadRun(p, p[0]);
      IntendedRunText(p[0], n) + TranslateIntended(p[n..])
  }

  /** With the intended table the four month tokens become Go's four month layouts. */
  lemma IntendedMonthTokens()
    ensures IntendedRunText('M', 1) == "1" && IntendedRunText('M', 2) == "01"
    ensures IntendedRunText('M', 3) == "Jan" && IntendedRunText('M', 4) == "January"
  {
    assert Repeat("January", 0) == [];
    assert Repeat("January", 1) == "January";
  }

  /** As written, the abbreviated and the full month name come out with PM inside them. */
  lemma MonthNamesAsWritten()
    ensures ReplaceFormat("MMM") == "JPMn"
    ensures ReplaceFormat("MMMM") == "JPMnuPMry"
  {
    assert "MMM" == Rep('M', 3) && "MMMM" == Rep('M', 4);
    RunTextCorrect('M', 3);
    RunTextCorrect('M', 4);
    assert Repeat("JPMnuPMry", 0) == [];
    assert Repeat("JPMnuPMry", 1) == "JPMnuPMry";
  }

  /** A run of `n` copies of `c` before the rest holds "MMM" exactly when it is a run of at least three M or the rest does. */
  lemma RunContainsMonthName(c: char, n: nat, b: string)
    requires b == [] || b[0] != c
    ensures Contains(Rep(c, n) + b, "MMM") <==> (c == 'M' && n >= 3) || Contains(b, "MMM")
  {
    var a := Rep(c, n);
    if c == 'M' && n >= 3 {
      MonthNameInRun(n, b);
    }
    if Contains(b, "MMM") {
      var j: nat :| j <= |b| && OccursAt(b, "MMM", j);
      OccursAtShift(a, b, "MMM", j);
    }
    if Contains(a + b, "MMM") {
      MonthNameFromRun(c, n, b);
    }
  }

  lemma MonthNameInRun(n: nat, b: string)
    requires n >= 3
    ensures Contains(Rep('M', n) + b, "MMM")
  {
    var p := Rep('M', n) + b;
    assert p[0..3] == "MMM";
    assert OccursAt(p, "MMM", 0);
  }

  /** An "MMM" in a run followed by the rest lies in the run, which then has at least three M, or in the rest. */
  lemma MonthNameFromRun(c: char, n: nat, b: string)
    requires b == [] || b[0] != c
    requires Contains(Rep(c, n) + b, "MMM")
    ensures (c == 'M' && n >= 3) || Contains(b, "MMM")
  {
    var a := Rep(c, n);
    var p := a + b;
    var i: nat :| i <= |p| && OccursAt(p, "MMM", i);
    if i >= n {
      OccursAtShift(a, b, "MMM", i - n);
      assert OccursAt(b, "MMM", i - n);
    } else {
      MonthNameInsideRun(c, n, b, i);
    }
  }

  lemma MonthNameInsideRun(c: char, n: nat, b: string, i: nat)
    requires b == [] || b[0] != c
    requires i < n && OccursAt(Rep(c, n) + b, "MMM", i)
    ensures c == 'M' && n >= 3
  {
    var p := Rep(c, n) + b;
    assert p[i] == p[i..i + 3][0] == 'M';
    var rest := p[i..];
    assert rest == Rep(c, n - i) + b;
    LeadRunOfRun(c, n - i, b);
    assert "MMM" == Rep('M', 3);
    assert rest[..3] == p[i..i + 3];
    LeadRunCovers(rest, c, 3);
  }

  /**
   * The two tables give the same layout exactly when the pattern holds no
   * "MMM"; otherwise the layout as written is strictly longer.
   */
  lemma {:induction false} TranslateIntendedAgrees(p: string)
    ensures |Translate(p)| >= |TranslateIntended(p)|
    ensures !Contains(p, "MMM") ==> Translate(p) == TranslateIntended(p)
    ensures Contains(p, "MMM") ==> |Translate(p)| > |TranslateIntended(p)|
    decreases |p|
  {
    if p == [] {
      assert !OccursAt(p, "MMM", 0);
    } else {
      var c := p[0];
      var n := LeadRun(p, c);
      LeadRunSplit(p, c);
      var b := p[n..];
      assert p == Rep(c, n) + b;
      RunContainsMonthName(c, n, b);
      RunTextLonger(c, n);
      TranslateIntendedAgrees(b);
    }
  }

  /** Per run: the as-written text is never shorter, and is longer exactly for runs of three or more M. */
  lemma RunTextLonger(c: char, n: nat)
    ensures |RunText(c, n)| >= |IntendedRunText(c, n)|
    ensures (c == 'M' && n >= 3) <==> |RunText(c, n)| > |IntendedRunText(c, n)|
    ensures !(c == 'M' && n >= 3) ==> RunText(c, n) == IntendedRunText(c, n)
  {
    if c == 'M' {
      var q, r := n / 4, n % 4;
      assert |Repeat("JPMnuPMry", q)| == 9 * q;
      assert |Repeat("January", q)| == 7 * q;
      if n < 3 {
        assert q == 0 && Repeat("JPMnuPMry", 0) == Repeat("January", 0);
      }
    }
  }

  /** The month names are the only difference: a pattern without M has the same layout both ways. */
  lemma {:induction false} IntendedOnlyChangesMonths(p: string)
    ensures 'M' !in p ==> Translate(p) == TranslateIntended(p)
  {
    if 'M' !in p {
      NotContainsWithoutFirst(p, "MMM");
      TranslateIntendedAgrees(p);
    }
  }
}
