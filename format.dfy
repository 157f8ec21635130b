/**
 * `Datetime.Format` up to the hand-off to `time.Format`: the era passes turn
 * the pattern's G tokens into era text and adjust the year, then
 * `replaceFormat` turns the pattern into a Go reference layout.
 */
module Formatting {
  import opened GoStrings
  import opened Instants
  import opened Rules
  import opened Datetime
  import opened RunTranslation

  /** What `time.Format` is called with: the Go layout and the (era-adjusted) instant. */
  datatype Prepared = Prepared(layout: string, time: Instant)

  /**
   * `Format` without its last step: the layout is the era-resolved pattern
   * translated run by run, and the instant differs from the given one at
   * most in the year, which is made non-negative exactly when the pattern
   * holds a G.
   */
  function Format(pattern: string, t: Instant): (r: Prepared)
    ensures r.layout == Translate(ResolveEra(pattern, t).0)
    ensures r.time == t.(year := r.time.year)
    ensures r.time.year == if 'G' in pattern then Abs(t.year) else t.year
    ensures 'G' !in pattern ==> r.layout == Translate(pattern)
  {
    var (f, t1) := ResolveEra(pattern, t);
    ReplaceFormatByRuns(f);
    Prepared(ReplaceFormat(f), t1)
  }

  /** `Format` with the intended month names, as the corrected form of the finding. */
  function FormatIntended(pattern: string, t: Instant): (r: Prepared)
    ensures r.time == Format(pattern, t).time
    ensures !Contains(ResolveEra(pattern, t).0, "MMM") ==> r == Format(pattern, t)
    ensures 'M' !in pattern ==> r == Format(pattern, t)
  {
    var (f, t1) := ResolveEra(pattern, t);
    TranslateIntendedAgrees(f);
    EraKeepsLetter(pattern, t, 'M');
    IntendedOnlyChangesMonths(f);
    Prepared(TranslateIntended(f), t1)
  }

  /** The era passes only touch G, so a letter other than G is present after them exactly when it was before. */
  lemma EraKeepsLetter(f: string, t: Instant, ch: char)
    requires ch != 'G' && ch !in "B.C.A.D."
    ensures ch in ResolveEra(f, t).0 <==> ch in f
  {
    var (f1, t1) := ReplaceCommonEra(f, t, "GG", "B.C.", "A.D.");
    ReplaceAllKeepsChar(f, "GG", if t.year < 0 then "B.C." else "A.D.", ch);
    ReplaceAllKeepsChar(f1, "G", if t1.year < 0 then "BC" else "AD", ch);
  }

  // Worked patterns. The layouts are Go reference layouts: "2006" is the
  // year, "01" the month, "15" the hour, "PM" the marker and so on, which
  // `time.Format` then fills in from the instant.

  /** A pattern that is one run of a letter other than G: its table text, with the instant unchanged. */
  lemma SingleRunPattern(c: char, k: nat, t: Instant)
    requires c != 'G' && 0 < k
    ensures Format(Rep(c, k), t) == Prepared(RunText(c, k), t)
  {
    RepOnly(c, k);
    assert Rep(c, k) + [] == Rep(c, k);
    TranslateRun(c, k, []);
    assert RunText(c, k) + [] == RunText(c, k);
  }

  /** The text an era token becomes in a given year: dotted for "GG", plain for "G". */
  function EraText(token: string, year: int): string
  {
    if token == "GG" then (if year < 0 then "B.C." else "A.D.") else (if year < 0 then "BC" else "AD")
  }

  /**
   * "G yyyy" and "GG yyyy": the era text for the year's sign, a space and
   * Go's year layout, with the year made non-negative (so year -1000 reads
   * "BC 1000" and "B.C. 1000" once rendered).
   */
  lemma EraAndYear(token: string, t: Instant)
    requires token == "G" || token == "GG"
    ensures Format(token + " yyyy", t) == Prepared(EraText(token, t.year) + " 2006", t.(year := Abs(t.year)))
  {
    ResolveEraAtStart(token, " yyyy", t);
    EraTextInert(token, t.year);
    LayoutOfEraAndYear(EraText(token, t.year));
  }

  /** An era token alone becomes the era text. */
  lemma EraAlone(token: string, t: Instant)
    requires token == "G" || token == "GG"
    ensures Format(token, t) == Prepared(EraText(token, t.year), t.(year := Abs(t.year)))
  {
    var text := EraText(token, t.year);
    assert token + [] == token;
    ResolveEraAtStart(token, [], t);
    assert text + [] == text;
    assert ResolveEra(token, t).0 == text;
    EraTextInert(token, t.year);
    InertLayout(text);
  }

  /** Without an era token the year keeps its sign; Go renders this layout as "-1000". */
  lemma UnsignedYearKeepsSign(p: string, t: Instant)
    requires p == "yyyy"
    requires t.year == -1000
    ensures Format(p, t) == Prepared("2006", t)
  {
    TranslateYear();
  }

  /** "GGG": the "GG" pass writes B.C. and makes the year positive, so the last G reads AD. */
  lemma TripleEraToken(p: string, t: Instant)
    requires p == "GGG"
    requires t.year < 0
    ensures Format(p, t) == Prepared("B.C.AD", t.(year := Abs(t.year)))
  {
    ResolveTripleEra(p, t);
    var f := ResolveEra(p, t).0;
    assert forall i :: 0 <= i < |f| ==> f[i] !in FormatLetters;
    InertLayout(f);
  }

  lemma ResolveTripleEra(p: string, t: Instant)
    requires p == "GGG"
    requires t.year < 0
    ensures ResolveEra(p, t) == ("B.C.AD", t.(year := Abs(t.year)))
  {
    assert p[..2] == "GG" && p[2..] == "G";
    assert ReplaceAll(p[2..], "GG", "B.C.") == "G";
    assert ReplaceAll(p, "GG", "B.C.") == "B.C." + "G";
    assert OccursAt(p, "GG", 0);
    LeftoverEraIsAD(p, t);
    EraTokenAtEnd("B.C.", "AD");
    assert "B.C." + "AD" == "B.C.AD";
  }

  /** An era token at the very start of text without G. */
  lemma ResolveEraAtStart(token: string, rest: string, t: Instant)
    requires token == "G" || token == "GG"
    requires 'G' !in rest
    ensures ResolveEra(token + rest, t) == (EraText(token, t.year) + rest, t.(year := Abs(t.year)))
  {
    var f := token + rest;
    assert OccursAt(f, token, 0);
    if token == "G" {
      assert forall i :: 1 <= i < |f| ==> f[i] == rest[i - 1];
      NoPair(f, 'G');
      LoneEraToken(f, t);
      EraTokenAtStart("G", rest, if t.year < 0 then "BC" else "AD");
    } else {
      var text := if t.year < 0 then "B.C." else "A.D.";
      LeftoverEraIsAD(f, t);
      EraTokenAtStart("GG", rest, text);
      NoG(text + rest);
      ReplaceAllWithoutOccurrence(text + rest, "G", "AD");
    }
  }

  /** An era token at the start of text without G: only that occurrence is replaced. */
  lemma EraTokenAtStart(token: string, rest: string, text: string)
    requires token == "G" || token == "GG"
    requires 'G' !in rest
    ensures ReplaceAll(token + rest, token, text) == text + rest
  {
    assert (token + rest)[..|token|] == token;
    assert (token + rest)[|token|..] == rest;
    NotContainsWithoutFirst(rest, token);
    ReplaceAllWithoutOccurrence(rest, token, text);
  }

  /** A single G at the end of text without G. */
  lemma EraTokenAtEnd(before: string, text: string)
    requires 'G' !in before
    ensures ReplaceAll(before + "G", "G", text) == before + text
  {
    ReplaceAllPrefixFree(before, "G", "G", text);
    assert "G" == "G" + [];
    EraTokenAtStart("G", [], text);
    assert text + [] == text;
  }

  lemma NoG(s: string)
    requires 'G' !in s
    ensures !Contains(s, "G")
  {
    ContainsChar(s, 'G');
  }

  /** Text without format letters is its own layout. */
  lemma InertLayout(s: string)
    requires forall i :: 0 <= i < |s| ==> s[i] !in FormatLetters
    ensures Translate(s) == s
  {
    assert s + [] == s;
    TranslateInertPrefix(s, []);
  }

  /** Text without format letters, a space and "yyyy" become that text, the space and "2006". */
  lemma LayoutOfEraAndYear(era: string)
    requires forall i :: 0 <= i < |era| ==> era[i] !in FormatLetters
    ensures Translate(era + " yyyy") == era + " 2006"
  {
    var x := era + " ";
    InertThenSpace(era);
    SpaceThenYear();
    ConcatAssoc(era, " ", "yyyy");
    TranslateInertPrefix(x, "yyyy");
    TranslateYear();
    ConcatAssoc(era, " ", "2006");
  }

  lemma InertThenSpace(era: string)
    requires forall i :: 0 <= i < |era| ==> era[i] !in FormatLetters
    ensures forall i :: 0 <= i < |era + " "| ==> (era + " ")[i] !in FormatLetters
  {
    var x := era + " ";
    forall i | 0 <= i < |x|
      ensures x[i] !in FormatLetters
    {
      if i < |era| {
        assert x[i] == era[i];
      }
    }
  }

  lemma SpaceThenYear()
    ensures " " + "yyyy" == " yyyy" && " " + "2006" == " 2006"
  {
  }

  /** The era texts hold no format letter. */
  lemma EraTextInert(token: string, year: int)
    ensures forall i :: 0 <= i < |EraText(token, year)| ==> EraText(token, year)[i] !in FormatLetters
  {
  }
}
