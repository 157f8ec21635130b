/**
 * A replacement rule is one `strings.Replace(s, target, replacement, -1)`
 * call of the translator. Every rule the translator uses rewrites runs of a
 * single letter into text that does not contain that letter; this module
 * proves what a sequence of such rules does to a run of one letter and why a
 * sequence of them acts on each run of a pattern separately.
 */
module Rules {
  import opened GoStrings

  datatype Rule = Rule(target: string, replacement: string)

  /** `r` rewrites runs of one letter into non-empty text without that letter. */
  predicate IsRunRule(r: Rule)
  {
    && r.target != []
    && r.replacement != []
    && (forall i :: 0 <= i < |r.target| ==> r.target[i] == r.target[0])
    && r.target[0] !in r.replacement
  }

  predicate AllRunRules(rules: seq<Rule>)
  {
    forall i :: 0 <= i < |rules| ==> IsRunRule(rules[i])
  }

  /** A list of run rules, checked once where the list is written down. */
  type RuleTable = rules: seq<Rule> | AllRunRules(rules)

  /** Every rule of `rules` rewrites runs of the letter `c`. */
  predicate AllOfLetter(rules: seq<Rule>, c: char)
    requires AllRunRules(rules)
  {
    forall i :: 0 <= i < |rules| ==> rules[i].target[0] == c
  }

  /** No rule of `rules` rewrites a letter that occurs in `s`. */
  predicate Untouched(rules: seq<Rule>, s: string)
    requires AllRunRules(rules)
  {
    forall i :: 0 <= i < |rules| ==> rules[i].target[0] !in s
  }

  /** The rules applied one after the other, each to the whole string. */
  function Apply(rules: seq<Rule>, s: string): (r: string)
    requires AllRunRules(rules)
  {
    if rules == [] then s
    else Apply(rules[1..], ReplaceAll(s, rules[0].target, rules[0].replacement))
  }

  // Applying short literal rule lists, one rule at a time.

  lemma ApplyOne(r1: Rule, s: string)
    requires IsRunRule(r1)
    ensures Apply([r1], s) == ReplaceAll(s, r1.target, r1.replacement)
  {
    assert [r1][1..] == [];
  }

  lemma ApplyTwo(r1: Rule, r2: Rule, s: string)
    requires IsRunRule(r1) && IsRunRule(r2)
    ensures Apply([r1, r2], s) == Apply([r2], ReplaceAll(s, r1.target, r1.replacement))
  {
    assert [r1, r2][1..] == [r2];
  }

  lemma ApplyThree(r1: Rule, r2: Rule, r3: Rule, s: string)
    requires IsRunRule(r1) && IsRunRule(r2) && IsRunRule(r3)
    ensures Apply([r1, r2, r3], s) == Apply([r2, r3], ReplaceAll(s, r1.target, r1.replacement))
  {
    assert [r1, r2, r3][1..] == [r2, r3];
  }

  lemma ApplyFour(r1: Rule, r2: Rule, r3: Rule, r4: Rule, s: string)
    requires IsRunRule(r1) && IsRunRule(r2) && IsRunRule(r3) && IsRunRule(r4)
    ensures Apply([r1, r2, r3, r4], s) == Apply([r2, r3, r4], ReplaceAll(s, r1.target, r1.replacement))
  {
    assert [r1, r2, r3, r4][1..] == [r2, r3, r4];
  }

  lemma RunRuleTarget(r: Rule)
    requires IsRunRule(r)
    ensures r.target == Rep(r.target[0], |r.target|)
  {
  }

  /** Applying two rule lists in turn is applying their concatenation. */
  lemma {:induction false} ApplyConcat(rules1: seq<Rule>, rules2: seq<Rule>, s: string)
    requires AllRunRules(rules1) && AllRunRules(rules2)
    ensures AllRunRules(rules1 + rules2)
    ensures Apply(rules1 + rules2, s) == Apply(rules2, Apply(rules1, s))
    decreases |rules1|
  {
    if rules1 == [] {
      assert rules1 + rules2 == rules2;
    } else {
      assert (rules1 + rules2)[1..] == rules1[1..] + rules2;
      ApplyConcat(rules1[1..], rules2, ReplaceAll(s, rules1[0].target, rules1[0].replacement));
    }
  }

  /** Text holding none of the rules' letters is copied unchanged, whatever follows it. */
  lemma {:induction false} ApplyPrefixFree(rules: seq<Rule>, x: string, y: string)
    requires AllRunRules(rules)
    requires Untouched(rules, x)
    ensures Apply(rules, x + y) == x + Apply(rules, y)
    decreases |rules|
  {
    if rules != [] {
      var t, w := rules[0].target, rules[0].replacement;
      ReplaceAllPrefixFree(x, y, t, w);
      ApplyPrefixFree(rules[1..], x, ReplaceAll(y, t, w));
    }
  }

  /** Text holding none of the rules' letters is left unchanged. */
  lemma ApplyUntouched(rules: seq<Rule>, s: string)
    requires AllRunRules(rules)
    ensures Untouched(rules, s) ==> Apply(rules, s) == s
  {
    if Untouched(rules, s) {
      ApplyPrefixFree(rules, s, []);
      assert s + [] == s;
      ApplyEmpty(rules);
    }
  }

  lemma {:induction false} ApplyEmpty(rules: seq<Rule>)
    requires AllRunRules(rules)
    ensures Apply(rules, []) == []
    decreases |rules|
  {
    if rules != [] {
      ApplyEmpty(rules[1..]);
    }
  }

  /**
   * What rules for one letter `c` make of a run of `k` copies of `c`: the
   * first rule turns every full group of its length into its replacement and
   * leaves the remainder to the next rule, and so on; what no rule took stays.
   */
  function Cascade(rules: seq<Rule>, c: char, k: nat): (r: string)
    requires AllRunRules(rules)
  {
    if rules == [] then Rep(c, k)
    else
      var n := |rules[0].target|;
      Repeat(rules[0].replacement, k / n) + Cascade(rules[1..], c, k % n)
  }

  /** Rules for one letter, applied to a run of that letter, yield the cascade (longest match first when listed longest first). */
  lemma {:induction false} ApplyToRun(rules: seq<Rule>, c: char, k: nat)
    requires AllRunRules(rules) && AllOfLetter(rules, c)
    ensures Apply(rules, Rep(c, k)) == Cascade(rules, c, k)
    decreases |rules|
  {
    if rules != [] {
      ApplyToRunStep(rules, c, k);
      ApplyToRun(rules[1..], c, k % |rules[0].target|);
    }
  }

  /** The first rule takes every full group of its length; the rest see only the remainder. */
  lemma ApplyToRunStep(rules: seq<Rule>, c: char, k: nat)
    requires AllRunRules(rules) && AllOfLetter(rules, c) && rules != []
    ensures Apply(rules, Rep(c, k)) ==
      Repeat(rules[0].replacement, k / |rules[0].target|) + Apply(rules[1..], Rep(c, k % |rules[0].target|))
  {
    var t, w := rules[0].target, rules[0].replacement;
    var n := |t|;
    DivisionBounds(k, n);
    RunRuleTarget(rules[0]);
    assert t == Rep(c, n);
    ReplaceAllRun(c, k, n, w);
    var head, tail := Repeat(w, k / n), Rep(c, k % n);
    assert ReplaceAll(Rep(c, k), t, w) == head + tail;
    assert Apply(rules, Rep(c, k)) == Apply(rules[1..], head + tail);
    assert Untouched(rules[1..], head);
    ApplyPrefixFree(rules[1..], head, tail);
  }

  lemma DivisionBounds(k: nat, n: nat)
    requires 0 < n
    ensures 0 <= k / n && 0 <= k % n < n
  {
  }

  // The cascade of short literal rule lists, one rule at a time.

  lemma CascadeOne(r1: Rule, c: char, k: nat)
    requires IsRunRule(r1)
    ensures Cascade([r1], c, k) == Repeat(r1.replacement, k / |r1.target|) + Rep(c, k % |r1.target|)
  {
    assert [r1][1..] == [];
  }

  lemma CascadeTwo(r1: Rule, r2: Rule, c: char, k: nat)
    requires IsRunRule(r1) && IsRunRule(r2)
    ensures Cascade([r1, r2], c, k) ==
      Repeat(r1.replacement, k / |r1.target|) + Cascade([r2], c, k % |r1.target|)
  {
    assert [r1, r2][1..] == [r2];
  }

  lemma CascadeThree(r1: Rule, r2: Rule, r3: Rule, c: char, k: nat)
    requires IsRunRule(r1) && IsRunRule(r2) && IsRunRule(r3)
    ensures Cascade([r1, r2, r3], c, k) ==
      Repeat(r1.replacement, k / |r1.target|) + Cascade([r2, r3], c, k % |r1.target|)
  {
    assert [r1, r2, r3][1..] == [r2, r3];
  }

  lemma CascadeFour(r1: Rule, r2: Rule, r3: Rule, r4: Rule, c: char, k: nat)
    requires IsRunRule(r1) && IsRunRule(r2) && IsRunRule(r3) && IsRunRule(r4)
    ensures Cascade([r1, r2, r3, r4], c, k) ==
      Repeat(r1.replacement, k / |r1.target|) + Cascade([r2, r3, r4], c, k % |r1.target|)
  {
    assert [r1, r2, r3, r4][1..] == [r2, r3, r4];
  }

  /**
   * `rules` is ordered so that no rule with a target longer than one
   * character looks for a letter that an earlier rule (or `seen`) produces.
   */
  predicate OrderedAfter(rules: seq<Rule>, seen: string)
  {
    rules == [] ||
    ((|rules[0].target| > 1 ==> rules[0].target[0] !in seen) && OrderedAfter(rules[1..], seen + rules[0].replacement))
  }

  lemma {:induction false} OrderedAfterConcat(rules1: seq<Rule>, rules2: seq<Rule>, seen: string)
    requires OrderedAfter(rules1, seen)
    requires OrderedAfter(rules2, seen + Replacements(rules1))
    ensures OrderedAfter(rules1 + rules2, seen)
    decreases |rules1|
  {
    if rules1 == [] {
      assert seen + [] == seen;
      assert rules1 + rules2 == rules2;
    } else {
      assert (rules1 + rules2)[1..] == rules1[1..] + rules2;
      var seen' := seen + rules1[0].replacement;
      assert seen' + Replacements(rules1[1..]) == seen + Replacements(rules1);
      OrderedAfterConcat(rules1[1..], rules2, seen');
    }
  }

  /**
   * A sufficient condition for the ordering: every letter a rule with a
   * longer target looks for is `forbidden`, and neither `seen` nor any
   * replacement text holds a forbidden letter.
   */
  lemma {:induction false} OrderedAfterAvoiding(rules: seq<Rule>, seen: string, forbidden: set<char>)
    requires forall ch :: ch in seen ==> ch !in forbidden
    requires Avoids(rules, forbidden)
    ensures OrderedAfter(rules, seen)
    decreases |rules|
  {
    if rules != [] {
      NoneInMeans(rules[0].replacement, forbidden);
      OrderedAfterAvoiding(rules[1..], seen + rules[0].replacement, forbidden);
    }
  }

  /** Every letter a rule with a longer target looks for is `forbidden`, and no replacement holds a forbidden letter. */
  predicate Avoids(rules: seq<Rule>, forbidden: set<char>)
  {
    rules == [] ||
    (&& (|rules[0].target| > 1 ==> rules[0].target != [] && rules[0].target[0] in forbidden)
     && NoneIn(rules[0].replacement, forbidden)
     && Avoids(rules[1..], forbidden))
  }

  /** `Avoids` is built one rule at a time. */
  lemma AvoidsCons(r: Rule, rest: seq<Rule>, forbidden: set<char>)
    requires |r.target| > 1 ==> r.target != [] && r.target[0] in forbidden
    requires NoneIn(r.replacement, forbidden)
    requires Avoids(rest, forbidden)
    ensures Avoids([r] + rest, forbidden)
  {
    assert ([r] + rest)[1..] == rest;
  }

  /** No character of `w` is in `forbidden`. */
  predicate NoneIn(w: string, forbidden: set<char>)
  {
    w == [] || (w[0] !in forbidden && NoneIn(w[1..], forbidden))
  }

  lemma {:induction false} NoneInMeans(w: string, forbidden: set<char>)
    ensures NoneIn(w, forbidden) <==> forall ch :: ch in w ==> ch !in forbidden
    decreases |w|
  {
    if w != [] {
      NoneInMeans(w[1..], forbidden);
      assert w == [w[0]] + w[1..];
    }
  }

  lemma {:induction false} AvoidsConcat(rules1: seq<Rule>, rules2: seq<Rule>, forbidden: set<char>)
    requires Avoids(rules1, forbidden) && Avoids(rules2, forbidden)
    ensures Avoids(rules1 + rules2, forbidden)
    decreases |rules1|
  {
    if rules1 == [] {
      assert rules1 + rules2 == rules2;
    } else {
      assert (rules1 + rules2)[1..] == rules1[1..] + rules2;
      AvoidsConcat(rules1[1..], rules2, forbidden);
    }
  }

  /** Rules whose targets are single letters are ordered after anything. */
  lemma {:induction false} OrderedAfterSingles(rules: seq<Rule>, seen: string)
    requires forall i :: 0 <= i < |rules| ==> |rules[i].target| <= 1
    ensures OrderedAfter(rules, seen)
    decreases |rules|
  {
    if rules != [] {
      OrderedAfterSingles(rules[1..], seen + rules[0].replacement);
    }
  }

  /** All replacement texts of `rules`, one after the other. */
  function Replacements(rules: seq<Rule>): string
  {
    if rules == [] then [] else rules[0].replacement + Replacements(rules[1..])
  }

  /**
   * The rules act on a run of `c` and on what follows it separately. `a` is
   * what has become of the run (its letters are `c` or were produced by
   * earlier rules, listed in `seen`) and `b` what has become of the rest (it
   * starts with the letter `e` that followed the run, or with a produced one).
   */
  lemma {:induction false} ApplySplitAtRun(rules: seq<Rule>, a: string, b: string, c: char, e: char, seen: string)
    requires AllRunRules(rules) && OrderedAfter(rules, seen)
    requires c != e
    requires forall ch :: ch in a ==> ch == c || ch in seen
    requires b == [] || b[0] == e || b[0] in seen
    ensures Apply(rules, a + b) == Apply(rules, a) + Apply(rules, b)
    decreases |rules|
  {
    if rules != [] {
      var t, w := rules[0].target, rules[0].replacement;
      if a != [] && b != [] && |t| > 1 {
        assert t[0] !in seen;
        if t[0] == c {
          assert b[0] !in t;
        } else {
          assert a[|a| - 1] in a;
          assert a[|a| - 1] !in t;
        }
      }
      ReplaceAllSplit(a, b, t, w);
      ReplaceAllFirst(b, t, w);
      var a', b' := ReplaceAll(a, t, w), ReplaceAll(b, t, w);
      ApplySplitAtRun(rules[1..], a', b', c, e, seen + w);
    }
  }
}
