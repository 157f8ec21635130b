/**
 * The part of Go's `strings` package that the pattern translator relies on:
 * `strings.Contains` and `strings.Replace(s, old, new, -1)`, over `seq<char>`.
 * Every search string used by the translator is non-empty ASCII, so matching
 * characters here agrees with Go's matching of UTF-8 bytes.
 */
module GoStrings {

  /** `sub` occurs in `s` starting at index `i`. */
  predicate OccursAt(s: string, sub: string, i: nat)
  {
    i + |sub| <= |s| && s[i..i + |sub|] == sub
  }

  /** Go's `strings.Contains(s, sub)`. */
  predicate Contains(s: string, sub: string)
  {
    exists i: nat | i <= |s| :: OccursAt(s, sub, i)
  }

  /** `n` copies of the character `c`. */
  function Rep(c: char, n: nat): (r: string)
    ensures |r| == n
    ensures forall i :: 0 <= i < n ==> r[i] == c
  {
    seq(n, _ => c)
  }

  /** `n` copies of the string `w`, one after the other. */
  function Repeat(w: string, n: nat): (r: string)
    ensures |r| == n * |w|
    ensures forall ch :: ch in r ==> ch in w
  {
    if n == 0 then [] else w + Repeat(w, n - 1)
  }

  /**
   * Go's `strings.Replace(s, target, replacement, -1)` for a non-empty
   * target: scanning from the left, every occurrence is replaced, and an
   * occurrence starts only after the previous one has ended.
   */
  function ReplaceAll(s: string, target: string, replacement: string): (r: string)
    requires target != []
    ensures forall ch :: ch in r ==> ch in s || ch in replacement
    decreases |s|
  {
    if |s| < |target| then s
    else if s[..|target|] == target then replacement + ReplaceAll(s[|target|..], target, replacement)
    else [s[0]] + ReplaceAll(s[1..], target, replacement)
  }

  /** An occurrence in `y` is an occurrence in `x + y`, shifted by `|x|`. */
  lemma OccursAtShift(x: string, y: string, sub: string, i: nat)
    ensures OccursAt(x + y, sub, |x| + i) == OccursAt(y, sub, i)
  {
    if |x| + i + |sub| <= |x + y| {
      assert (x + y)[|x| + i..|x| + i + |sub|] == y[i..i + |sub|];
    }
  }

  /** A single-character target is contained exactly when the character occurs. */
  lemma ContainsChar(s: string, ch: char)
    ensures Contains(s, [ch]) <==> ch in s
  {
    if ch in s {
      var i :| 0 <= i < |s| && s[i] == ch;
      assert OccursAt(s, [ch], i);
    }
    if Contains(s, [ch]) {
      var i: nat :| i <= |s| && OccursAt(s, [ch], i);
      assert s[i] == s[i..i + 1][0];
    }
  }

  /** A string that avoids the first character of a target does not contain it. */
  lemma NotContainsWithoutFirst(s: string, target: string)
    requires target != []
    requires target[0] !in s
    ensures !Contains(s, target)
  {
    forall i: nat
      ensures !OccursAt(s, target, i)
    {
      if i + |target| <= |s| {
        assert s[i..i + |target|][0] == s[i];
      }
    }
  }

  /** A string that contains a target contains its first character. */
  lemma ContainsFirst(s: string, target: string)
    requires target != []
    requires Contains(s, target)
    ensures target[0] in s
  {
    var i: nat :| i <= |s| && OccursAt(s, target, i);
    assert s[i] == s[i..i + |target|][0];
  }

  /**
   * Without an occurrence, replacing is the identity. This is why every
   * `strings.Contains` guard in front of a `strings.Replace` is redundant.
   */
  lemma {:induction false} ReplaceAllWithoutOccurrence(s: string, target: string, replacement: string)
    requires target != []
    requires !Contains(s, target)
    ensures ReplaceAll(s, target, replacement) == s
    decreases |s|
  {
    if |s| >= |target| {
      assert !OccursAt(s, target, 0);
      assert s == [s[0]] + s[1..];
      forall i: nat
        ensures !OccursAt(s[1..], target, i)
      {
        OccursAtShift([s[0]], s[1..], target, i);
      }
      ReplaceAllWithoutOccurrence(s[1..], target, replacement);
    }
  }

  /** The first character of the result is the input's, or the replacement's when a match starts at 0. */
  lemma ReplaceAllFirst(s: string, target: string, replacement: string)
    requires target != [] && replacement != []
    ensures s == [] ==> ReplaceAll(s, target, replacement) == []
    ensures s != [] ==> ReplaceAll(s, target, replacement) != []
    ensures s != [] && s[0] != target[0] ==> ReplaceAll(s, target, replacement)[0] == s[0]
    ensures s != [] ==> ReplaceAll(s, target, replacement)[0] in {s[0], replacement[0]}
  {
  }

  /** No occurrence can start in `a` and end in `b`. */
  predicate NoStraddle(a: string, b: string, target: string)
  {
    a == [] || b == [] || |target| == 1 || a[|a| - 1] !in target || b[0] !in target
  }

  /** With `a` non-empty, no occurrence starts at index 0 of `a + b` unless one starts at index 0 of `a`. */
  lemma NoStraddleAtStart(a: string, b: string, target: string)
    requires a != [] && target != []
    requires NoStraddle(a, b, target)
    requires !(|a| >= |target| && a[..|target|] == target)
    ensures !(|a + b| >= |target| && (a + b)[..|target|] == target)
  {
    var n := |target|;
    if |a + b| >= n {
      if |a| >= n {
        assert (a + b)[..n] == a[..n];
      } else if a[|a| - 1] !in target {
        assert (a + b)[..n][|a| - 1] == a[|a| - 1];
      } else {
        assert (a + b)[..n][|a|] == b[0];
      }
    }
  }

  lemma ConcatTail(a: string, b: string)
    requires a != []
    ensures (a + b)[1..] == a[1..] + b
  {
  }

  /** Replacing distributes over a concatenation that no occurrence straddles. */
  lemma {:induction false} ReplaceAllSplit(a: string, b: string, target: string, replacement: string)
    requires target != []
    requires NoStraddle(a, b, target)
    ensures ReplaceAll(a + b, target, replacement) == ReplaceAll(a, target, replacement) + ReplaceAll(b, target, replacement)
    decreases |a|
  {
    var n := |target|;
    var y := ReplaceAll(b, target, replacement);
    if a == [] {
      assert a + b == b;
    } else if |a| >= n && a[..n] == target {
      ReplaceAllMatchFirst(a, b, target, replacement);
      ReplaceAllSplit(a[n..], b, target, replacement);
      ConcatAssoc(replacement, ReplaceAll(a[n..], target, replacement), y);
    } else {
      NoStraddleAtStart(a, b, target);
      if |a + b| >= n {
        ReplaceAllNoMatchFirst(a, b, target, replacement);
        ReplaceAllSplit(a[1..], b, target, replacement);
        if |a| < n {
          ReplaceAllShort(a[1..], target, replacement);
          ReplaceAllShort(a, target, replacement);
          ConcatAssoc([a[0]], a[1..], y);
          assert a == [a[0]] + a[1..];
        } else {
          assert ReplaceAll(a, target, replacement) == [a[0]] + ReplaceAll(a[1..], target, replacement);
          ConcatAssoc([a[0]], ReplaceAll(a[1..], target, replacement), y);
        }
      } else {
        ReplaceAllShort(a + b, target, replacement);
        ReplaceAllShort(a, target, replacement);
        ReplaceAllShort(b, target, replacement);
      }
    }
  }

  lemma ConcatAssoc<T>(a: seq<T>, b: seq<T>, c: seq<T>)
    ensures a + (b + c) == (a + b) + c
  {
  }

  /** An occurrence at the start of `a` is replaced, and scanning resumes after it. */
  lemma ReplaceAllMatchFirst(a: string, b: string, target: string, replacement: string)
    requires target != [] && |a| >= |target| && a[..|target|] == target
    ensures ReplaceAll(a + b, target, replacement) == replacement + ReplaceAll(a[|target|..] + b, target, replacement)
    ensures ReplaceAll(a, target, replacement) == replacement + ReplaceAll(a[|target|..], target, replacement)
  {
    var n := |target|;
    assert (a + b)[..n] == target;
    assert (a + b)[n..] == a[n..] + b;
  }

  /** No occurrence at the start of `a + b`: its first character is copied. */
  lemma ReplaceAllNoMatchFirst(a: string, b: string, target: string, replacement: string)
    requires target != [] && a != [] && |a + b| >= |target|
    requires !((a + b)[..|target|] == target)
    ensures ReplaceAll(a + b, target, replacement) == [a[0]] + ReplaceAll(a[1..] + b, target, replacement)
  {
    ConcatTail(a, b);
  }

  /** Text free of the target's first character is copied unchanged. */
  lemma {:induction false} ReplaceAllPrefixFree(x: string, y: string, target: string, replacement: string)
    requires target != []
    requires target[0] !in x
    ensures ReplaceAll(x + y, target, replacement) == x + ReplaceAll(y, target, replacement)
    decreases |x|
  {
    if x == [] {
      assert x + y == y;
    } else {
      ReplaceAllSkipFirst(x, y, target, replacement);
      ReplaceAllPrefixFree(x[1..], y, target, replacement);
      assert x == [x[0]] + x[1..];
    }
  }

  /** A first character that does not start the target is copied, and scanning resumes after it. */
  lemma ReplaceAllSkipFirst(x: string, y: string, target: string, replacement: string)
    requires target != [] && x != [] && x[0] != target[0]
    ensures ReplaceAll(x + y, target, replacement) == [x[0]] + ReplaceAll(x[1..] + y, target, replacement)
  {
    var n := |target|;
    assert (x + y)[1..] == x[1..] + y;
    if |x + y| >= n {
      assert (x + y)[..n][0] == x[0];
    } else {
      assert x + y == [x[0]] + (x[1..] + y);
      ReplaceAllShort(x[1..] + y, target, replacement);
    }
  }

  lemma ReplaceAllShort(s: string, target: string, replacement: string)
    requires target != [] && |s| < |target|
    ensures ReplaceAll(s, target, replacement) == s
  {
  }

  /** A single-character target: replacing distributes over every concatenation. */
  lemma ReplaceCharConcat(x: string, y: string, ch: char, replacement: string)
    ensures ReplaceAll(x + y, [ch], replacement) == ReplaceAll(x, [ch], replacement) + ReplaceAll(y, [ch], replacement)
  {
    ReplaceAllSplit(x, y, [ch], replacement);
  }

  /** A single-character target: replacing distributes over repetition. */
  lemma {:induction false} ReplaceCharRepeat(w: string, n: nat, ch: char, replacement: string)
    ensures ReplaceAll(Repeat(w, n), [ch], replacement) == Repeat(ReplaceAll(w, [ch], replacement), n)
  {
    if n > 0 {
      ReplaceCharConcat(w, Repeat(w, n - 1), ch, replacement);
      ReplaceCharRepeat(w, n - 1, ch, replacement);
    }
  }

  /** Replacing a character by text without it removes every occurrence of it. */
  lemma {:induction false} ReplaceCharRemoves(s: string, ch: char, replacement: string)
    requires ch !in replacement
    ensures ch !in ReplaceAll(s, [ch], replacement)
    decreases |s|
  {
    if |s| >= 1 {
      ReplaceCharRemoves(s[1..], ch, replacement);
      if s[..1] != [ch] {
        assert s[0] == s[..1][0];
      }
    }
  }

  /** Replacing a run of `n` copies of `c` inside a run of `q * n + r` copies. */
  lemma {:induction false} ReplaceAllRunExact(c: char, q: nat, n: nat, r: nat, replacement: string)
    requires 0 < n && r < n
    ensures ReplaceAll(Rep(c, q * n + r), Rep(c, n), replacement) == Repeat(replacement, q) + Rep(c, r)
  {
    if q == 0 {
      assert Rep(c, q * n + r) == Rep(c, r);
    } else {
      var s := Rep(c, q * n + r);
      assert (q - 1) * n + r + n == q * n + r;
      assert s[..n] == Rep(c, n);
      assert s[n..] == Rep(c, (q - 1) * n + r);
      ReplaceAllRunExact(c, q - 1, n, r, replacement);
    }
  }

  /** A run of `k` copies of `c`: every `n` consecutive copies become one replacement. */
  lemma ReplaceAllRun(c: char, k: nat, n: nat, replacement: string)
    requires 0 < n
    ensures ReplaceAll(Rep(c, k), Rep(c, n), replacement) == Repeat(replacement, k / n) + Rep(c, k % n)
  {
    assert k == (k / n) * n + k % n;
    ReplaceAllRunExact(c, k / n, n, k % n, replacement);
  }

  /** The number of copies of `c` at the start of `s`. */
  function LeadRun(s: string, c: char): (n: nat)
    ensures n <= |s|
  {
    if s == [] || s[0] != c then 0 else 1 + LeadRun(s[1..], c)
  }

  /** `s` starts with `m` copies of `c` exactly when its leading run of `c` is at least `m` long. */
  lemma {:induction false} LeadRunCovers(s: string, c: char, m: nat)
    ensures LeadRun(s, c) >= m <==> OccursAt(s, Rep(c, m), 0)
  {
    if m > 0 && s != [] {
      LeadRunCovers(s[1..], c, m - 1);
      if m <= |s| {
        assert s[..m] == [s[0]] + s[1..][..m - 1];
        assert Rep(c, m) == [c] + Rep(c, m - 1);
      }
    }
  }

  /** The leading run of `c` is followed by the end of `s` or by another character. */
  lemma LeadRunSplit(s: string, c: char)
    ensures s[..LeadRun(s, c)] == Rep(c, LeadRun(s, c))
    ensures LeadRun(s, c) < |s| ==> s[LeadRun(s, c)] != c
  {
    var n := LeadRun(s, c);
    LeadRunCovers(s, c, n);
    LeadRunCovers(s, c, n + 1);
  }

  /** A leading run shorter than the target survives replacing runs of its own letter. */
  lemma {:induction false} LeadRunKept(s: string, c: char, n: nat, replacement: string)
    requires 0 < n && LeadRun(s, c) < n
    ensures LeadRun(ReplaceAll(s, Rep(c, n), replacement), c) == LeadRun(s, c)
    decreases |s|
  {
    if s != [] && |s| >= n {
      if s[0] != c {
        assert s[..n][0] == s[0];
      } else {
        LeadRunCovers(s, c, n);
        LeadRunKept(s[1..], c, n, replacement);
      }
    }
  }

  /**
   * After replacing every run of `n` copies of `c` by text without `c`, no
   * run of `n` copies of `c` is left.
   */
  lemma {:induction false} ReplaceAllLeavesNoRun(s: string, c: char, n: nat, replacement: string)
    requires 0 < n && c !in replacement
    ensures !Contains(ReplaceAll(s, Rep(c, n), replacement), Rep(c, n))
    decreases |s|
  {
    var t := Rep(c, n);
    var r := ReplaceAll(s, t, replacement);
    if |s| < n {
      forall i: nat
        ensures !OccursAt(r, t, i)
      {
      }
    } else if s[..n] == t {
      var x := ReplaceAll(s[n..], t, replacement);
      ReplaceAllLeavesNoRun(s[n..], c, n, replacement);
      forall i: nat
        ensures !OccursAt(r, t, i)
      {
        if i >= |replacement| {
          OccursAtShift(replacement, x, t, i - |replacement|);
        } else if i + n <= |r| {
          assert r[i..i + n][0] == replacement[i];
        }
      }
    } else {
      var x := ReplaceAll(s[1..], t, replacement);
      ReplaceAllLeavesNoRun(s[1..], c, n, replacement);
      assert r == [s[0]] + x;
      forall i: nat
        ensures !OccursAt(r, t, i)
      {
        if i >= 1 {
          OccursAtShift([s[0]], x, t, i - 1);
        } else if s[0] != c {
          if n <= |r| {
            assert r[..n][0] == s[0];
          }
        } else {
          LeadRunCovers(s, c, n);
          LeadRunKept(s[1..], c, n, replacement);
          LeadRunCovers(r, c, n);
        }
      }
    }
  }

  /** Repeating `a` times and then `b` times is repeating `a + b` times. */
  lemma {:induction false} RepeatAdd(w: string, a: nat, b: nat)
    ensures Repeat(w, a) + Repeat(w, b) == Repeat(w, a + b)
    decreases a
  {
    if a > 0 {
      RepeatAdd(w, a - 1, b);
      assert Repeat(w, a) + Repeat(w, b) == w + (Repeat(w, a - 1) + Repeat(w, b));
    }
  }

  /** Repeating the `a`-fold repetition `b` times is repeating `a * b` times. */
  lemma {:induction false} RepeatMul(w: string, a: nat, b: nat)
    ensures Repeat(Repeat(w, a), b) == Repeat(w, a * b)
    decreases b
  {
    if b > 0 {
      RepeatMul(w, a, b - 1);
      RepeatAdd(w, a, a * (b - 1));
      assert a + a * (b - 1) == a * b;
    }
  }

  /** Repeating a single character is a run of it. */
  lemma {:induction false} RepeatChar(c: char, n: nat)
    ensures Repeat([c], n) == Rep(c, n)
    decreases n
  {
    if n > 0 {
      RepeatChar(c, n - 1);
      assert Rep(c, n) == [c] + Rep(c, n - 1);
    }
  }

  /** The leading run of a run of `n` copies of `c` followed by another character is `n` long. */
  lemma {:induction false} LeadRunOfRun(c: char, n: nat, b: string)
    requires b == [] || b[0] != c
    ensures LeadRun(Rep(c, n) + b, c) == n
    decreases n
  {
    if n > 0 {
      assert (Rep(c, n) + b)[1..] == Rep(c, n - 1) + b;
      LeadRunOfRun(c, n - 1, b);
    } else {
      assert Rep(c, n) + b == b;
    }
  }

  /** A character in neither the target nor the replacement is present after replacing exactly when it was before. */
  lemma {:induction false} ReplaceAllKeepsChar(s: string, target: string, replacement: string, ch: char)
    requires target != []
    requires ch !in target && ch !in replacement
    ensures ch in ReplaceAll(s, target, replacement) <==> ch in s
    decreases |s|
  {
    if |s| >= |target| {
      if s[..|target|] == target {
        ReplaceAllKeepsChar(s[|target|..], target, replacement, ch);
        assert s == s[..|target|] + s[|target|..];
      } else {
        ReplaceAllKeepsChar(s[1..], target, replacement, ch);
        assert s == [s[0]] + s[1..];
      }
    }
  }

  /** `c` is never followed by another `c` in `s`. */
  predicate PairFree(s: string, c: char)
  {
    forall i :: 0 <= i < |s| - 1 ==> s[i] != c || s[i + 1] != c
  }

  /** A string is free of "cc" exactly when `c` is never followed by another `c`. */
  lemma NoPair(s: string, c: char)
    ensures PairFree(s, c) <==> !Contains(s, [c, c])
  {
    if PairFree(s, c) {
      forall i: nat
        ensures !OccursAt(s, [c, c], i)
      {
        if i + 2 <= |s| {
          assert s[i..i + 2][0] == s[i] && s[i..i + 2][1] == s[i + 1];
        }
      }
    } else {
      var i :| 0 <= i < |s| - 1 && s[i] == c && s[i + 1] == c;
      assert s[i..i + 2] == [c, c];
      assert OccursAt(s, [c, c], i);
    }
  }

  /**
   * Replacing by non-empty text without `c` joins no two copies of `c`: a
   * string free of "cc" stays free of it.
   */
  lemma {:induction false} ReplaceAllKeepsPairFree(s: string, target: string, replacement: string, c: char)
    requires target != [] && replacement != [] && c !in replacement
    requires PairFree(s, c)
    ensures PairFree(ReplaceAll(s, target, replacement), c)
    decreases |s|
  {
    var r := ReplaceAll(s, target, replacement);
    if |s| < |target| {
    } else if s[..|target|] == target {
      var x := ReplaceAll(s[|target|..], target, replacement);
      ReplaceAllKeepsPairFree(s[|target|..], target, replacement, c);
      assert r == replacement + x;
      forall i | 0 <= i < |r| - 1
        ensures r[i] != c || r[i + 1] != c
      {
        if i < |replacement| {
          assert r[i] == replacement[i];
        } else {
          assert r[i] == x[i - |replacement|] && r[i + 1] == x[i + 1 - |replacement|];
        }
      }
    } else {
      var x := ReplaceAll(s[1..], target, replacement);
      ReplaceAllKeepsPairFree(s[1..], target, replacement, c);
      assert r == [s[0]] + x;
      ReplaceAllFirst(s[1..], target, replacement);
      forall i | 0 <= i < |r| - 1
        ensures r[i] != c || r[i + 1] != c
      {
        if i == 0 {
          assert r[1] == x[0];
          assert s[0] != c || s[1] != c;
        } else {
          assert r[i] == x[i - 1] && r[i + 1] == x[i];
        }
      }
    }
  }
}
