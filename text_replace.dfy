/**
 * Java's `String.replace` and `String.replaceAll` as one scanner.
 *
 * Both scan the text from left to right: at each position the pattern is tried; on a
 * match the matched text is replaced and scanning resumes right after it (so matches never
 * overlap), otherwise one character is copied and scanning resumes at the next position.
 * A `Matcher` says, for the text that remains, whether the pattern matches at its start,
 * how much it consumes and what it is replaced by.  A literal `replace` is the matcher
 * `Literal`; each regular expression of the translator is a hand-written matcher.
 */
module TextReplace {
  import opened Wrappers

  /** The shorter of `a` and `b` is a prefix of the other. */
  predicate Compatible(a: string, b: string)
    decreases |a|
  {
    |a| == 0 || |b| == 0 || (a[0] == b[0] && Compatible(a[1..], b[1..]))
  }

  /** `s` begins with `p` (Java `s.startsWith(p)`). */
  predicate StartsWith(s: string, p: string) {
    |p| <= |s| && Compatible(s, p)
  }

  /** `q` occurs in `s` (Java `s.contains(q)`). */
  predicate Occurs(s: string, q: string)
    decreases |s|
  {
    StartsWith(s, q) || (|s| > 0 && Occurs(s[1..], q))
  }

  /** No occurrence of `q` can begin inside `x`, whatever text follows `x`. */
  predicate Inert(x: string, q: string)
    decreases |x|
  {
    |x| == 0 || (!Compatible(x, q) && Inert(x[1..], q))
  }

  /** A match at the scan position: how many characters it consumes and their replacement. */
  datatype Match = Match(length: nat, replacement: string)

  /** A pattern: whether it matches at the start of the remaining text, and how. */
  type Matcher = string -> Option<Match>

  /** Every match consumes at least one character and no more than there are. */
  ghost predicate WellFormed(m: Matcher) {
    forall s :: m(s).Some? ==> 0 < m(s).value.length <= |s|
  }

  /** Java's replace-all loop: leftmost, non-overlapping, left to right. */
  function ReplaceAll(s: string, m: Matcher): string
    requires WellFormed(m)
    decreases |s|
  {
    if s == [] then []
    else match m(s)
      case Some(hit) => hit.replacement + ReplaceAll(s[hit.length..], m)
      case None => [s[0]] + ReplaceAll(s[1..], m)
  }

  /** The literal pattern `pat` with replacement `rep`. */
  function LiteralMatch(pat: string, rep: string, s: string): Option<Match> {
    if |pat| > 0 && StartsWith(s, pat) then Some(Match(|pat|, rep)) else None
  }

  function Literal(pat: string, rep: string): (m: Matcher)
    ensures forall s :: m(s) == LiteralMatch(pat, rep, s)
    ensures WellFormed(m)
  {
    s => LiteralMatch(pat, rep, s)
  }

  /** Java `s.replace(pat, rep)` for a non-empty target `pat`. */
  function Replace(s: string, pat: string, rep: string): string
    requires |pat| > 0
  {
    ReplaceAll(s, Literal(pat, rep))
  }

  // ---------------------------------------------------------------------------
  // Facts about prefixes and occurrences

  lemma {:induction false} StartsWithSlice(s: string, p: string)
    ensures StartsWith(s, p) <==> |p| <= |s| && s[..|p|] == p
    decreases |p|
  {
    if |p| > 0 && |p| <= |s| {
      StartsWithSlice(s[1..], p[1..]);
      assert s[1..][..|p| - 1] == s[1..|p|];
      assert s[..|p|] == [s[0]] + s[1..|p|];
      assert p == [p[0]] + p[1..];
    }
  }

  lemma {:induction false} CompatibleSymmetric(a: string, b: string)
    ensures Compatible(a, b) <==> Compatible(b, a)
    decreases |a|
  {
    if |a| > 0 && |b| > 0 {
      CompatibleSymmetric(a[1..], b[1..]);
    }
  }

  lemma StartsWithConcat(x: string, t: string, q: string)
    ensures StartsWith(x + t, q) ==> Compatible(x, q)
  {
    if StartsWith(x + t, q) {
      CompatibleConcat(x, t, q);
    }
  }

  lemma {:induction false} CompatibleConcat(x: string, t: string, q: string)
    requires Compatible(x + t, q)
    ensures Compatible(x, q)
    decreases |x|
  {
    if |x| > 0 && |q| > 0 {
      assert (x + t)[1..] == x[1..] + t;
      CompatibleConcat(x[1..], t, q[1..]);
    }
  }

  /** `p` is a prefix of `p + t`. */
  lemma {:induction false} StartsWithPrefix(p: string, t: string)
    ensures StartsWith(p + t, p)
  {
    StartsWithSlice(p + t, p);
    assert (p + t)[..|p|] == p;
  }

  /** A text cannot start with two incompatible patterns. */
  lemma {:induction false} StartsWithBoth(s: string, p: string, q: string)
    requires StartsWith(s, p) && StartsWith(s, q)
    ensures Compatible(p, q)
    decreases |p|
  {
    if |p| > 0 && |q| > 0 {
      StartsWithBoth(s[1..], p[1..], q[1..]);
    }
  }

  /** An occurrence in a suffix is an occurrence in the whole text. */
  lemma {:induction false} OccursSuffix(s: string, q: string, n: nat)
    requires n <= |s|
    requires Occurs(s[n..], q)
    ensures Occurs(s, q)
    decreases n
  {
    if n > 0 {
      assert s[1..][n - 1..] == s[n..];
      OccursSuffix(s[1..], q, n - 1);
    }
  }

  /** A suffix of a text without `q` has no `q` either. */
  lemma AbsentSuffix(s: string, q: string, n: nat)
    requires n <= |s| && !Occurs(s, q)
    ensures !Occurs(s[n..], q)
  {
    if Occurs(s[n..], q) {
      OccursSuffix(s, q, n);
    }
  }

  /** A text whose characters all differ from the first character of `q` does not contain `q`. */
  lemma {:induction false} HeadAbsent(s: string, q: string)
    requires |q| > 0 && q[0] !in s
    ensures !Occurs(s, q)
    decreases |s|
  {
    if |s| > 0 {
      assert forall c :: c in s[1..] ==> c in s;
      HeadAbsent(s[1..], q);
    }
  }

  /** A text whose characters all differ from the first character of `q` is inert for `q`. */
  lemma {:induction false} HeadInert(x: string, q: string)
    requires |q| > 0 && q[0] !in x
    ensures Inert(x, q)
    decreases |x|
  {
    if |x| > 0 {
      assert forall c :: c in x[1..] ==> c in x;
      HeadInert(x[1..], q);
    }
  }

  /** An occurrence of `q` in `x + t` lies in `t` when none can begin inside `x`. */
  lemma {:induction false} InertOccurs(x: string, t: string, q: string)
    requires Inert(x, q)
    requires Occurs(x + t, q)
    ensures Occurs(t, q)
    decreases |x|
  {
    if |x| == 0 {
      assert x + t == t;
    } else {
      StartsWithConcat(x, t, q);
      assert (x + t)[1..] == x[1..] + t;
      InertOccurs(x[1..], t, q);
    }
  }

  // ---------------------------------------------------------------------------
  // What the replace-all loop can and cannot create

  /** Every replacement `m` can produce is inert for `w`, and so is every suffix of `w`. */
  ghost predicate OutputsAvoid(m: Matcher, w: string) {
    forall s :: m(s).Some? ==> Inert(w, m(s).value.replacement)
  }

  /** Every replacement `m` can produce is inert for `q`. */
  ghost predicate OutputsInert(m: Matcher, q: string) {
    forall s :: m(s).Some? ==> Inert(m(s).value.replacement, q)
  }

  /** Every occurrence of `q` in `s` begins where `m` matches. */
  ghost predicate Caught(s: string, m: Matcher, q: string)
    decreases |s|
  {
    (StartsWith(s, q) ==> m(s).Some?) && (|s| > 0 ==> Caught(s[1..], m, q))
  }

  lemma {:induction false} CaughtSuffix(s: string, m: Matcher, q: string, n: nat)
    requires n <= |s| && Caught(s, m, q)
    ensures Caught(s[n..], m, q)
    decreases n
  {
    if n > 0 {
      assert s[1..][n - 1..] == s[n..];
      CaughtSuffix(s[1..], m, q, n - 1);
    }
  }

  lemma {:induction false} AbsentIsCaught(s: string, m: Matcher, q: string)
    requires !Occurs(s, q)
    ensures Caught(s, m, q)
    decreases |s|
  {
    if |s| > 0 {
      AbsentIsCaught(s[1..], m, q);
    }
  }

  lemma {:induction false} LiteralCatches(s: string, pat: string, rep: string)
    requires |pat| > 0
    ensures Caught(s, Literal(pat, rep), pat)
    decreases |s|
  {
    if |s| > 0 {
      LiteralCatches(s[1..], pat, rep);
    }
  }

  /**
   * When the output starts with `w` and no replacement can be entered while reading `w`,
   * the text the output came from starts with `w` as well: `w` was copied character by
   * character.
   */
  lemma {:induction false} KeptPrefix(t: string, m: Matcher, w: string)
    requires WellFormed(m)
    requires OutputsAvoid(m, w)
    requires StartsWith(ReplaceAll(t, m), w)
    ensures StartsWith(t, w)
    decreases |t|
  {
    if |w| > 0 && t != [] {
      match m(t)
      case Some(hit) =>
        StartsWithConcat(hit.replacement, ReplaceAll(t[hit.length..], m), w);
        CompatibleSymmetric(hit.replacement, w);
        assert false;
      case None =>
        assert ReplaceAll(t, m) == [t[0]] + ReplaceAll(t[1..], m);
        assert OutputsAvoid(m, w[1..]) by {
          forall s | m(s).Some? ensures Inert(w[1..], m(s).value.replacement) {
            assert Inert(w, m(s).value.replacement);
          }
        }
        KeptPrefix(t[1..], m, w[1..]);
    }
  }

  /**
   * The replace-all loop creates no occurrence of `q`: provided no occurrence can begin
   * inside a replacement or run into one, and every occurrence already in `s` is one the
   * pattern consumes, the output does not contain `q`.
   */
  lemma {:induction false} ReplaceAllAvoids(s: string, m: Matcher, q: string)
    requires WellFormed(m) && |q| > 0
    requires OutputsInert(m, q) && OutputsAvoid(m, q[1..])
    requires Caught(s, m, q)
    ensures !Occurs(ReplaceAll(s, m), q)
    decreases |s|
  {
    if s != [] {
      match m(s)
      case Some(hit) =>
        var rest := s[hit.length..];
        CaughtSuffix(s, m, q, hit.length);
        ReplaceAllAvoids(rest, m, q);
        if Occurs(ReplaceAll(s, m), q) {
          InertOccurs(hit.replacement, ReplaceAll(rest, m), q);
        }
      case None =>
        var tail := ReplaceAll(s[1..], m);
        ReplaceAllAvoids(s[1..], m, q);
        assert ReplaceAll(s, m) == [s[0]] + tail;
        if StartsWith([s[0]] + tail, q) {
          assert ([s[0]] + tail)[1..] == tail;
          KeptPrefix(s[1..], m, q[1..]);
        }
    }
  }

  // ---------------------------------------------------------------------------
  // Java `String.replace`

  /** Replacing `pat` leaves no occurrence of `pat` when the replacement cannot re-create one. */
  lemma {:induction false} ReplaceRemoves(s: string, pat: string, rep: string)
    requires |pat| > 0 && Inert(rep, pat) && Inert(pat[1..], rep)
    ensures !Occurs(Replace(s, pat, rep), pat)
  {
    LiteralCatches(s, pat, rep);
    ReplaceAllAvoids(s, Literal(pat, rep), pat);
  }

  /** Replacing `pat` creates no occurrence of a string `q` that the replacement cannot take part in. */
  lemma {:induction false} ReplaceKeepsAbsent(s: string, pat: string, rep: string, q: string)
    requires |pat| > 0 && |q| > 0 && Inert(rep, q) && Inert(q[1..], rep)
    requires !Occurs(s, q)
    ensures !Occurs(Replace(s, pat, rep), q)
  {
    AbsentIsCaught(s, Literal(pat, rep), q);
    ReplaceAllAvoids(s, Literal(pat, rep), q);
  }

  /** A text without `pat` is left unchanged. */
  lemma {:induction false} ReplaceAbsent(s: string, pat: string, rep: string)
    requires |pat| > 0 && !Occurs(s, pat)
    ensures Replace(s, pat, rep) == s
    decreases |s|
  {
    if s != [] {
      ReplaceAbsent(s[1..], pat, rep);
      assert s == [s[0]] + s[1..];
    }
  }

  /**
   * `replace` rewrites the leftmost occurrence first and resumes after it: when `pat`
   * occurs at `i` and nowhere earlier, the text before `i` is copied, the occurrence becomes
   * `rep`, and the rest is processed on its own.
   */
  lemma {:induction false} ReplaceLeftmost(s: string, pat: string, rep: string, i: nat)
    requires |pat| > 0 && i + |pat| <= |s|
    requires s[i..i + |pat|] == pat
    requires !Occurs(s[..i + |pat| - 1], pat)
    ensures Replace(s, pat, rep) == s[..i] + rep + Replace(s[i + |pat|..], pat, rep)
    decreases i
  {
    if i == 0 {
      LeftmostAtHead(s, pat, rep);
    } else {
      ShiftAbsent(s, pat, i);
      ShiftSlices(s, pat, i);
      ReplaceLeftmost(s[1..], pat, rep, i - 1);
      LeftmostShifted(s, pat, rep, i);
    }
  }

  /** The first `i + |pat| - 1` characters hold no `pat`, so neither do the ones after the first. */
  lemma ShiftAbsent(s: string, pat: string, i: nat)
    requires |pat| > 0 && 0 < i && i + |pat| <= |s|
    requires !Occurs(s[..i + |pat| - 1], pat)
    ensures !Occurs(s[1..][..i - 1 + |pat| - 1], pat)
  {
    var n := i + |pat| - 1;
    assert !Occurs(s[..n][1..], pat);
    assert s[..n][1..] == s[1..][..n - 1];
  }

  /** The slices at and after an occurrence at `i`, seen from the text after the first character. */
  lemma ShiftSlices(s: string, pat: string, i: nat)
    requires 0 < i && i + |pat| <= |s|
    ensures s[1..][i - 1..i - 1 + |pat|] == s[i..i + |pat|]
    ensures s[1..][i - 1 + |pat|..] == s[i + |pat|..]
  {
  }

  /** A text whose first `n` characters hold no `pat` does not start with `pat`. */
  lemma NoEarlierStart(s: string, pat: string, n: nat)
    requires |pat| <= n <= |s| && !Occurs(s[..n], pat)
    ensures !StartsWith(s, pat)
  {
    StartsWithSlice(s, pat);
    StartsWithSlice(s[..n], pat);
    assert s[..n][..|pat|] == s[..|pat|];
  }


  lemma LeftmostAtHead(s: string, pat: string, rep: string)
    requires 0 < |pat| <= |s| && s[0..|pat|] == pat
    ensures Replace(s, pat, rep) == s[..0] + rep + Replace(s[0 + |pat|..], pat, rep)
  {
    StartsWithSlice(s, pat);
  }

  /** The leftmost-occurrence split of the text after the first character carries over to the text. */
  lemma LeftmostShifted(s: string, pat: string, rep: string, i: nat)
    requires |pat| > 0 && 0 < i && i + |pat| <= |s| && !Occurs(s[..i + |pat| - 1], pat)
    requires Replace(s[1..], pat, rep) == s[1..][..i - 1] + rep + Replace(s[1..][i - 1 + |pat|..], pat, rep)
    ensures Replace(s, pat, rep) == s[..i] + rep + Replace(s[i + |pat|..], pat, rep)
  {
    NoEarlierStart(s, pat, i + |pat| - 1);
    ShiftSlices(s, pat, i);
    LeftmostCopy(s, pat, rep, i, Replace(s[i + |pat|..], pat, rep));
  }

  lemma LeftmostCopy(s: string, pat: string, rep: string, i: nat, after: string)
    requires |pat| > 0 && 0 < i <= |s| && !StartsWith(s, pat)
    requires Replace(s[1..], pat, rep) == s[1..][..i - 1] + rep + after
    ensures Replace(s, pat, rep) == s[..i] + rep + after
  {
    var x := s[1..][..i - 1];
    ReplaceCopiesFirst(s, pat, rep);
    assert s[..i] == [s[0]] + x;
    Regroup(s[0], x, rep, after);
  }

  lemma Regroup(c: char, x: string, rep: string, after: string)
    ensures [c] + (x + rep + after) == ([c] + x) + rep + after
  {
  }

  /** Where `pat` does not start the text, `replace` copies the first character. */
  lemma ReplaceSkip(s: string, pat: string, rep: string)
    requires |s| > 0 && !StartsWith(s, pat)
    ensures Replace(s, pat, rep) == [s[0]] + Replace(s[1..], pat, rep)
  {
  }

  /** Where `m` matches, its replacement comes first and the scan resumes after the match. */
  lemma ReplaceAllStep(s: string, m: Matcher, n: nat, rep: string)
    requires WellFormed(m) && m(s) == Some(Match(n, rep))
    ensures ReplaceAll(s, m) == rep + ReplaceAll(s[n..], m)
  {
  }

  /** Where `pat` does not start, `replace` copies one character. */
  lemma ReplaceCopiesFirst(s: string, pat: string, rep: string)
    requires |pat| > 0 && |s| > 0 && !StartsWith(s, pat)
    ensures Replace(s, pat, rep) == [s[0]] + Replace(s[1..], pat, rep)
  {
  }

  /** Text that cannot hold the start of `pat` passes through `replace` untouched. */
  lemma {:induction false} ReplaceInertPrefix(x: string, t: string, pat: string, rep: string)
    requires |pat| > 0 && Inert(x, pat)
    ensures Replace(x + t, pat, rep) == x + Replace(t, pat, rep)
    decreases |x|
  {
    if |x| == 0 {
      assert x + t == t;
    } else {
      ReplaceInertPrefix(x[1..], t, pat, rep);
      InertPrefixStep(x, t, pat, rep);
    }
  }

  /** One step of the induction above: the first character of an inert prefix is copied. */
  lemma InertPrefixStep(x: string, t: string, pat: string, rep: string)
    requires |x| > 0 && !Compatible(x, pat)
    requires Replace(x[1..] + t, pat, rep) == x[1..] + Replace(t, pat, rep)
    ensures Replace(x + t, pat, rep) == x + Replace(t, pat, rep)
  {
    InertPrefixSkip(x, t, pat, rep);
    ConsRegroup(x, Replace(t, pat, rep));
  }

  lemma InertPrefixSkip(x: string, t: string, pat: string, rep: string)
    requires |x| > 0 && !Compatible(x, pat)
    ensures Replace(x + t, pat, rep) == [x[0]] + Replace(x[1..] + t, pat, rep)
  {
    StartsWithConcat(x, t, pat);
    ReplaceSkip(x + t, pat, rep);
    assert (x + t)[1..] == x[1..] + t;
  }

  lemma ConsRegroup(x: string, r: string)
    requires |x| > 0
    ensures [x[0]] + (x[1..] + r) == x + r
  {
    assert x == [x[0]] + x[1..];
  }



  /** A replacement that starts the text is the first thing `replace` rewrites. */
  lemma {:induction false} ReplaceAtStart(p: string, t: string, rep: string)
    requires |p| > 0
    ensures Replace(p + t, p, rep) == rep + Replace(t, p, rep)
  {
    StartsWithPrefix(p, t);
    assert (p + t)[|p|..] == t;
  }

  /**
   * Replacing `a` by `b` and then `b` by `a` gives the text back, provided the text holds no
   * `b` of its own and `b` cannot overlap itself.
   */
  lemma {:induction false} ReplaceRoundTrip(s: string, a: string, b: string)
    requires |a| > 0 && |b| > 0 && Inert(b[1..], b)
    requires !Occurs(s, b)
    ensures Replace(Replace(s, a, b), b, a) == s
    decreases |s|
  {
    if s != [] {
      if StartsWith(s, a) {
        var rest := s[|a|..];
        if Occurs(rest, b) {
          OccursSuffix(s, b, |a|);
        }
        ReplaceRoundTrip(rest, a, b);
        ReplaceAtStart(b, Replace(rest, a, b), a);
        StartsWithSlice(s, a);
        assert s == a + rest;
      } else {
        var tail := Replace(s[1..], a, b);
        assert Replace(s, a, b) == [s[0]] + tail;
        if StartsWith([s[0]] + tail, b) {
          assert ([s[0]] + tail)[1..] == tail;
          assert OutputsAvoid(Literal(a, b), b[1..]);
          KeptPrefix(s[1..], Literal(a, b), b[1..]);
          assert false;
        }
        ReplaceRoundTrip(s[1..], a, b);
        assert s == [s[0]] + s[1..];
      }
    }
  }

  lemma {:induction false} CommuteStep(y: string, p1: string, r1: string, p2: string, r2: string)
    requires |p1| > 0 && |p2| > 0
    requires Inert(p1, p2) && Inert(r1, p2)
    requires StartsWith(y, p1)
    ensures Replace(Replace(y, p1, r1), p2, r2) == r1 + Replace(Replace(y[|p1|..], p1, r1), p2, r2)
    ensures Replace(Replace(y, p2, r2), p1, r1) == r1 + Replace(Replace(y[|p1|..], p2, r2), p1, r1)
  {
    var rest := y[|p1|..];
    StartsWithSlice(y, p1);
    assert y == p1 + rest;
    ReplaceInertPrefix(r1, Replace(rest, p1, r1), p2, r2);
    ReplaceInertPrefix(p1, rest, p2, r2);
    ReplaceAtStart(p1, Replace(rest, p2, r2), r1);
  }

  lemma {:induction false} CopyStep(y: string, p1: string, r1: string, p2: string)
    requires |p1| > 0 && |p2| > 0 && |y| > 0
    requires Inert(p2[1..], r1)
    requires !StartsWith(y, p1) && !StartsWith(y, p2)
    ensures !StartsWith(Replace(y, p1, r1), p2)
    ensures Replace(y, p1, r1) == [y[0]] + Replace(y[1..], p1, r1)
  {
    var tail := Replace(y[1..], p1, r1);
    if StartsWith([y[0]] + tail, p2) {
      assert ([y[0]] + tail)[1..] == tail;
      assert OutputsAvoid(Literal(p1, r1), p2[1..]);
      KeptPrefix(y[1..], Literal(p1, r1), p2[1..]);
    }
  }

  /**
   * Two replacements whose targets and replacements cannot interfere with each other may
   * be applied in either order.
   */
  lemma {:induction false} ReplaceCommute(y: string, p1: string, r1: string, p2: string, r2: string)
    requires |p1| > 0 && |p2| > 0
    requires Inert(p1, p2) && Inert(p2, p1)
    requires Inert(r1, p2) && Inert(r2, p1)
    requires Inert(p2[1..], r1) && Inert(p1[1..], r2)
    ensures Replace(Replace(y, p1, r1), p2, r2) == Replace(Replace(y, p2, r2), p1, r1)
    decreases |y|
  {
    if y != [] {
      if StartsWith(y, p1) {
        CommuteStep(y, p1, r1, p2, r2);
        ReplaceCommute(y[|p1|..], p1, r1, p2, r2);
      } else if StartsWith(y, p2) {
        CommuteStep(y, p2, r2, p1, r1);
        ReplaceCommute(y[|p2|..], p1, r1, p2, r2);
      } else {
        CopyStep(y, p1, r1, p2);
        CopyStep(y, p2, r2, p1);
        var a := Replace(y[1..], p1, r1);
        var b := Replace(y[1..], p2, r2);
        assert ([y[0]] + a)[1..] == a;
        assert ([y[0]] + b)[1..] == b;
        ReplaceCommute(y[1..], p1, r1, p2, r2);
      }
    }
  }

  /**
   * Replacing the two-character string `[c, d]` by `[d]` (Java's unescaping of `\<`) leaves
   * no `[c, d]` behind, unless the text held a doubled `c`.
   */
  lemma {:induction false} UnescapeRemoves(s: string, c: char, d: char)
    requires c != d
    requires !Occurs(s, [c, c])
    ensures !Occurs(Replace(s, [c, d], [d]), [c, d])
    decreases |s|
  {
    if s != [] {
      if StartsWith(s, [c, d]) {
        AbsentSuffix(s, [c, c], 2);
        UnescapeRemoves(s[2..], c, d);
      } else {
        var tail := Replace(s[1..], [c, d], [d]);
        UnescapeRemoves(s[1..], c, d);
        assert Replace(s, [c, d], [d]) == [s[0]] + tail;
        if StartsWith([s[0]] + tail, [c, d]) {
          assert ([s[0]] + tail)[1..] == tail;
          assert [c, d][1..] == [d];
          assert s[0] == c && Compatible(tail, [d]) && |tail| > 0;
          assert tail[0] == d;
          if StartsWith(s[1..], [c, d]) {
            assert StartsWith(s, [c, c]);
          } else {
            assert |s| >= 2;
            assert tail[0] == s[1];
            assert StartsWith(s, [c, d]);
          }
        }
      }
    }
  }

  // ---------------------------------------------------------------------------
  // Matchers that only change the case of one letter

  /** `y` is `x` with some of its `a` characters turned into `b`. */
  predicate Recased(x: string, y: string, a: char, b: char) {
    |x| == |y| && forall i :: 0 <= i < |x| ==> y[i] == x[i] || (x[i] == a && y[i] == b)
  }

  /** Every replacement of `m` is the text it consumed with some `a` turned into `b`. */
  ghost predicate OutputsRecase(m: Matcher, a: char, b: char) {
    forall s :: m(s).Some? && m(s).value.length <= |s| ==>
      Recased(s[..m(s).value.length], m(s).value.replacement, a, b)
  }

  lemma RecasedConcat(x1: string, y1: string, x2: string, y2: string, a: char, b: char)
    requires Recased(x1, y1, a, b) && Recased(x2, y2, a, b)
    ensures Recased(x1 + x2, y1 + y2, a, b)
  {
    forall i | 0 <= i < |x1 + x2|
      ensures (y1 + y2)[i] == (x1 + x2)[i] || ((x1 + x2)[i] == a && (y1 + y2)[i] == b)
    {
      if i >= |x1| {
        assert (x1 + x2)[i] == x2[i - |x1|] && (y1 + y2)[i] == y2[i - |x1|];
      }
    }
  }

  /** A replace-all whose matches only recase `a` into `b` recases the whole text. */
  lemma {:induction false} ReplaceAllRecases(s: string, m: Matcher, a: char, b: char)
    requires WellFormed(m) && OutputsRecase(m, a, b)
    ensures Recased(s, ReplaceAll(s, m), a, b)
    decreases |s|
  {
    if s != [] {
      match m(s)
      case Some(hit) =>
        ReplaceAllRecases(s[hit.length..], m, a, b);
        RecasedHit(s, m, a, b);
        RecasedJoin(s, hit.length, hit.replacement, ReplaceAll(s[hit.length..], m), a, b);
      case None =>
        ReplaceAllRecases(s[1..], m, a, b);
        RecasedOne(s, a, b);
        RecasedJoin(s, 1, [s[0]], ReplaceAll(s[1..], m), a, b);
    }
  }

  /** The replacement of a match of `m` is the text it consumed, recased. */
  lemma RecasedHit(s: string, m: Matcher, a: char, b: char)
    requires WellFormed(m) && OutputsRecase(m, a, b) && m(s).Some?
    ensures m(s).value.length <= |s| && Recased(s[..m(s).value.length], m(s).value.replacement, a, b)
  {
  }

  lemma RecasedOne(s: string, a: char, b: char)
    requires |s| > 0
    ensures Recased(s[..1], [s[0]], a, b)
  {
  }

  /** Recasing the text before and after `k` recases the whole text. */
  lemma RecasedJoin(s: string, k: nat, y1: string, y2: string, a: char, b: char)
    requires k <= |s| && Recased(s[..k], y1, a, b) && Recased(s[k..], y2, a, b)
    ensures Recased(s, y1 + y2, a, b)
  {
    RecasedConcat(s[..k], y1, s[k..], y2, a, b);
    assert s[..k] + s[k..] == s;
  }

  lemma RecasedStartsWith(x: string, y: string, a: char, b: char, q: string)
    requires Recased(x, y, a, b) && b !in q
    requires StartsWith(y, q)
    ensures StartsWith(x, q)
  {
    StartsWithSlice(y, q);
    StartsWithSlice(x, q);
    forall i | 0 <= i < |q| ensures x[..|q|][i] == q[i] {
      assert y[..|q|][i] == q[i];
    }
  }

  /** Recasing into `b` cannot create an occurrence of a `q` that has no `b`. */
  lemma {:induction false} RecasedKeepsAbsent(x: string, y: string, a: char, b: char, q: string)
    requires Recased(x, y, a, b) && b !in q
    requires !Occurs(x, q)
    ensures !Occurs(y, q)
    decreases |x|
  {
    if StartsWith(y, q) {
      RecasedStartsWith(x, y, a, b, q);
    }
    if |x| > 0 {
      assert Recased(x[1..], y[1..], a, b) by {
        forall i | 0 <= i < |x| - 1
          ensures y[1..][i] == x[1..][i] || (x[1..][i] == a && y[1..][i] == b)
        {
          assert x[1..][i] == x[i + 1] && y[1..][i] == y[i + 1];
        }
      }
      RecasedKeepsAbsent(x[1..], y[1..], a, b, q);
    }
  }

  // ---------------------------------------------------------------------------
  // Matchers that cannot fire

  /** A matcher that only fires where `q` starts leaves a text without `q` unchanged. */
  lemma {:induction false} ReplaceAllNeedsPrefix(s: string, m: Matcher, q: string)
    requires WellFormed(m)
    requires forall t :: m(t).Some? ==> StartsWith(t, q)
    requires !Occurs(s, q)
    ensures ReplaceAll(s, m) == s
    decreases |s|
  {
    if s != [] {
      ReplaceAllNeedsPrefix(s[1..], m, q);
      assert [s[0]] + s[1..] == s;
    }
  }

  /** A matcher that only fires on text holding `c` leaves a text without `c` unchanged. */
  lemma {:induction false} ReplaceAllNeedsChar(s: string, m: Matcher, c: char)
    requires WellFormed(m)
    requires forall t :: m(t).Some? ==> c in t
    requires c !in s
    ensures ReplaceAll(s, m) == s
    decreases |s|
  {
    if s != [] {
      assert forall d :: d in s[1..] ==> d in s;
      ReplaceAllNeedsChar(s[1..], m, c);
      assert [s[0]] + s[1..] == s;
    }
  }

  /**
   * A matcher that only fires where `q` starts copies a prefix `x` inside which no `q` can
   * begin, and then scans the rest as if `x` were not there.
   */
  lemma {:induction false} ReplaceAllSkipsInert(x: string, s: string, m: Matcher, q: string)
    requires WellFormed(m)
    requires forall t :: m(t).Some? ==> StartsWith(t, q)
    requires Inert(x, q)
    ensures ReplaceAll(x + s, m) == x + ReplaceAll(s, m)
    decreases |x|
  {
    if x == [] {
      assert x + s == s;
    } else {
      InertHeadCopied(x, s, m, q);
      ReplaceAllSkipsInert(x[1..], s, m, q);
      ConsRegroup(x, ReplaceAll(s, m));
    }
  }

  /** Where no `q` can begin, the replace-all loop copies one character. */
  lemma InertHeadCopied(x: string, s: string, m: Matcher, q: string)
    requires WellFormed(m)
    requires forall t :: m(t).Some? ==> StartsWith(t, q)
    requires |x| > 0 && !Compatible(x, q)
    ensures ReplaceAll(x + s, m) == [x[0]] + ReplaceAll(x[1..] + s, m)
  {
    StartsWithConcat(x, s, q);
    assert (x + s)[1..] == x[1..] + s;
  }

  /** Text shorter than `q` cannot hold it. */
  lemma {:induction false} ShortAbsent(s: string, q: string)
    requires |s| < |q|
    ensures !Occurs(s, q)
    decreases |s|
  {
    if |s| > 0 {
      ShortAbsent(s[1..], q);
    }
  }

  /** A text lacking some character of `q` cannot hold `q`. */
  lemma {:induction false} MissingChar(s: string, q: string, k: nat)
    requires k < |q| && q[k] !in s
    ensures !Occurs(s, q)
    decreases |s|
  {
    if StartsWith(s, q) {
      StartsWithHolds(s, q, k);
    }
    if |s| > 0 {
      assert forall c :: c in s[1..] ==> c in s;
      MissingChar(s[1..], q, k);
    }
  }

  lemma StartsWithHolds(s: string, q: string, k: nat)
    requires StartsWith(s, q) && k < |q|
    ensures s[k] == q[k]
  {
    StartsWithSlice(s, q);
    assert s[..|q|][k] == s[k];
  }

  /** A literal replace keeps a `q` that it can neither start nor end inside. */
  lemma SwapKeeps(s: string, pat: string, rep: string, q: string)
    requires |pat| > 0 && |q| > 0 && |rep| > 0
    requires q[0] !in rep && rep[0] !in q[1..]
    requires !Occurs(s, q)
    ensures !Occurs(Replace(s, pat, rep), q)
  {
    HeadInert(rep, q);
    HeadInert(q[1..], rep);
    ReplaceKeepsAbsent(s, pat, rep, q);
  }

  /** Replacing a whole text that is exactly `p`. */
  lemma ReplaceWhole(p: string, rep: string)
    requires |p| > 0
    ensures Replace(p, p, rep) == rep
  {
    ReplaceAtStart(p, [], rep);
    assert p + [] == p && rep + [] == rep;
  }
}

/** Replacing the two sides of a boundary separately. */
module TextSplit {
  import opened TextReplace

  /** No occurrence of `pat` starts inside `x` and runs on into the text `y` that follows it. */
  predicate NoStraddle(x: string, y: string, pat: string)
    decreases |x|
  {
    |x| == 0 || ((|x| < |pat| ==> !StartsWith(x + y, pat)) && NoStraddle(x[1..], y, pat))
  }

  /** Nothing straddles into `y` when the first character of `y` can only be the head of `pat`. */
  lemma {:induction false} NoStraddleAt(x: string, y: string, pat: string)
    requires |pat| > 0 && |y| > 0 && y[0] !in pat[1..]
    ensures NoStraddle(x, y, pat)
    decreases |x|
  {
    if |x| > 0 {
      if |x| < |pat| && StartsWith(x + y, pat) {
        assert pat[|x|] == pat[1..][|x| - 1];
        StartsWithHolds(x + y, pat, |x|);
      }
      NoStraddleAt(x[1..], y, pat);
    }
  }

  /** Dropping characters from the front keeps the straddle-freedom. */
  lemma {:induction false} NoStraddleSuffix(x: string, y: string, pat: string, n: nat)
    requires n <= |x| && NoStraddle(x, y, pat)
    ensures NoStraddle(x[n..], y, pat)
    decreases n
  {
    if n > 0 {
      assert x[1..][n - 1..] == x[n..];
      NoStraddleSuffix(x[1..], y, pat, n - 1);
    }
  }

  /**
   * `replace` works on `x` and `y` separately when no occurrence of `pat` straddles the
   * point where they meet.
   */
  lemma {:induction false} ReplaceSplit(x: string, y: string, pat: string, rep: string)
    requires |pat| > 0 && NoStraddle(x, y, pat)
    ensures Replace(x + y, pat, rep) == Replace(x, pat, rep) + Replace(y, pat, rep)
    decreases |x|
  {
    if |x| == 0 {
      assert x + y == y;
    } else if StartsWith(x + y, pat) {
      NoStraddleSuffix(x, y, pat, |pat|);
      ReplaceSplit(x[|pat|..], y, pat, rep);
      SplitMatchStep(x, y, pat, rep);
    } else {
      ReplaceSplit(x[1..], y, pat, rep);
      SplitSkipStep(x, y, pat, rep);
    }
  }

  /** The match at the head of `x + y` lies inside `x`, and both scans resume after it. */
  lemma SplitMatchStep(x: string, y: string, pat: string, rep: string)
    requires 0 < |pat| <= |x| && StartsWith(x + y, pat)
    requires Replace(x[|pat|..] + y, pat, rep) == Replace(x[|pat|..], pat, rep) + Replace(y, pat, rep)
    ensures Replace(x + y, pat, rep) == Replace(x, pat, rep) + Replace(y, pat, rep)
  {
    StartsWithSlice(x + y, pat);
    StartsWithSlice(x, pat);
    assert (x + y)[..|pat|] == x[..|pat|];
    assert (x + y)[|pat|..] == x[|pat|..] + y;
  }

  /** Nothing matches at the head of `x + y`, so both scans copy the first character. */
  lemma SplitSkipStep(x: string, y: string, pat: string, rep: string)
    requires |pat| > 0 && |x| > 0 && !StartsWith(x + y, pat)
    requires Replace(x[1..] + y, pat, rep) == Replace(x[1..], pat, rep) + Replace(y, pat, rep)
    ensures Replace(x + y, pat, rep) == Replace(x, pat, rep) + Replace(y, pat, rep)
  {
    StartsWithExtend(x, y, pat);
    SkipHead(x, y, pat, rep);
    ReplaceSkip(x, pat, rep);
    ConsAssoc(x[0], Replace(x[1..], pat, rep), Replace(y, pat, rep));
  }

  lemma ConsAssoc(c: char, a: string, b: string)
    ensures [c] + (a + b) == ([c] + a) + b
  {
  }

  lemma SkipHead(x: string, y: string, pat: string, rep: string)
    requires |x| > 0 && !StartsWith(x + y, pat)
    ensures Replace(x + y, pat, rep) == [x[0]] + Replace(x[1..] + y, pat, rep)
  {
    ReplaceSkip(x + y, pat, rep);
    assert (x + y)[1..] == x[1..] + y;
  }

  /** A text that starts with `pat` still does when more text follows. */
  lemma StartsWithExtend(x: string, y: string, pat: string)
    ensures StartsWith(x, pat) ==> StartsWith(x + y, pat)
  {
    StartsWithSlice(x + y, pat);
    StartsWithSlice(x, pat);
    if |pat| <= |x| {
      assert (x + y)[..|pat|] == x[..|pat|];
    }
  }

  /**
   * An occurrence of `w` between `x` and `y` is replaced on its own, and `x` and `y` are
   * processed separately, when `w` cannot overlap itself from its second character on.
   */
  lemma SplitAtOccurrence(x: string, w: string, y: string, rep: string)
    requires |w| > 0 && w[0] !in w[1..]
    ensures Replace(x + w + y, w, rep) == Replace(x, w, rep) + rep + Replace(y, w, rep)
  {
    assert x + w + y == x + (w + y);
    assert (w + y)[0] == w[0];
    NoStraddleAt(x, w + y, w);
    ReplaceSplit(x, w + y, w, rep);
    ReplaceAtStart(w, y, rep);
  }

  /**
   * Text `m` that cannot hold the start of `pat`, and whose first character can only be the
   * head of `pat`, passes through unchanged while `x` and `y` around it are processed separately.
   */
  lemma SplitAtInert(x: string, m: string, y: string, pat: string, rep: string)
    requires |pat| > 0 && |m| > 0 && m[0] !in pat[1..] && Inert(m, pat)
    ensures Replace(x + m + y, pat, rep) == Replace(x, pat, rep) + m + Replace(y, pat, rep)
  {
    assert x + m + y == x + (m + y);
    assert (m + y)[0] == m[0];
    NoStraddleAt(x, m + y, pat);
    ReplaceSplit(x, m + y, pat, rep);
    ReplaceInertPrefix(m, y, pat, rep);
  }

  /**
   * Three replaces in a row, the first of which rewrites `w` to `m`: an occurrence of `w`
   * between `x` and `y` comes out as `m`, and `x` and `y` go through the three replaces
   * separately, when `m` cannot hold the start of the later patterns.
   */
  lemma ChainSplit(x: string, y: string, w: string, m: string, p2: string, r2: string, p3: string, r3: string)
    requires |w| > 0 && w[0] !in w[1..]
    requires |m| > 0 && |p2| > 0 && m[0] !in p2[1..] && Inert(m, p2)
    requires |p3| > 0 && m[0] !in p3[1..] && Inert(m, p3)
    ensures Replace(Replace(Replace(x + w + y, w, m), p2, r2), p3, r3)
      == Replace(Replace(Replace(x, w, m), p2, r2), p3, r3) + m + Replace(Replace(Replace(y, w, m), p2, r2), p3, r3)
  {
    SplitAtOccurrence(x, w, y, m);
    var x1, y1 := Replace(x, w, m), Replace(y, w, m);
    SplitAtInert(x1, m, y1, p2, r2);
    SplitAtInert(Replace(x1, p2, r2), m, Replace(y1, p2, r2), p3, r3);
  }
}
