/**
 * Hand-written matchers for the regular expressions of GoogleTranslator.translate.
 *
 * Each matcher decides, for the text that remains at the scan position, whether the
 * expression matches there, how many characters the match takes and what replaces them,
 * following java.util.regex's greedy quantifiers and backtracking.  In every expression
 * below a greedy run is followed by a character outside its class, so only the maximal
 * run can succeed and backtracking never finds a second way to match.
 */
module Patterns {
  import opened Wrappers
  import opened TextReplace

  // ---------------------------------------------------------------------------
  // Character classes (java.util.regex without UNICODE_CHARACTER_CLASS: ASCII only)

  /** `\d` */
  predicate IsDigit(c: char) { '0' <= c <= '9' }

  predicate IsAsciiLetter(c: char) { 'a' <= c <= 'z' || 'A' <= c <= 'Z' }

  /** `[a-zA-Z0-9]` */
  predicate IsAlnum(c: char) { IsAsciiLetter(c) || IsDigit(c) }

  /** `\s`: space, tab, line feed, vertical tab, form feed, carriage return. */
  predicate IsJavaSpace(c: char) {
    c == ' ' || c == '\t' || c == '\n' || c == '\U{B}' || c == '\U{C}' || c == '\r'
  }

  /** `[-a-zA-Z0-9+&@#/%?=~_|!:,.;]`: a character inside a URL. */
  predicate IsUrlChar(c: char) { IsAlnum(c) || c in {'-', '+', '&', '@', '#', '/', '%', '?', '=', '~', '_', '|', '!', ':', ',', '.', ';'} }

  /** `[-a-zA-Z0-9+&@#/%=~_|]`: a character a URL may end with. */
  predicate IsUrlEndChar(c: char) { IsAlnum(c) || c in {'-', '+', '&', '@', '#', '/', '%', '=', '~', '_', '|'} }

  /** `[\-a-zA-Z0-9 ]`: a character of the arguments between `curl` and the URL. */
  predicate IsCurlChar(c: char) { IsAlnum(c) || c == '-' || c == ' ' }

  /** `[^\d*]` */
  predicate IsNotDigitOrStar(c: char) { !IsDigit(c) && c != '*' }

  /** `[^\d*\n]` */
  predicate IsNotDigitStarOrNewline(c: char) { !IsDigit(c) && c != '*' && c != '\n' }

  /** Every character of `s` satisfies `p`. */
  predicate All(s: string, p: char -> bool) {
    forall i :: 0 <= i < |s| ==> p(s[i])
  }

  /** A greedy `[class]*`: the length of the longest prefix of `s` whose characters satisfy `p`. */
  function RunLen(s: string, p: char -> bool): (n: nat)
    ensures n <= |s|
    decreases |s|
  {
    if s != [] && p(s[0]) then 1 + RunLen(s[1..], p) else 0
  }

  /** The run is maximal: all its characters satisfy `p` and the next one does not. */
  lemma {:induction false} RunLenMaximal(s: string, p: char -> bool)
    ensures All(s[..RunLen(s, p)], p)
    ensures RunLen(s, p) < |s| ==> !p(s[RunLen(s, p)])
    decreases |s|
  {
    if s != [] && p(s[0]) {
      RunLenMaximal(s[1..], p);
      var n := RunLen(s[1..], p);
      var run := s[..n + 1];
      forall i | 0 <= i < |run| ensures p(run[i]) {
        if i > 0 {
          assert run[i] == s[1..][..n][i - 1];
        }
      }
    }
  }

  /** The run of `p`-characters at the start of `x + y` is exactly `x` when `y` does not continue it. */
  lemma {:induction false} RunLenOf(x: string, y: string, p: char -> bool)
    requires All(x, p)
    requires y == [] || !p(y[0])
    ensures RunLen(x + y, p) == |x|
    decreases |x|
  {
    if x != [] {
      assert (x + y)[1..] == x[1..] + y;
      assert (x + y)[0] == x[0];
      RunLenOf(x[1..], y, p);
    } else {
      assert x + y == y;
    }
  }

  // ---------------------------------------------------------------------------
  // URL_PATTERN = https?://[-a-zA-Z0-9+&@#/%?=~_|!:,.;]*[-a-zA-Z0-9+&@#/%=~_|]

  /** The length of the scheme `https?://` at the start of `s`, or 0. */
  function SchemeLength(s: string): (n: nat)
    ensures n == 0 || n == 7 || n == 8
    ensures n <= |s|
  {
    if StartsWith(s, "https://") then 8 else if StartsWith(s, "http://") then 7 else 0
  }

  /** The part after the scheme: URL characters, the last of which may end a URL. */
  predicate IsUrlBody(b: string) {
    |b| > 0 && All(b, IsUrlChar) && IsUrlEndChar(b[|b| - 1])
  }

  /** `u` matches URL_PATTERN as a whole. */
  predicate IsUrl(u: string) {
    (StartsWith(u, "https://") && IsUrlBody(u[8..])) || (StartsWith(u, "http://") && IsUrlBody(u[7..]))
  }

  /** The largest `j <= r` such that `b[j - 1]` may end a URL, or 0. */
  function LastUrlEnd(b: string, r: nat): (j: nat)
    requires r <= |b|
    ensures j <= r
    ensures j > 0 ==> IsUrlEndChar(b[j - 1])
    ensures forall k :: j <= k < r ==> !IsUrlEndChar(b[k])
  {
    if r == 0 then 0 else if IsUrlEndChar(b[r - 1]) then r else LastUrlEnd(b, r - 1)
  }

  /** The length of the match of URL_PATTERN at the start of `s`, if it matches there. */
  function UrlLength(s: string): (r: Option<nat>)
    ensures r.Some? ==> 0 < r.value <= |s|
  {
    var p := SchemeLength(s);
    if p == 0 then None
    else
      var b := s[p..];
      var j := LastUrlEnd(b, RunLen(b, IsUrlChar));
      if j == 0 then None else Some(p + j)
  }

  lemma StartsWithTruncate(s: string, n: nat, q: string)
    requires n <= |s|
    ensures StartsWith(s[..n], q) <==> |q| <= n && StartsWith(s, q)
  {
    StartsWithSlice(s[..n], q);
    StartsWithSlice(s, q);
    if |q| <= n {
      assert s[..n][..|q|] == s[..|q|];
    }
  }

  lemma SchemesExclusive(s: string)
    ensures !(StartsWith(s, "https://") && StartsWith(s, "http://"))
  {
    if StartsWith(s, "https://") && StartsWith(s, "http://") {
      StartsWithBoth(s, "https://", "http://");
    }
  }

  /** A prefix of `s` is a URL exactly when it is `s`'s scheme followed by a URL body. */
  lemma IsUrlPrefix(s: string, n: nat)
    requires n <= |s|
    ensures IsUrl(s[..n]) <==> 0 < SchemeLength(s) <= n && IsUrlBody(s[SchemeLength(s)..n])
  {
    StartsWithTruncate(s, n, "https://");
    StartsWithTruncate(s, n, "http://");
    SchemesExclusive(s);
    if n >= 8 {
      assert s[..n][8..] == s[8..n];
    }
    if n >= 7 {
      assert s[..n][7..] == s[7..n];
    }
  }

  /** The greedy body ends at the last URL-ending character of the run of URL characters. */
  lemma LongestUrlBody(b: string)
    ensures var j := LastUrlEnd(b, RunLen(b, IsUrlChar));
      && (j > 0 ==> IsUrlBody(b[..j]))
      && (forall m :: j < m <= |b| ==> !IsUrlBody(b[..m]))
  {
    var r := RunLen(b, IsUrlChar);
    RunLenMaximal(b, IsUrlChar);
    var j := LastUrlEnd(b, r);
    forall m | j < m <= |b|
      ensures !IsUrlBody(b[..m])
    {
      if m > r {
        assert b[..m][r] == b[r];
      } else {
        assert b[..m][m - 1] == b[m - 1];
      }
    }
    if j > 0 {
      forall i | 0 <= i < j ensures IsUrlChar(b[..j][i]) {
        assert b[..j][i] == b[..r][i];
      }
    }
  }

  /**
   * The URL matcher finds the longest prefix of `s` that matches URL_PATTERN (only one of
   * `http://` and `https://` can start `s`, and the body is greedy), and such a URL never
   * ends in `.`, `,`, `;`, `:`, `!` or `?`.
   */
  lemma UrlLengthIsLongestMatch(s: string)
    ensures UrlLength(s).Some? ==>
      var n := UrlLength(s).value;
      && n <= |s| && IsUrl(s[..n])
      && (forall m :: n < m <= |s| ==> !IsUrl(s[..m]))
      && s[n - 1] !in {'.', ',', ';', ':', '!', '?'}
    ensures UrlLength(s).None? ==> forall m :: 0 <= m <= |s| ==> !IsUrl(s[..m])
  {
    UrlEndsCleanly(s);
    var p := SchemeLength(s);
    forall m | 0 <= m <= |s|
      ensures IsUrl(s[..m]) <==> 0 < p <= m && IsUrlBody(s[p..m])
    {
      IsUrlPrefix(s, m);
    }
    if p > 0 {
      var b := s[p..];
      LongestUrlBody(b);
      forall m | p <= m <= |s| ensures s[p..m] == b[..m - p] { }
    }
  }

  lemma UrlEndsCleanly(s: string)
    ensures UrlLength(s).Some? ==> UrlLength(s).value <= |s| && s[UrlLength(s).value - 1] !in {'.', ',', ';', ':', '!', '?'}
  {
    var p := SchemeLength(s);
    if p > 0 {
      var b := s[p..];
      var j := LastUrlEnd(b, RunLen(b, IsUrlChar));
      if j > 0 {
        assert s[p + j - 1] == b[j - 1];
      }
    }
  }

  /** `(URL_PATTERN)` replaced by `[$1]($1)`: a bare URL becomes a markdown link to itself. */
  function UrlLinkMatch(s: string): Option<Match> {
    match UrlLength(s)
    case Some(n) => Some(Match(n, "[" + s[..n] + "](" + s[..n] + ")"))
    case None => None
  }

  // ---------------------------------------------------------------------------
  // curl([\-a-zA-Z0-9 ]+)http  and  curl([\-a-zA-Z0-9 ]+)Http

  /** The largest `g` with `0 < g <= r` at which `word` starts in `b`, or 0. */
  function LastWordAt(b: string, r: nat, word: string): (g: nat)
    requires r <= |b|
    ensures g <= r
    ensures g > 0 ==> StartsWith(b[g..], word)
    ensures forall k :: g < k <= r ==> !StartsWith(b[k..], word)
  {
    if r == 0 then 0 else if StartsWith(b[r..], word) then r else LastWordAt(b, r - 1, word)
  }

  /**
   * `curl([\-a-zA-Z0-9 ]+)` followed by `word`, replaced by `curl$1` followed by `newWord`:
   * the greedy group takes the whole run of argument characters and backs off to the last
   * position inside it where `word` starts.
   */
  function CurlMatch(word: string, newWord: string, s: string): Option<Match> {
    if !StartsWith(s, "curl") then None
    else
      var b := s[4..];
      var g := LastWordAt(b, RunLen(b, IsCurlChar), word);
      if g == 0 then None
      else
        StartsWithSlice(b[g..], word);
        Some(Match(4 + g + |word|, "curl" + b[..g] + newWord))
  }

  // ---------------------------------------------------------------------------
  // \[(https?://[a-zA-Z0-9]+)\]\(https?://[a-zA-Z0-9]+\)  replaced by  $1

  /** A scheme followed by a non-empty alphanumeric host: what `https?://[a-zA-Z0-9]+` matches. */
  predicate IsShortUrl(u: string) {
    var p := SchemeLength(u);
    p > 0 && p < |u| && All(u[p..], IsAlnum)
  }

  /** The length of `https?://[a-zA-Z0-9]+` at the start of `s`, greedy, or 0. */
  function ShortUrlLength(s: string): (n: nat)
    ensures n <= |s|
    ensures n > 0 ==> IsShortUrl(s[..n]) && (n == |s| || !IsAlnum(s[n]))
  {
    var p := SchemeLength(s);
    var h := RunLen(s[p..], IsAlnum);
    if p == 0 || h == 0 then 0
    else
      RunLenMaximal(s[p..], IsAlnum);
      StartsWithTruncate(s, p + h, if p == 8 then "https://" else "http://");
      SchemesExclusive(s[..p + h]);
      assert s[..p + h][p..] == s[p..][..h];
      p + h
  }

  /** A link whose text and target are both short URLs collapses to its text. */
  function ShortLinkMatch(s: string): Option<Match> {
    if !StartsWith(s, "[") then None
    else
      var text := ShortUrlLength(s[1..]);
      var close := 1 + text;
      if text == 0 || !StartsWith(s[close..], "](") then None
      else
        var target := ShortUrlLength(s[close + 2..]);
        var end := close + 2 + target;
        if target == 0 || !StartsWith(s[end..], ")") then None
        else Some(Match(end + 1, s[1..close]))
  }

  // ---------------------------------------------------------------------------
  // The three cleanup expressions

  /** `\*[^\d*]*(\d+)[^\d*\n]*\*` replaced by `_$1_`. */
  function EmphasisNumberMatch(s: string): Option<Match> {
    if !StartsWith(s, "*") then None
    else
      var i := 1 + RunLen(s[1..], IsNotDigitOrStar);
      var j := i + RunLen(s[i..], IsDigit);
      var k := j + RunLen(s[j..], IsNotDigitStarOrNewline);
      if i == j || k == |s| || s[k] != '*' then None
      else Some(Match(k + 1, "_" + s[i..j] + "_"))
  }

  /** ` (_\d+_) ` replaced by `` `$1` `` with the surrounding spaces kept. */
  function SpacedNumberMatch(s: string): Option<Match> {
    if !StartsWith(s, " _") then None
    else
      var j := 2 + RunLen(s[2..], IsDigit);
      if j == 2 || !StartsWith(s[j..], "_ ") then None
      else Some(Match(j + 2, " `" + s[1..j + 1] + "` "))
  }

  /** `\s(_\d+_\n)` replaced by `$1`: the white space before a number at a line end goes. */
  function NumberAtLineEndMatch(s: string): Option<Match> {
    if |s| < 2 || !IsJavaSpace(s[0]) || s[1] != '_' then None
    else
      var j := 2 + RunLen(s[2..], IsDigit);
      if j == 2 || !StartsWith(s[j..], "_\n") then None
      else Some(Match(j + 2, s[1..j + 2]))
  }

  // ---------------------------------------------------------------------------
  // The matchers, and what each of them can and cannot produce

  function UrlLinks(): (m: Matcher)
    ensures forall s :: m(s) == UrlLinkMatch(s)
    ensures WellFormed(m)
  {
    s => UrlLinkMatch(s)
  }

  function Curl(word: string, newWord: string): (m: Matcher)
    ensures forall s :: m(s) == CurlMatch(word, newWord, s)
    ensures WellFormed(m)
  {
    s => CurlMatch(word, newWord, s)
  }

  function ShortLinks(): (m: Matcher)
    ensures forall s :: m(s) == ShortLinkMatch(s)
    ensures WellFormed(m)
  {
    s => ShortLinkMatch(s)
  }

  function EmphasisNumbers(): (m: Matcher)
    ensures forall s :: m(s) == EmphasisNumberMatch(s)
    ensures WellFormed(m)
  {
    s => EmphasisNumberMatch(s)
  }

  function SpacedNumbers(): (m: Matcher)
    ensures forall s :: m(s) == SpacedNumberMatch(s)
    ensures WellFormed(m)
  {
    s => SpacedNumberMatch(s)
  }

  function NumbersAtLineEnd(): (m: Matcher)
    ensures forall s :: m(s) == NumberAtLineEndMatch(s)
    ensures WellFormed(m)
  {
    s => NumberAtLineEndMatch(s)
  }

  /**
   * When `word` and `newWord` differ only in their first letter, a curl match only changes
   * that letter: the text consumed and its replacement have the same length and agree
   * everywhere else.
   */
  lemma CurlRecases(word: string, newWord: string)
    requires |word| == |newWord| > 0 && word[1..] == newWord[1..]
    ensures OutputsRecase(Curl(word, newWord), word[0], newWord[0])
  {
    var m := Curl(word, newWord);
    forall s | m(s).Some? && m(s).value.length <= |s|
      ensures Recased(s[..m(s).value.length], m(s).value.replacement, word[0], newWord[0])
    {
      CurlMatchRecases(word, newWord, s);
    }
  }

  lemma CurlMatchRecases(word: string, newWord: string, s: string)
    requires |word| == |newWord| > 0 && word[1..] == newWord[1..]
    requires CurlMatch(word, newWord, s).Some? && CurlMatch(word, newWord, s).value.length <= |s|
    ensures var hit := CurlMatch(word, newWord, s).value;
      Recased(s[..hit.length], hit.replacement, word[0], newWord[0])
  {
    var b := s[4..];
    var g := LastWordAt(b, RunLen(b, IsCurlChar), word);
    StartsWithSlice(b[g..], word);
    StartsWithSlice(s, "curl");
    var n := 4 + g + |word|;
    assert s[..n] == "curl" + b[..g] + word;
    var y := CurlMatch(word, newWord, s).value.replacement;
    assert y == "curl" + b[..g] + newWord;
    forall i | 0 <= i < n
      ensures y[i] == s[..n][i] || (s[..n][i] == word[0] && y[i] == newWord[0])
    {
      if i > 4 + g {
        assert y[i] == newWord[1..][i - 5 - g] && s[..n][i] == word[1..][i - 5 - g];
      }
    }
  }


  /**
   * `curl`, then a non-empty group of argument characters `s[4..e]`, then `word`, where no
   * longer group of argument characters is followed by `word`: the greedy group backs off to
   * that last `word`, and only the group's own `word` is rewritten to `newWord`.
   */
  lemma CurlMatchOf(word: string, newWord: string, s: string, e: nat)
    requires StartsWith(s, "curl") && 4 < e <= |s|
    requires All(s[4..e], IsCurlChar) && StartsWith(s[e..], word)
    requires forall k :: e < k <= |s| && All(s[4..k], IsCurlChar) ==> !StartsWith(s[k..], word)
    ensures CurlMatch(word, newWord, s) == Some(Match(e + |word|, "curl" + s[4..e] + newWord))
  {
    var b, g := s[4..], e - 4;
    assert s[4..e] == b[..g] && s[e..] == b[g..];
    RunCovers(b, g, IsCurlChar);
    var last := LastWordAt(b, RunLen(b, IsCurlChar), word);
    if last > g {
      assert s[4..4 + last] == b[..last];
      RunPrefix(b, last, IsCurlChar);
    }
  }

  /** A prefix made of `p`-characters lies inside the greedy run. */
  lemma RunCovers(b: string, g: nat, p: char -> bool)
    requires g <= |b| && All(b[..g], p)
    ensures g <= RunLen(b, p)
  {
    RunLenMaximal(b, p);
    var r := RunLen(b, p);
    if r < g {
      assert false;
    }
  }

  /** Every prefix of the greedy run is made of `p`-characters. */
  lemma RunPrefix(b: string, k: nat, p: char -> bool)
    requires k <= RunLen(b, p)
    ensures All(b[..k], p)
  {
    RunLenMaximal(b, p);
    var r := RunLen(b, p);
    forall i | 0 <= i < k ensures p(b[..k][i]) {
      assert b[..k][i] == b[..r][i];
    }
  }

  /** A curl match needs the first character of `word` somewhere in the text. */
  lemma CurlNeedsWordHead(word: string, newWord: string)
    requires |word| > 0
    ensures forall t :: Curl(word, newWord)(t).Some? ==> word[0] in t
  {
    forall t | CurlMatch(word, newWord, t).Some? ensures word[0] in t {
      var b := t[4..];
      var g := LastWordAt(b, RunLen(b, IsCurlChar), word);
      StartsWithSlice(b[g..], word);
      assert t[4 + g] == b[g..][..|word|][0];
    }
  }

  /** A character a short URL is made of: a letter, a digit, `:` or `/`. */
  predicate IsShortUrlChar(c: char) { IsAlnum(c) || c == ':' || c == '/' }

  /** A short URL starts with `h`, ends with a letter or digit, and is made of short-URL characters. */
  lemma ShortUrlShape(u: string)
    requires IsShortUrl(u)
    ensures u[0] == 'h' && IsAlnum(u[|u| - 1]) && All(u, IsShortUrlChar)
  {
    var p := SchemeLength(u);
    var scheme := if p == 8 then "https://" else "http://";
    StartsWithSlice(u, scheme);
    assert u[..p] == scheme;
    forall i | 0 <= i < |u| ensures IsShortUrlChar(u[i]) {
      if i < p {
        assert u[i] == scheme[i];
      } else {
        assert u[i] == u[p..][i - p];
      }
    }
    assert u[0] == scheme[0];
    assert u[|u| - 1] == u[p..][|u| - 1 - p];
  }

  /**
   * No occurrence of `q` can start inside text made of short-URL characters that ends in a
   * letter or digit, when `q` starts with a character outside that set, or with `:` followed
   * by such a character.
   */
  lemma {:induction false} ShortUrlTextInert(x: string, q: string)
    requires All(x, IsShortUrlChar) && (|x| > 0 ==> IsAlnum(x[|x| - 1]))
    requires |q| >= 2 && !IsAlnum(q[0]) && q[0] != '/'
    requires q[0] == ':' ==> !IsShortUrlChar(q[1])
    ensures Inert(x, q)
    decreases |x|
  {
    if |x| > 0 {
      if x[0] == q[0] {
        assert x[1..][0] == x[1];
      }
      ShortUrlTextInert(x[1..], q);
    }
  }

  /** The short-link collapse cannot create an occurrence of such a `q` when `q` has no `h`. */
  lemma ShortLinksKeepAbsent(s: string, q: string)
    requires |q| >= 2 && !IsAlnum(q[0]) && q[0] != '/'
    requires q[0] == ':' ==> !IsShortUrlChar(q[1])
    requires 'h' !in q
    requires !Occurs(s, q)
    ensures !Occurs(ReplaceAll(s, ShortLinks()), q)
  {
    assert forall c :: c in q[1..] ==> c in q;
    var m := ShortLinks();
    forall t | m(t).Some?
      ensures Inert(m(t).value.replacement, q) && Inert(q[1..], m(t).value.replacement)
    {
      var u := m(t).value.replacement;
      ShortLinkTextIsShortUrl(t);
      ShortUrlShape(u);
      ShortUrlTextInert(u, q);
      HeadInert(q[1..], u);
    }
    AbsentIsCaught(s, m, q);
    ReplaceAllAvoids(s, m, q);
  }

  /** The scheme of a text that starts with a short URL is the short URL's scheme. */
  lemma SchemeOfShortUrl(u: string, y: string)
    requires IsShortUrl(u)
    ensures SchemeLength(u + y) == SchemeLength(u)
  {
    StartsWithTruncate(u + y, |u|, "https://");
    StartsWithTruncate(u + y, |u|, "http://");
    assert (u + y)[..|u|] == u;
  }

  /** A short URL followed by a character that cannot continue its host is matched whole. */
  lemma ShortUrlLengthOf(u: string, y: string)
    requires IsShortUrl(u)
    requires y == [] || !IsAlnum(y[0])
    ensures ShortUrlLength(u + y) == |u|
  {
    SchemeOfShortUrl(u, y);
    var p := SchemeLength(u);
    assert (u + y)[p..] == u[p..] + y;
    RunLenOf(u[p..], y, IsAlnum);
  }

  /** `[u](v)` with short URLs `u == s[1..i]` and `v == s[i + 2..j]` is matched whole and replaced by `u`. */
  lemma ShortLinkMatchOf(s: string, i: nat, j: nat)
    requires 1 < i && i + 2 < j < |s|
    requires s[0] == '[' && s[i] == ']' && s[i + 1] == '(' && s[j] == ')'
    requires IsShortUrl(s[1..i]) && IsShortUrl(s[i + 2..j])
    ensures ShortLinkMatch(s) == Some(Match(j + 1, s[1..i]))
  {
    ShortLinkTextAt(s, i);
    ShortLinkTargetAt(s, i, j);
    ShortLinkMatchWhen(s, i, j);
  }

  lemma ShortLinkTextAt(s: string, i: nat)
    requires 1 < i && i + 1 < |s|
    requires s[0] == '[' && s[i] == ']' && s[i + 1] == '('
    requires IsShortUrl(s[1..i])
    ensures StartsWith(s, "[") && ShortUrlLength(s[1..]) == i - 1 && StartsWith(s[i..], "](")
  {
    StartsWithChars(s, 0, ['[']);
    ShortUrlLengthAt(s, 1, i);
    StartsWithChars(s, i, [']', '(']);
  }

  lemma ShortLinkTargetAt(s: string, i: nat, j: nat)
    requires i + 2 < j < |s|
    requires s[j] == ')'
    requires IsShortUrl(s[i + 2..j])
    ensures ShortUrlLength(s[i + 2..]) == j - i - 2 && StartsWith(s[j..], ")")
  {
    ShortUrlLengthAt(s, i + 2, j);
    StartsWithChars(s, j, [')']);
  }

  /** The match of a short link, once the lengths of its text and its target are known. */
  lemma ShortLinkMatchWhen(s: string, i: nat, j: nat)
    requires 1 < i && i + 2 < j < |s|
    requires StartsWith(s, "[") && ShortUrlLength(s[1..]) == i - 1 && StartsWith(s[i..], "](")
    requires ShortUrlLength(s[i + 2..]) == j - i - 2 && StartsWith(s[j..], ")")
    ensures ShortLinkMatch(s) == Some(Match(j + 1, s[1..i]))
  {
  }


  /** A short URL after `[` that is followed by something other than `]` opens no short link. */
  lemma ShortLinkUnclosed(s: string, i: nat)
    requires 1 < i < |s| && s[0] == '[' && IsShortUrl(s[1..i]) && !IsAlnum(s[i]) && s[i] != ']'
    ensures ShortLinkMatch(s) == None
  {
    ShortUrlLengthAt(s, 1, i);
  }

  /** The text a short link collapses to is a short URL. */
  lemma ShortLinkTextIsShortUrl(s: string)
    requires ShortLinkMatch(s).Some?
    ensures IsShortUrl(ShortLinkMatch(s).value.replacement)
  {
    var text := ShortUrlLength(s[1..]);
    assert ShortLinkMatch(s).value.replacement == s[1..][..text];
  }

  lemma StartsWithChars(s: string, a: nat, q: string)
    requires a + |q| <= |s| && s[a..a + |q|] == q
    ensures StartsWith(s[a..], q)
  {
    StartsWithSlice(s[a..], q);
    assert s[a..][..|q|] == q;
  }


  /** A short URL from `a` to `b` that the character at `b` does not continue. */
  lemma ShortUrlLengthAt(s: string, a: nat, b: nat)
    requires a < b < |s|
    requires IsShortUrl(s[a..b]) && !IsAlnum(s[b])
    ensures ShortUrlLength(s[a..]) == b - a
  {
    assert s[a..] == s[a..b] + s[b..];
    ShortUrlLengthOf(s[a..b], s[b..]);
  }

  /** Where a short link matches, the collapse scan writes its text and resumes after it. */
  lemma ShortLinksStep(s: string, n: nat, rep: string)
    requires ShortLinkMatch(s) == Some(Match(n, rep))
    ensures ReplaceAll(s, ShortLinks()) == rep + ReplaceAll(s[n..], ShortLinks())
  {
    ReplaceAllStep(s, ShortLinks(), n, rep);
  }

  /** A run of `p`-characters from `i` to `j` that `s[j]` does not continue. */
  lemma RunLenAt(s: string, i: nat, j: nat, p: char -> bool)
    requires i <= j <= |s|
    requires All(s[i..j], p) && (j == |s| || !p(s[j]))
    ensures RunLen(s[i..], p) == j - i
  {
    assert s[i..] == s[i..j] + s[j..];
    RunLenOf(s[i..j], s[j..], p);
  }

  /**
   * `*`, then text without digits or `*` up to `i`, the number `s[i..j]`, text without
   * digits, `*` or line breaks up to `k`, and `*` at `k`: the whole is replaced by `_number_`.
   */
  lemma EmphasisNumberMatchOf(s: string, i: nat, j: nat, k: nat)
    requires 1 <= i < j <= k < |s| && s[0] == '*' && s[k] == '*'
    requires All(s[1..i], IsNotDigitOrStar)
    requires All(s[i..j], IsDigit)
    requires All(s[j..k], IsNotDigitStarOrNewline)
    ensures EmphasisNumberMatch(s) == Some(Match(k + 1, "_" + s[i..j] + "_"))
  {
    StartsWithSlice(s, "*");
    assert s[i] == s[i..j][0];
    RunLenAt(s, 1, i, IsNotDigitOrStar);
    if j < k {
      assert s[j] == s[j..k][0];
    }
    RunLenAt(s, i, j, IsDigit);
    RunLenAt(s, j, k, IsNotDigitStarOrNewline);
  }

  /** ` _number_ ` at the start of `s`, the number being `s[2..j]`: both spaces stay around `` `_number_` ``. */
  lemma SpacedNumberMatchOf(s: string, j: nat)
    requires 2 < j && j + 2 <= |s|
    requires s[0] == ' ' && s[1] == '_' && s[j] == '_' && s[j + 1] == ' '
    requires All(s[2..j], IsDigit)
    ensures SpacedNumberMatch(s) == Some(Match(j + 2, " `" + s[1..j + 1] + "` "))
  {
    StartsWithSlice(s, " _");
    assert s[..2] == " _";
    StartsWithSlice(s[j..], "_ ");
    assert s[j..][..2] == "_ ";
    RunLenAt(s, 2, j, IsDigit);
  }

  /** White space, then `_number_` and a line break, the number being `s[2..j]`: the white space is dropped. */
  lemma NumberAtLineEndMatchOf(s: string, j: nat)
    requires 2 < j && j + 2 <= |s|
    requires IsJavaSpace(s[0]) && s[1] == '_' && s[j] == '_' && s[j + 1] == '\n'
    requires All(s[2..j], IsDigit)
    ensures NumberAtLineEndMatch(s) == Some(Match(j + 2, s[1..j + 2]))
  {
    StartsWithSlice(s[j..], "_\n");
    assert s[j..][..2] == "_\n";
    RunLenAt(s, 2, j, IsDigit);
  }

  /** A URL starts with `http`. */
  lemma UrlLinkNeedsHttp(t: string)
    requires UrlLinkMatch(t).Some?
    ensures StartsWith(t, "http")
  {
    var p := SchemeLength(t);
    var scheme := if p == 8 then "https://" else "http://";
    StartsWithSlice(t, scheme);
    StartsWithSlice(t, "http");
    assert t[..4] == scheme[..4];
  }

  /** Each matcher fires only where its expression's fixed beginning starts. */
  lemma MatchersNeedPrefix(word: string, newWord: string)
    ensures forall t :: UrlLinks()(t).Some? ==> StartsWith(t, "http")
    ensures forall t :: Curl(word, newWord)(t).Some? ==> StartsWith(t, "curl")
    ensures forall t :: ShortLinks()(t).Some? ==> StartsWith(t, "[")
  {
    forall t | UrlLinks()(t).Some? ensures StartsWith(t, "http") {
      UrlLinkNeedsHttp(t);
    }
  }

  /** Each cleanup expression fires only where its fixed characters are. */
  lemma CleanupMatchersNeed()
    ensures forall t :: EmphasisNumbers()(t).Some? ==> StartsWith(t, "*")
    ensures forall t :: SpacedNumbers()(t).Some? ==> StartsWith(t, " _")
    ensures forall t :: NumbersAtLineEnd()(t).Some? ==> '_' in t
  {
    forall t | NumbersAtLineEnd()(t).Some? ensures '_' in t {
      assert t[1] == '_';
    }
  }
}
