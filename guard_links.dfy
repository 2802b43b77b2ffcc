/**
 * What the guard chain of `GoogleTranslator.translate` does to URLs and links in the text:
 * - a link whose text is a dotted URL is re-cased and re-cased back, so it is kept;
 * - a bare short URL is wrapped by Linkify and collapsed back, so it is kept too;
 * - any other bare URL in running text becomes a markdown link to itself.
 */
module GuardLinks {
  import opened Wrappers
  import opened TextReplace
  import opened TextSplit
  import opened Patterns
  import opened GoogleTranslator

  /** A host character the chain never reacts to: a letter other than `h` and `H`, a digit, `.` or `-`. */
  predicate IsPlainHostChar(c: char) {
    (IsAlnum(c) && c != 'h' && c != 'H') || c == '.' || c == '-'
  }

  /** `[w v](w v)`: a markdown link whose text and target are both `w` followed by `v`. */
  function SelfLink(w: string, v: string): string {
    "[" + w + v + "](" + w + v + ")"
  }

  // ---------------------------------------------------------------------------
  // Links that pass through unchanged

  /**
   * `[http://a.b](http://a.b)`, a link to itself whose host `a.b` has a dot after its first
   * label and no `h` or `H`, comes out of the guard chain exactly as it went in: shielding
   * re-cases both schemes, Linkify finds no bare URL, unshielding undoes the re-casing, and
   * the short-link collapse does not fire because the text is not `https?://[a-zA-Z0-9]+`.
   */
  lemma GuardKeepsDottedLink(a: string, b: string)
    requires |a| > 0 && All(a, IsAlnum) && All(a, IsPlainHostChar) && All(b, IsPlainHostChar)
    ensures var u := "http://" + a + "." + b;
      Guard("[" + u + "](" + u + ")") == "[" + u + "](" + u + ")"
  {
    var v := "://" + a + "." + b;
    PlainTail(a, b);
    DottedLinkShape(a, b);
    var x, y := SelfLink("http", v), SelfLink("Http", v);
    SelfLinkLacks("http", v);
    SelfLinkLacks("Http", v);
    ShieldRecasesLink(v);
    LinkifyKeeps(y);
    UnshieldRecasesLink(v);
    HideTagsKeeps(x);
    CollapseKeepsDottedLink(a, b);
  }

  /** The link as the chain's patterns see it: `[http` followed by the rest, twice. */
  lemma DottedLinkShape(a: string, b: string)
    ensures var u := "http://" + a + "." + b;
      "[" + u + "](" + u + ")" == SelfLink("http", "://" + a + "." + b)
  {
  }

  /** The part after `http` holds none of the characters the chain reacts to. */
  lemma PlainTail(a: string, b: string)
    requires All(a, IsPlainHostChar) && All(b, IsPlainHostChar)
    ensures var v := "://" + a + "." + b;
      '[' !in v && '(' !in v && '"' !in v && ' ' !in v && '<' !in v && 'h' !in v && 'H' !in v
  {
    PlainLacks(a);
    PlainLacks(b);
  }

  lemma PlainLacks(a: string)
    requires All(a, IsPlainHostChar)
    ensures '[' !in a && '(' !in a && '"' !in a && ' ' !in a && '<' !in a && 'h' !in a && 'H' !in a
  {
    forall i | 0 <= i < |a| ensures IsPlainHostChar(a[i]) { }
  }

  /** What the self-link holds besides its two copies of `w` and `v`. */
  lemma SelfLinkLacks(w: string, v: string)
    requires '[' !in v && '(' !in v && '"' !in v && ' ' !in v && '<' !in v && 'h' !in v && 'H' !in v
    requires w == "http" || w == "Http"
    ensures var x := SelfLink(w, v);
      '"' !in x && ' ' !in x && '<' !in x && '[' !in x[1..]
    ensures w == "Http" ==> 'h' !in SelfLink(w, v)
    ensures w == "http" ==> 'H' !in SelfLink(w, v)
  {
    SelfLinkLacksChar(w, v, '"');
    SelfLinkLacksChar(w, v, ' ');
    SelfLinkLacksChar(w, v, '<');
    if w == "Http" {
      SelfLinkLacksChar(w, v, 'h');
    } else {
      SelfLinkLacksChar(w, v, 'H');
    }
    SelfLinkTailLacksBracket(w, v);
  }

  /** A character that is neither in `w`, nor in `v`, nor a bracket or parenthesis, is not in the self-link. */
  lemma SelfLinkLacksChar(w: string, v: string, c: char)
    requires c !in w && c !in v && c != '[' && c != ']' && c != '(' && c != ')'
    ensures c !in SelfLink(w, v)
  {
  }

  lemma SelfLinkTailLacksBracket(w: string, v: string)
    requires '[' !in w && '[' !in v
    ensures '[' !in SelfLink(w, v)[1..]
  {
    assert SelfLink(w, v)[1..] == w + v + "](" + w + v + ")";
  }

  /** Shielding turns both `http` of the self-link into `Http`. */
  lemma ShieldRecasesLink(v: string)
    requires '[' !in v && '(' !in v && '"' !in v && ' ' !in v && '<' !in v && 'h' !in v && 'H' !in v
    ensures ShieldSchemes(SelfLink("http", v)) == SelfLink("Http", v)
  {
    SelfLinkLacks("Http", v);
    BracketWords();
    RecaseBrackets(v, "http", "Http");
    ShieldTailKeeps(SelfLink("Http", v));
  }

  /** The bracket patterns of (un)shielding, as a bracket followed by the scheme word. */
  lemma BracketWords()
    ensures "[" + "http" == "[http" && "(" + "http" == "(http"
    ensures "[" + "Http" == "[Http" && "(" + "Http" == "(Http"
  {
  }

  /** Unshielding turns both `Http` of the self-link back into `http`. */
  lemma UnshieldRecasesLink(v: string)
    requires '[' !in v && '(' !in v && '"' !in v && ' ' !in v && '<' !in v && 'h' !in v && 'H' !in v
    ensures UnshieldSchemes(SelfLink("Http", v)) == SelfLink("http", v)
  {
    SelfLinkLacks("http", v);
    BracketWords();
    RecaseBrackets(v, "Http", "http");
    UnshieldTailKeeps(SelfLink("http", v));
  }

  /** The collapse leaves the dotted link alone: its text stops at the dot, not at `]`. */
  lemma CollapseKeepsDottedLink(a: string, b: string)
    requires |a| > 0 && All(a, IsAlnum) && All(a, IsPlainHostChar) && All(b, IsPlainHostChar)
    ensures var u := "http://" + a + "." + b;
      CollapseShortLinks("[" + u + "](" + u + ")") == "[" + u + "](" + u + ")"
  {
    var u := "http://" + a + "." + b;
    var x := "[" + u + "](" + u + ")";
    var i := 8 + |a|;
    assert x[1..i] == "http://" + a && x[i] == '.' && x[0] == '[';
    HttpHostIsShort(a);
    ShortLinkUnclosed(x, i);
    PlainTail(a, b);
    SelfLinkLacks("http", "://" + a + "." + b);
    DottedLinkShape(a, b);
    CollapseSkipsHead(x);
  }

  /** `http://` followed by a non-empty alphanumeric host is a short URL. */
  lemma HttpHostIsShort(a: string)
    requires |a| > 0 && All(a, IsAlnum)
    ensures IsShortUrl("http://" + a)
  {
    var u := "http://" + a;
    StartsWithPrefix("http://", a);
    if StartsWith(u, "https://") {
      StartsWithHolds(u, "https://", 4);
    }
    assert u[7..] == a;
  }

  /**
   * A bare short URL such as `http://localhost` comes out of the guard chain as it went in:
   * Linkify wraps it as `[u](u)` and the short-link collapse turns that back into `u`.
   */
  lemma GuardKeepsBareShortUrl(u: string)
    requires IsShortUrl(u) && 'H' !in u && !Occurs(u, "curl")
    ensures Guard(u) == u
  {
    ShortUrlLacks(u);
    ShieldKeeps(u);
    ShortUrlIsUrl(u);
    LinkifyWholeUrl(u);
    WrapLacks(u, 'H');
    WrapLacks(u, '<');
    UnshieldKeeps("[" + u + "](" + u + ")");
    HideTagsKeeps("[" + u + "](" + u + ")");
    CollapseWrapped(u, u[..0]);
  }

  /** Wrapping `u` as `[u](u)` adds only brackets and parentheses. */
  lemma WrapLacks(u: string, c: char)
    requires c !in u && c != '[' && c != ']' && c != '(' && c != ')'
    ensures c !in "[" + u + "](" + u + ")"
  {
  }

  /** The collapse turns a wrapped short URL `[u](u)` back into `u`. */
  lemma CollapseWrapped(u: string, e: string)
    requires IsShortUrl(u) && |e| == 0
    ensures CollapseShortLinks("[" + u + "](" + u + ")") == u
  {
    WrappedShortUrlCollapses(u, e);
    DropTail("[" + u + "](" + u + ")", e);
    DropTail(u, CollapseShortLinks(e));
  }

  lemma DropTail(a: string, e: string)
    requires |e| == 0
    ensures a + e == a
  {
  }

  lemma ShortUrlLacks(u: string)
    requires IsShortUrl(u)
    ensures '[' !in u && '(' !in u && '"' !in u && ' ' !in u && '<' !in u
  {
    ShortUrlShape(u);
    forall i | 0 <= i < |u| ensures IsShortUrlChar(u[i]) { }
  }

  /** A short URL matches URL_PATTERN as a whole. */
  lemma ShortUrlIsUrl(u: string)
    requires IsShortUrl(u)
    ensures IsUrl(u)
  {
    var p := SchemeLength(u);
    var body := u[p..];
    assert u[|u| - 1] == body[|body| - 1];
    forall i | 0 <= i < |body| ensures IsUrlChar(body[i]) { }
  }

  /** A text that is one URL is wrapped as a whole: `u` becomes `[u](u)`. */
  lemma LinkifyWholeUrl(u: string)
    requires IsUrl(u)
    ensures Linkify(u) == "[" + u + "](" + u + ")"
  {
    UrlLengthIsLongestMatch(u);
    assert u[..|u|] == u;
    var n := UrlLength(u).value;
    LinkifyWrapsLongestUrl(u);
    assert u[..n] == u && u[n..] == [];
  }

  // ---------------------------------------------------------------------------
  // Steps that cannot fire

  /** A literal replace whose pattern has a character the text lacks changes nothing. */
  lemma ReplaceLacking(s: string, pat: string, rep: string, k: nat)
    requires k < |pat| && pat[k] !in s
    ensures Replace(s, pat, rep) == s
  {
    MissingChar(s, pat, k);
    ReplaceAbsent(s, pat, rep);
  }

  /**
   * The step that re-cases `: http` leaves alone a text without spaces; the one that re-cases
   * `: Http` back leaves alone a text without `H`.
   */
  lemma ColonStepKeeps(t: string, pat: string, rep: string, shielding: bool)
    requires pat == if shielding then ": http" else ": Http"
    requires (if shielding then ' ' else 'H') !in t
    ensures Replace(t, pat, rep) == t
  {
    if shielding {
      ReplaceLacking(t, pat, rep, 1);
    } else {
      ReplaceLacking(t, pat, rep, 2);
    }
  }

  /** Shielding leaves alone a text without `[`, `(`, `"`, spaces or `curl`. */
  lemma ShieldKeeps(t: string)
    requires '[' !in t && '(' !in t && '"' !in t && ' ' !in t && !Occurs(t, "curl")
    ensures ShieldSchemes(t) == t
  {
    ReplaceLacking(t, "[http", "[Http", 0);
    ReplaceLacking(t, "(http", "(Http", 0);
    ReplaceLacking(t, "\"http", "\"Http", 0);
    CurlLacking(t, "http", "Http");
    ColonStepKeeps(t, ": http", ": Http", true);
  }

  /** The shielding steps after the brackets leave alone a text without `"`, `h` or spaces. */
  lemma ShieldTailKeeps(t: string)
    requires '"' !in t && 'h' !in t && ' ' !in t
    ensures Replace(ReplaceAll(Replace(t, "\"http", "\"Http"), Curl("http", "Http")), ": http", ": Http") == t
  {
    ReplaceLacking(t, "\"http", "\"Http", 0);
    CurlLackingWord(t, "http", "Http");
    ColonStepKeeps(t, ": http", ": Http", true);
  }

  /** Unshielding leaves alone a text without `H`. */
  lemma UnshieldKeeps(t: string)
    requires 'H' !in t
    ensures UnshieldSchemes(t) == t
  {
    ReplaceLacking(t, "[Http", "[http", 1);
    ReplaceLacking(t, "(Http", "(http", 1);
    UnshieldTailKeeps(t);
  }

  /** The unshielding steps after the brackets leave alone a text without `H`. */
  lemma UnshieldTailKeeps(t: string)
    requires 'H' !in t
    ensures Replace(ReplaceAll(Replace(t, "\"Http", "\"http"), Curl("Http", "http")), ": Http", ": http") == t
  {
    ReplaceLacking(t, "\"Http", "\"http", 1);
    CurlLackingWord(t, "Http", "http");
    ColonStepKeeps(t, ": Http", ": http", false);
  }

  /** The curl expression leaves alone a text without `curl`. */
  lemma CurlLacking(t: string, word: string, newWord: string)
    requires !Occurs(t, "curl")
    ensures ReplaceAll(t, Curl(word, newWord)) == t
  {
    MatchersNeedPrefix(word, newWord);
    ReplaceAllNeedsPrefix(t, Curl(word, newWord), "curl");
  }

  /** The curl expression leaves alone a text without the first character of its word. */
  lemma CurlLackingWord(t: string, word: string, newWord: string)
    requires |word| > 0 && word[0] !in t
    ensures ReplaceAll(t, Curl(word, newWord)) == t
  {
    CurlNeedsWordHead(word, newWord);
    ReplaceAllNeedsChar(t, Curl(word, newWord), word[0]);
  }

  /** Linkify leaves alone a text without `h`. */
  lemma LinkifyKeeps(t: string)
    requires 'h' !in t
    ensures Linkify(t) == t
  {
    MissingChar(t, "http", 0);
    MatchersNeedPrefix("http", "Http");
    ReplaceAllNeedsPrefix(t, UrlLinks(), "http");
  }

  /** Hiding the tags leaves alone a text without `<`. */
  lemma HideTagsKeeps(t: string)
    requires '<' !in t
    ensures HideTags(t) == t
  {
    ReplaceLacking(t, "<!-- toc -->", "HEREISTOC", 0);
    ReplaceLacking(t, "<br>", "HEREISBR", 0);
    ReplaceLacking(t, "<img", "BEGINIMG", 0);
  }

  /** The collapse leaves alone a text that opens no short link and has no later `[`. */
  lemma CollapseSkipsHead(x: string)
    requires |x| > 0 && ShortLinkMatch(x) == None && '[' !in x[1..]
    ensures CollapseShortLinks(x) == x
  {
    CollapseKeepsBracketless(x[1..]);
    assert [x[0]] + x[1..] == x;
  }

  /** The collapse leaves alone a text without `[`. */
  lemma CollapseKeepsBracketless(y: string)
    requires '[' !in y
    ensures ReplaceAll(y, ShortLinks()) == y
  {
    MissingChar(y, "[", 0);
    MatchersNeedPrefix("http", "Http");
    ReplaceAllNeedsPrefix(y, ShortLinks(), "[");
  }

  /**
   * The two bracket steps of (un)shielding on a self-link: `[w` becomes `[nw` and `(w` becomes
   * `(nw`, each exactly once.
   */
  lemma RecaseBrackets(v: string, w: string, nw: string)
    requires |w| > 0 && '[' !in v && '(' !in v && '[' !in w && '(' !in w && '[' !in nw && '(' !in nw
    ensures Replace(Replace(SelfLink(w, v), "[" + w, "[" + nw), "(" + w, "(" + nw) == SelfLink(nw, v)
  {
    RecaseOpenBracket(v, w, nw);
    RecaseOpenParen(v, w, nw);
  }

  /** The `[w` at the head of the self-link is the only one. */
  lemma RecaseOpenBracket(v: string, w: string, nw: string)
    requires '[' !in v && '[' !in w
    ensures Replace(SelfLink(w, v), "[" + w, "[" + nw) == ("[" + nw + v + "]") + ("(" + w) + (v + ")")
  {
    var rest := v + "](" + w + v + ")";
    SelfLinkHead(v, w);
    ReplaceAtStart("[" + w, rest, "[" + nw);
    ReplaceLacking(rest, "[" + w, "[" + nw, 0);
    SelfLinkMiddle(v, w, nw);
  }

  /** The self-link is `[w` followed by a rest without `[`. */
  lemma SelfLinkHead(v: string, w: string)
    requires '[' !in v && '[' !in w
    ensures SelfLink(w, v) == ("[" + w) + (v + "](" + w + v + ")")
    ensures ("[" + w)[0] !in v + "](" + w + v + ")"
  {
  }

  /** After its head is re-cased, the self-link is cut at its `(w`. */
  lemma SelfLinkMiddle(v: string, w: string, nw: string)
    ensures ("[" + nw) + (v + "](" + w + v + ")") == ("[" + nw + v + "]") + ("(" + w) + (v + ")")
  {
  }

  /** The `(w` in the middle of the self-link is the only one. */
  lemma RecaseOpenParen(v: string, w: string, nw: string)
    requires |w| > 0 && '(' !in v && '(' !in w && '(' !in nw
    ensures Replace(("[" + nw + v + "]") + ("(" + w) + (v + ")"), "(" + w, "(" + nw) == SelfLink(nw, v)
  {
    var pre, post := "[" + nw + v + "]", v + ")";
    SelfLinkParts(v, w, nw);
    SplitAtOccurrence(pre, "(" + w, post, "(" + nw);
    ReplaceLacking(pre, "(" + w, "(" + nw, 0);
    ReplaceLacking(post, "(" + w, "(" + nw, 0);
  }

  /** The re-cased self-link, cut at its `(nw`. */
  lemma SelfLinkParts(v: string, w: string, nw: string)
    ensures ("[" + nw + v + "]") + ("(" + nw) + (v + ")") == SelfLink(nw, v)
    ensures ("(" + w)[1..] == w
  {
  }

  // ---------------------------------------------------------------------------
  // A bare URL in running text

  /**
   * A bare URL `u` in running text `p + u + q` comes out of the guard chain as the link
   * `[u](u)`, with the text around it unchanged. This holds when:
   * - `u` is not a short URL (the collapse would turn a short one back into `u`);
   * - no `http` follows `(`, `"` or `: ` and no `curl` occurs (shielding would re-case it);
   * - no URL can begin inside `p` or `q`, and `q` does not continue the URL;
   * - no `[`, `<` or `H` occurs around it, and no `H` inside it.
   */
  lemma GuardWrapsBareUrl(p: string, u: string, q: string)
    requires IsUrl(u) && !IsShortUrl(u) && 'H' !in u
    requires Inert(p, "http") && Inert(q, "http") && (q == [] || !IsUrlChar(q[0]))
    requires '[' !in p && '[' !in q && '<' !in p && '<' !in q && 'H' !in p && 'H' !in q
    requires !Occurs(p + u + q, "(http") && !Occurs(p + u + q, "\"http")
    requires !Occurs(p + u + q, ": http") && !Occurs(p + u + q, "curl")
    ensures Guard(p + u + q) == p + "[" + u + "](" + u + ")" + q
  {
    var t := p + u + q;
    var w := "[" + u + "](" + u + ")";
    UrlLacks(u);
    TextLacks(p, u, q, '[');
    MissingChar(t, "[http", 0);
    ShieldKeepsUnguarded(t);
    LinkifyWrapsBareUrl(p, u, q);
    WrapLacks(u, 'H');
    WrapLacks(u, '<');
    TextLacks(p, w, q, 'H');
    TextLacks(p, w, q, '<');
    UnshieldKeeps(p + w + q);
    HideTagsKeeps(p + w + q);
    CollapseKeepsWrappedUrl(p, u, q);
    WrappedSpelling(p, u, q);
  }

  lemma TextLacks(p: string, u: string, q: string, c: char)
    requires c !in p && c !in u && c !in q
    ensures c !in p + u + q
  {
  }

  lemma WrappedSpelling(p: string, u: string, q: string)
    ensures p + ("[" + u + "](" + u + ")") + q == p + "[" + u + "](" + u + ")" + q
    ensures p + (("[" + u + "](" + u + ")") + q) == p + "[" + u + "](" + u + ")" + q
  {
  }

  /**
   * Shielding leaves alone a text in which no `http` follows `[`, `(`, `"` or `: ` and no
   * `curl` occurs: those are the only places it re-cases.
   */
  lemma ShieldKeepsUnguarded(t: string)
    requires !Occurs(t, "[http") && !Occurs(t, "(http") && !Occurs(t, "\"http")
    requires !Occurs(t, ": http") && !Occurs(t, "curl")
    ensures ShieldSchemes(t) == t
  {
    ReplaceAbsent(t, "[http", "[Http");
    ReplaceAbsent(t, "(http", "(Http");
    ReplaceAbsent(t, "\"http", "\"Http");
    CurlLacking(t, "http", "Http");
    ReplaceAbsent(t, ": http", ": Http");
  }

  /** Linkify copies a prefix inside which no URL can begin, then carries on after it. */
  lemma LinkifySkipsInert(p: string, s: string)
    requires Inert(p, "http")
    ensures Linkify(p + s) == p + Linkify(s)
  {
    MatchersNeedPrefix("http", "Http");
    ReplaceAllSkipsInert(p, s, UrlLinks(), "http");
  }

  /**
   * Linkify wraps a URL `u` in running text as `[u](u)` and leaves the text around it alone,
   * when no URL can begin inside `p` or `q` and `q` does not continue the URL.
   */
  lemma LinkifyWrapsBareUrl(p: string, u: string, q: string)
    requires IsUrl(u) && Inert(p, "http") && Inert(q, "http") && (q == [] || !IsUrlChar(q[0]))
    ensures Linkify(p + u + q) == p + "[" + u + "](" + u + ")" + q
  {
    assert p + u + q == p + (u + q);
    LinkifySkipsInert(p, u + q);
    UrlLengthOf(u, q);
    LinkifyWrapsLongestUrl(u + q);
    assert (u + q)[..|u|] == u && (u + q)[|u|..] == q;
    LinkifySkipsInert(q, []);
    assert q + [] == q;
    WrappedSpelling(p, u, q);
  }

  /** The URL matcher takes all of `u` and no more when what follows cannot continue a URL. */
  lemma UrlLengthOf(u: string, q: string)
    requires IsUrl(u) && (q == [] || !IsUrlChar(q[0]))
    ensures UrlLength(u + q) == Some(|u|)
  {
    var s := u + q;
    assert s[..|u|] == u;
    UrlLengthIsLongestMatch(s);
    var n := UrlLength(s).value;
    if n > |u| {
      IsUrlPrefix(s, n);
      IsUrlPrefix(s, |u|);
      assert false;
    }
  }

  /** Every character of a URL is a URL character, and the last one may end a URL. */
  lemma UrlChars(u: string)
    requires IsUrl(u)
    ensures All(u, IsUrlChar) && IsUrlEndChar(u[|u| - 1])
  {
    assert u[..|u|] == u;
    IsUrlPrefix(u, |u|);
    var n := SchemeLength(u);
    var scheme := if n == 8 then "https://" else "http://";
    StartsWithSlice(u, scheme);
    forall i | 0 <= i < |u| ensures IsUrlChar(u[i]) {
      if i < n {
        assert u[i] == u[..n][i] == scheme[i];
      } else {
        assert u[i] == u[n..|u|][i - n];
      }
    }
    assert u[|u| - 1] == u[n..|u|][|u| - 1 - n];
  }

  lemma UrlLacks(u: string)
    requires IsUrl(u)
    ensures '[' !in u && ']' !in u && '<' !in u
  {
    UrlChars(u);
    forall i | 0 <= i < |u| ensures IsUrlChar(u[i]) { }
  }

  /** The collapse leaves a wrapped URL `[u](u)` alone when `u` is not a short URL. */
  lemma CollapseKeepsWrappedUrl(p: string, u: string, q: string)
    requires IsUrl(u) && !IsShortUrl(u) && '[' !in p && '[' !in q
    ensures CollapseShortLinks(p + ("[" + u + "](" + u + ")" + q)) == p + ("[" + u + "](" + u + ")" + q)
  {
    var x := "[" + u + "](" + u + ")" + q;
    UrlChars(u);
    UrlLacks(u);
    CollapseSkipsPlain(p, x);
    WrappedShape(u, q);
    WrappedUrlOpensNoShortLink(x, u);
    WrappedTailLacksBracket(u, q);
    CollapseSkipsHead(x);
  }

  /** The collapse copies a prefix without `[`. */
  lemma CollapseSkipsPlain(p: string, x: string)
    requires '[' !in p
    ensures CollapseShortLinks(p + x) == p + CollapseShortLinks(x)
  {
    MatchersNeedPrefix("http", "Http");
    HeadInert(p, "[");
    ReplaceAllSkipsInert(p, x, ShortLinks(), "[");
  }

  /** Where the text and the closing bracket of `[u](u)` sit. */
  lemma WrappedShape(u: string, q: string)
    ensures var x := "[" + u + "](" + u + ")" + q;
      |x| > |u| + 1 && x[0] == '[' && x[1..|u| + 1] == u && x[|u| + 1] == ']'
  {
  }

  lemma WrappedTailLacksBracket(u: string, q: string)
    requires '[' !in u && '[' !in q
    ensures '[' !in ("[" + u + "](" + u + ")" + q)[1..]
  {
    assert ("[" + u + "](" + u + ")" + q)[1..] == u + "](" + u + ")" + q;
  }

  /**
   * `[u]…` opens no short link when `u` is a run of URL characters that is not a short URL:
   * the alphanumeric host ends before `u` does, at a character that is not `]`.
   */
  lemma WrappedUrlOpensNoShortLink(x: string, u: string)
    requires All(u, IsUrlChar) && !IsShortUrl(u)
    requires |x| > |u| + 1 && x[0] == '[' && x[1..|u| + 1] == u && x[|u| + 1] == ']'
    ensures ShortLinkMatch(x) == None
  {
    var y := x[1..];
    var text := ShortUrlLength(y);
    if text > |u| {
      ShortUrlShape(y[..text]);
      assert y[..text][|u|] == x[|u| + 1];
    } else if text == |u| {
      assert y[..text] == x[1..|u| + 1];
    } else if text > 0 {
      assert x[1 + text..][0] == u[text] && IsUrlChar(u[text]);
    }
  }

  /**
   * No `: ` occurs in `p + u + q` when neither `p` nor `q` holds a colon: inside a URL a
   * colon is followed by a URL character, and a URL does not end in one.
   */
  lemma ColonNeverSpaced(p: string, u: string, q: string)
    requires IsUrl(u) && ':' !in p && ':' !in q
    ensures !Occurs(p + u + q, ": http")
  {
    UrlChars(u);
    HeadInert(p, ": http");
    ColonFollowedInert(u);
    HeadAbsent(q, ": http");
    if Occurs(p + u + q, ": http") {
      assert p + u + q == p + (u + q);
      InertOccurs(p, u + q, ": http");
      InertOccurs(u, q, ": http");
    }
  }

  /** URL characters in which every colon has a successor cannot start `: `. */
  lemma {:induction false} ColonFollowedInert(x: string)
    requires All(x, IsUrlChar) && (|x| > 0 ==> x[|x| - 1] != ':')
    ensures Inert(x, ": http")
    decreases |x|
  {
    if |x| > 0 {
      if x[0] == ':' {
        assert IsUrlChar(x[1]);
        assert x[1..][0] == x[1] && ": http"[1..][0] == ' ';
      }
      assert |x| > 1 ==> x[1..][|x| - 2] == x[|x| - 1];
      ColonFollowedInert(x[1..]);
    }
  }

  // ---------------------------------------------------------------------------
  // Instances

  /** `see http://a.com now` comes out of the guard chain as `see [http://a.com](http://a.com) now`. */
  lemma GuardWrapsUrlInSentence(t: string)
    requires t == "see http://a.com now"
    ensures Guard(t) == "see [http://a.com](http://a.com) now"
  {
    SentenceInstance(t, "see ", "http://a.com", " now");
  }

  lemma SentenceInstance(t: string, p: string, u: string, q: string)
    requires p == "see " && u == "http://a.com" && q == " now" && t == "see http://a.com now"
    ensures Guard(t) == "see [http://a.com](http://a.com) now"
  {
    SentenceSpelling(t, p, u, q);
    SentenceUrl(u);
    SentenceProse(p, q);
    ColonNeverSpaced(p, u, q);
    MissingChar(t, "(http", 0);
    MissingChar(t, "\"http", 0);
    MissingChar(t, "curl", 1);
    GuardWrapsBareUrl(p, u, q);
  }

  lemma SentenceSpelling(t: string, p: string, u: string, q: string)
    requires p == "see " && u == "http://a.com" && q == " now" && t == "see http://a.com now"
    ensures t == p + u + q && "see [http://a.com](http://a.com) now" == p + "[" + u + "](" + u + ")" + q
    ensures "(http"[0] !in t && "\"http"[0] !in t && 1 < |"curl"| && "curl"[1] !in t
  {
    SentenceLinked(p, u, q);
  }

  lemma SentenceLinked(p: string, u: string, q: string)
    requires p == "see " && u == "http://a.com" && q == " now"
    ensures "see [http://a.com](http://a.com) now" == p + "[" + u + "](" + u + ")" + q
  {
  }

  lemma SentenceUrl(u: string)
    requires u == "http://a.com"
    ensures IsUrl(u) && !IsShortUrl(u) && 'H' !in u
  {
    var b := u[7..];
    assert u == "http://" + b;
    StartsWithPrefix("http://", b);
    if StartsWith(u, "https://") {
      StartsWithHolds(u, "https://", 4);
    }
    assert b[1] == '.';
  }

  lemma SentenceProse(p: string, q: string)
    requires p == "see " && q == " now"
    ensures Inert(p, "http") && Inert(q, "http") && !IsUrlChar(q[0])
    ensures '[' !in p && '[' !in q && '<' !in p && '<' !in q && 'H' !in p && 'H' !in q
    ensures ':' !in p && ':' !in q
  {
    HeadInert(p, "http");
    HeadInert(q, "http");
  }

  /** `[http://a.com](http://a.com)` comes out of the guard chain as it went in. */
  lemma GuardKeepsLinkToDottedHost(x: string)
    requires x == "[http://a.com](http://a.com)"
    ensures Guard(x) == x
  {
    DottedHostInstance(x, "a", "com");
  }

  lemma DottedHostInstance(x: string, a: string, b: string)
    requires a == "a" && b == "com" && x == "[http://a.com](http://a.com)"
    ensures Guard(x) == x
  {
    DottedHostSpelling(x, a, b);
    DottedHostChars(a, b);
    GuardKeepsDottedLink(a, b);
  }

  lemma DottedHostSpelling(x: string, a: string, b: string)
    requires a == "a" && b == "com" && x == "[http://a.com](http://a.com)"
    ensures var u := "http://" + a + "." + b; x == "[" + u + "](" + u + ")"
  {
  }

  lemma DottedHostChars(a: string, b: string)
    requires a == "a" && b == "com"
    ensures |a| > 0 && All(a, IsAlnum) && All(a, IsPlainHostChar) && All(b, IsPlainHostChar)
  {
  }

  /** `http://localhost` comes out of the guard chain as it went in. */
  lemma GuardKeepsLocalhost(u: string)
    requires u == "http://localhost"
    ensures Guard(u) == u
  {
    LocalhostInstance(u, "localhost");
  }

  lemma LocalhostInstance(u: string, h: string)
    requires h == "localhost" && u == "http://localhost"
    ensures Guard(u) == u
  {
    LocalhostSpelling(u, h);
    HttpHostIsShort(h);
    MissingChar(u, "curl", 1);
    GuardKeepsBareShortUrl(u);
  }

  lemma LocalhostSpelling(u: string, h: string)
    requires h == "localhost" && u == "http://localhost"
    ensures |h| > 0 && All(h, IsAlnum) && u == "http://" + h
    ensures 'H' !in u && 1 < |"curl"| && "curl"[1] !in u
  {
  }
}
