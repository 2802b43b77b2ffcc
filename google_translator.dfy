/**
 * GoogleTranslator.translate: a fixed chain of string rewrites around an opaque middle
 * (markdown parsing and rendering, the translation provider and the HTML-to-markdown
 * converter).
 *
 * Before translation the guard chain keeps the provider away from URLs and from the tags
 * `<!-- toc -->`, `<br>` and `<img`: URLs that are not already link targets are wrapped as
 * markdown links, and the tags are swapped for the sentinel words HEREISTOC, HEREISBR and
 * BEGINIMG.  After translation the cleanup chain repairs what the converter tends to
 * produce, and the restore chain turns the sentinel words back into tags.
 */
module GoogleTranslator {
  import opened Wrappers
  import opened TextReplace
  import opened TextSplit
  import opened Patterns

  // ---------------------------------------------------------------------------
  // The guard chain

  /** `http` after `[`, `(`, `"`, `curl …` and `: ` is written `Http`, so that URL wrapping skips it. */
  function ShieldSchemes(text: string): string {
    var t1 := Replace(text, "[http", "[Http");
    var t2 := Replace(t1, "(http", "(Http");
    var t3 := Replace(t2, "\"http", "\"Http");
    var t4 := ReplaceAll(t3, Curl("http", "Http"));
    Replace(t4, ": http", ": Http")
  }

  /** Every match of URL_PATTERN becomes `[u](u)`. */
  function Linkify(text: string): string {
    ReplaceAll(text, UrlLinks())
  }

  /** The shielded `Http` is written `http` again. */
  function UnshieldSchemes(text: string): string {
    var t1 := Replace(text, "[Http", "[http");
    var t2 := Replace(t1, "(Http", "(http");
    var t3 := Replace(t2, "\"Http", "\"http");
    var t4 := ReplaceAll(t3, Curl("Http", "http"));
    Replace(t4, ": Http", ": http")
  }

  /** The tags the provider must not see become sentinel words. */
  function HideTags(text: string): string {
    var t1 := Replace(text, "<!-- toc -->", "HEREISTOC");
    var t2 := Replace(t1, "<br>", "HEREISBR");
    Replace(t2, "<img", "BEGINIMG")
  }

  /** `[http://host](http://other)` with alphanumeric hosts becomes `http://host`. */
  function CollapseShortLinks(text: string): string {
    ReplaceAll(text, ShortLinks())
  }

  /** The text handed to the markdown formatter. */
  function Guard(text: string): string {
    CollapseShortLinks(HideTags(UnshieldSchemes(Linkify(ShieldSchemes(text)))))
  }

  // ---------------------------------------------------------------------------
  // The cleanup chain, applied to the converter's markdown

  /** `\<` and `\>` lose their backslash. */
  function UnescapeAngles(text: string): string {
    Replace(Replace(text, "\\<", "<"), "\\>", ">")
  }

  function Cleanup(text: string): string {
    var t1 := UnescapeAngles(text);
    var t2 := ReplaceAll(t1, EmphasisNumbers());
    var t3 := ReplaceAll(t2, SpacedNumbers());
    ReplaceAll(t3, NumbersAtLineEnd())
  }

  // ---------------------------------------------------------------------------
  // The restore chain

  /** The platform's line separator (System.lineSeparator()). */
  datatype LineSeparator = Lf | CrLf

  function SeparatorText(ls: LineSeparator): string {
    match ls
    case Lf => "\n"
    case CrLf => "\r\n"
  }

  /** The sentinel words become tags again; the table-of-contents marker gets a line of its own. */
  function Restore(text: string, ls: LineSeparator): string {
    var t1 := Replace(text, "HEREISTOC", SeparatorText(ls) + "<!-- toc -->");
    var t2 := Replace(t1, "HEREISBR", "<br>");
    Replace(t2, "BEGINIMG", "<img")
  }

  // ---------------------------------------------------------------------------
  // translate

  /**
   * The stages that are not modelled.  `renderForTranslation` is the parse, the two
   * translation renders and the HTML render of the guarded text; `provider` is the call to
   * the translation service (a failure stands for the exception it throws);
   * `htmlToMarkdown` is the converter; `renderTranslated` is the final render of the
   * cleaned markdown with the translated texts.
   */
  datatype Collaborators = Collaborators(
    renderForTranslation: string -> string,
    provider: (string, Option<string>, Option<string>) -> Result<string, string>,
    htmlToMarkdown: string -> string,
    renderTranslated: string -> string)

  /** The HTML sent to the provider. */
  function ProviderInput(text: string, c: Collaborators): string {
    c.renderForTranslation(Guard(text))
  }

  /** `source` and `target` are nullable language codes, compared null-safely. */
  function Translate(text: string, source: Option<string>, target: Option<string>,
                     c: Collaborators, ls: LineSeparator): (r: Result<string, string>)
    ensures source == target ==> r == Success(text)
    ensures source != target ==>
      (r.Failure? <==> c.provider(ProviderInput(text, c), source, target).Failure?)
    ensures source != target && r.Success? ==>
      !Occurs(r.value, "HEREISTOC") && !Occurs(r.value, "HEREISBR") && !Occurs(r.value, "BEGINIMG")
  {
    if source == target then Success(text)
    else
      var translated := c.provider(ProviderInput(text, c), source, target);
      if translated.Failure? then Failure(translated.error)
      else Success(RenderTranslation(translated.value, c, ls))
  }

  /** The provider's HTML, converted, cleaned up, rendered and with its tags restored. */
  function RenderTranslation(html: string, c: Collaborators, ls: LineSeparator): (r: string)
    ensures !Occurs(r, "HEREISTOC") && !Occurs(r, "HEREISBR") && !Occurs(r, "BEGINIMG")
  {
    var markdown := c.renderTranslated(Cleanup(c.htmlToMarkdown(html)));
    RestoreRemovesSentinels(markdown, ls);
    Restore(markdown, ls)
  }

  // ---------------------------------------------------------------------------
  // Restore

  /** No sentinel word survives the restore chain, whatever the translated text holds. */
  lemma RestoreRemovesSentinels(text: string, ls: LineSeparator)
    ensures !Occurs(Restore(text, ls), "HEREISTOC")
    ensures !Occurs(Restore(text, ls), "HEREISBR")
    ensures !Occurs(Restore(text, ls), "BEGINIMG")
  {
    var t1 := Replace(text, "HEREISTOC", SeparatorText(ls) + "<!-- toc -->");
    RestoreTocStep(text, ls);
    RestoreBrStep(t1);
    RestoreLastStep(Replace(t1, "HEREISBR", "<br>"));
  }

  /** The restored table-of-contents marker holds no letter a sentinel word starts with. */
  lemma TocMarkerChars(ls: LineSeparator)
    ensures var toc := SeparatorText(ls) + "<!-- toc -->";
      'H' !in toc && 'B' !in toc && toc[0] !in "EREISTOC"
  {
    var toc := SeparatorText(ls) + "<!-- toc -->";
    if ls == Lf {
      assert toc == "\n<!-- toc -->";
    } else {
      assert toc == "\r\n<!-- toc -->";
    }
  }

  lemma RestoreTocStep(text: string, ls: LineSeparator)
    ensures !Occurs(Replace(text, "HEREISTOC", SeparatorText(ls) + "<!-- toc -->"), "HEREISTOC")
  {
    var toc := SeparatorText(ls) + "<!-- toc -->";
    TocMarkerChars(ls);
    HeadInert(toc, "HEREISTOC");
    HeadInert("EREISTOC", toc);
    ReplaceRemoves(text, "HEREISTOC", toc);
  }

  lemma RestoreBrStep(t1: string)
    ensures !Occurs(t1, "HEREISTOC") ==> !Occurs(Replace(t1, "HEREISBR", "<br>"), "HEREISTOC")
    ensures !Occurs(Replace(t1, "HEREISBR", "<br>"), "HEREISBR")
  {
    HeadInert("<br>", "HEREISTOC");
    HeadInert("EREISTOC", "<br>");
    if !Occurs(t1, "HEREISTOC") {
      ReplaceKeepsAbsent(t1, "HEREISBR", "<br>", "HEREISTOC");
    }
    HeadInert("<br>", "HEREISBR");
    HeadInert("EREISBR", "<br>");
    ReplaceRemoves(t1, "HEREISBR", "<br>");
  }

  lemma RestoreLastStep(t2: string)
    ensures !Occurs(t2, "HEREISTOC") ==> !Occurs(Replace(t2, "BEGINIMG", "<img"), "HEREISTOC")
    ensures !Occurs(t2, "HEREISBR") ==> !Occurs(Replace(t2, "BEGINIMG", "<img"), "HEREISBR")
    ensures !Occurs(Replace(t2, "BEGINIMG", "<img"), "BEGINIMG")
  {
    if !Occurs(t2, "HEREISTOC") {
      RestoreImgKeepsToc(t2);
    }
    if !Occurs(t2, "HEREISBR") {
      RestoreImgKeepsBr(t2);
    }
    RestoreImgRemoves(t2);
  }

  lemma RestoreImgKeepsToc(t2: string)
    requires !Occurs(t2, "HEREISTOC")
    ensures !Occurs(Replace(t2, "BEGINIMG", "<img"), "HEREISTOC")
  {
    HeadInert("<img", "HEREISTOC");
    HeadInert("EREISTOC", "<img");
    ReplaceKeepsAbsent(t2, "BEGINIMG", "<img", "HEREISTOC");
  }

  lemma RestoreImgKeepsBr(t2: string)
    requires !Occurs(t2, "HEREISBR")
    ensures !Occurs(Replace(t2, "BEGINIMG", "<img"), "HEREISBR")
  {
    HeadInert("<img", "HEREISBR");
    HeadInert("EREISBR", "<img");
    ReplaceKeepsAbsent(t2, "BEGINIMG", "<img", "HEREISBR");
  }

  lemma RestoreImgRemoves(t2: string)
    ensures !Occurs(Replace(t2, "BEGINIMG", "<img"), "BEGINIMG")
  {
    HeadInert("<img", "BEGINIMG");
    HeadInert("EGINIMG", "<img");
    ReplaceRemoves(t2, "BEGINIMG", "<img");
  }


  // ---------------------------------------------------------------------------
  // Guard: shielding

  /** A literal replace of `pat` by `rep` leaves no `pat`, when `rep` differs from `pat` in its second character. */
  lemma RecaseRemoves(s: string, pat: string, rep: string)
    requires |pat| >= 2 && |pat| == |rep| && pat[0] == rep[0] && pat[1] != rep[1]
    requires rep[0] !in rep[1..] && rep[0] !in pat[1..]
    ensures !Occurs(Replace(s, pat, rep), pat)
  {
    HeadInert(rep[1..], pat);
    assert Inert(rep, pat) by {
      assert !Compatible(rep[1..], pat[1..]);
    }
    HeadInert(pat[1..], rep);
    ReplaceRemoves(s, pat, rep);
  }

  /** After shielding, no `http` follows `[`, `(`, `"` or `: `. */
  lemma ShieldLeavesNoBareScheme(text: string)
    ensures !Occurs(ShieldSchemes(text), "[http")
    ensures !Occurs(ShieldSchemes(text), "(http")
    ensures !Occurs(ShieldSchemes(text), "\"http")
    ensures !Occurs(ShieldSchemes(text), ": http")
  {
    var t1 := Replace(text, "[http", "[Http");
    var t2 := Replace(t1, "(http", "(Http");
    var t3 := Replace(t2, "\"http", "\"Http");
    var t4 := ReplaceAll(t3, Curl("http", "Http"));
    ShieldBracketSteps(text);
    ShieldQuoteStep(t2);
    ShieldCurlStep(t3);
    ShieldColonStep(t4);
  }

  lemma ShieldBracketSteps(text: string)
    ensures var t2 := Replace(Replace(text, "[http", "[Http"), "(http", "(Http");
      !Occurs(t2, "[http") && !Occurs(t2, "(http")
  {
    var t1 := Replace(text, "[http", "[Http");
    RecaseRemoves(text, "[http", "[Http");
    SwapKeeps(t1, "(http", "(Http", "[http");
    RecaseRemoves(t1, "(http", "(Http");
  }

  lemma ShieldCurlStep(t3: string)
    requires !Occurs(t3, "[http") && !Occurs(t3, "(http") && !Occurs(t3, "\"http")
    ensures var t4 := ReplaceAll(t3, Curl("http", "Http"));
      !Occurs(t4, "[http") && !Occurs(t4, "(http") && !Occurs(t4, "\"http")
  {
    var t4 := ReplaceAll(t3, Curl("http", "Http"));
    CurlRecases("http", "Http");
    ReplaceAllRecases(t3, Curl("http", "Http"), 'h', 'H');
    RecasedKeepsAbsent(t3, t4, 'h', 'H', "[http");
    RecasedKeepsAbsent(t3, t4, 'h', 'H', "(http");
    RecasedKeepsAbsent(t3, t4, 'h', 'H', "\"http");
  }

  lemma ShieldQuoteStep(t2: string)
    requires !Occurs(t2, "[http") && !Occurs(t2, "(http")
    ensures var t3 := Replace(t2, "\"http", "\"Http");
      !Occurs(t3, "[http") && !Occurs(t3, "(http") && !Occurs(t3, "\"http")
  {
    SwapKeeps(t2, "\"http", "\"Http", "[http");
    SwapKeeps(t2, "\"http", "\"Http", "(http");
    RecaseRemoves(t2, "\"http", "\"Http");
  }

  lemma ShieldColonStep(t4: string)
    requires !Occurs(t4, "[http") && !Occurs(t4, "(http") && !Occurs(t4, "\"http")
    ensures var t5 := Replace(t4, ": http", ": Http");
      !Occurs(t5, "[http") && !Occurs(t5, "(http") && !Occurs(t5, "\"http") && !Occurs(t5, ": http")
  {
    SwapKeeps(t4, ": http", ": Http", "[http");
    SwapKeeps(t4, ": http", ": Http", "(http");
    SwapKeeps(t4, ": http", ": Http", "\"http");
    ShieldColonRemoves(t4);
  }

  lemma ShieldColonRemoves(t4: string)
    ensures !Occurs(Replace(t4, ": http", ": Http"), ": http")
  {
    HeadInert(" Http", ": http");
    assert Inert(": Http", ": http") by {
      assert !Compatible(": Http", ": http");
    }
    HeadInert(" http", ": Http");
    ReplaceRemoves(t4, ": http", ": Http");
  }


  /**
   * After shielding, a URL match never starts right after `[`, `(`, `"` or `: `: only bare
   * URLs get wrapped, not link targets, quoted URLs or values after a colon.
   */
  lemma ShieldedUrlIsBare(text: string, i: nat)
    ensures 1 <= i <= |ShieldSchemes(text)| && UrlLength(ShieldSchemes(text)[i..]).Some? ==>
      ShieldSchemes(text)[i - 1] !in {'[', '(', '"'} &&
      (i >= 2 ==> ShieldSchemes(text)[i - 2..i] != ": ")
  {
    var x := ShieldSchemes(text);
    if 1 <= i <= |x| && UrlLength(x[i..]).Some? {
      ShieldLeavesNoBareScheme(text);
      UrlLinkNeedsHttp(x[i..]);
      UrlNotAfterShield(x, i);
    }
  }

  lemma UrlNotAfterShield(x: string, i: nat)
    requires !Occurs(x, "[http") && !Occurs(x, "(http") && !Occurs(x, "\"http") && !Occurs(x, ": http")
    requires 1 <= i <= |x| && StartsWith(x[i..], "http")
    ensures x[i - 1] !in {'[', '(', '"'}
    ensures i >= 2 ==> x[i - 2..i] != ": "
  {
    UrlNotAfterBracket(x, i);
    UrlNotAfterQuote(x, i);
    UrlNotAfterColon(x, i);
  }

  lemma UrlNotAfterQuote(x: string, i: nat)
    requires !Occurs(x, "\"http")
    requires 1 <= i <= |x| && StartsWith(x[i..], "http")
    ensures x[i - 1] != '"'
  {
    NotAfter(x, i, "\"http", 1);
  }

  lemma UrlNotAfterColon(x: string, i: nat)
    requires !Occurs(x, ": http")
    requires 1 <= i <= |x| && StartsWith(x[i..], "http")
    ensures i >= 2 ==> x[i - 2..i] != ": "
  {
    NotAfter(x, i, ": http", 2);
  }

  lemma UrlNotAfterBracket(x: string, i: nat)
    requires !Occurs(x, "[http") && !Occurs(x, "(http")
    requires 1 <= i <= |x| && StartsWith(x[i..], "http")
    ensures x[i - 1] != '[' && x[i - 1] != '('
  {
    NotAfter(x, i, "[http", 1);
    NotAfter(x, i, "(http", 1);
  }


  /** When `q` is some `k` characters followed by `http` and does not occur, those characters do not precede an `http`. */
  lemma NotAfter(x: string, i: nat, q: string, k: nat)
    requires |q| == k + 4 && q[k..] == "http" && !Occurs(x, q)
    requires i <= |x| && StartsWith(x[i..], "http")
    ensures k <= i ==> x[i - k..i] != q[..k]
  {
    if k <= i && x[i - k..i] == q[..k] {
      StartsWithSlice(x[i..], "http");
      forall j | 0 <= j < k + 4 ensures x[i - k..i + 4][j] == q[j] {
        if j < k {
          assert x[i - k..i + 4][j] == x[i - k..i][j] && q[j] == q[..k][j];
        } else {
          assert x[i - k..i + 4][j] == x[i..][..4][j - k] && q[j] == q[k..][j - k];
        }
      }
      PrefixedOccurs(x, i - k, q);
    }
  }

  /** `q` occurs in `x` when it is spelled out from position `j`. */
  lemma PrefixedOccurs(x: string, j: nat, q: string)
    requires j + |q| <= |x| && x[j..j + |q|] == q
    ensures Occurs(x, q)
  {
    StartsWithSlice(x[j..], q);
    assert x[j..][..|q|] == x[j..j + |q|];
    OccursSuffix(x, q, j);
  }

  // ---------------------------------------------------------------------------
  // Guard: unshielding, tags, and the whole chain

  /** After unshielding, no `Http` follows `[`, `(`, `"` or `: `, even where the author wrote one. */
  lemma UnshieldLeavesNoShield(text: string)
    ensures !Occurs(UnshieldSchemes(text), "[Http")
    ensures !Occurs(UnshieldSchemes(text), "(Http")
    ensures !Occurs(UnshieldSchemes(text), "\"Http")
    ensures !Occurs(UnshieldSchemes(text), ": Http")
  {
    var t1 := Replace(text, "[Http", "[http");
    var t2 := Replace(t1, "(Http", "(http");
    var t3 := Replace(t2, "\"Http", "\"http");
    var t4 := ReplaceAll(t3, Curl("Http", "http"));
    UnshieldBracketSteps(text);
    UnshieldQuoteStep(t2);
    UnshieldCurlStep(t3);
    UnshieldColonStep(t4);
  }

  lemma UnshieldBracketSteps(text: string)
    ensures var t2 := Replace(Replace(text, "[Http", "[http"), "(Http", "(http");
      !Occurs(t2, "[Http") && !Occurs(t2, "(Http")
  {
    var t1 := Replace(text, "[Http", "[http");
    RecaseRemoves(text, "[Http", "[http");
    SwapKeeps(t1, "(Http", "(http", "[Http");
    RecaseRemoves(t1, "(Http", "(http");
  }

  lemma UnshieldQuoteStep(t2: string)
    requires !Occurs(t2, "[Http") && !Occurs(t2, "(Http")
    ensures var t3 := Replace(t2, "\"Http", "\"http");
      !Occurs(t3, "[Http") && !Occurs(t3, "(Http") && !Occurs(t3, "\"Http")
  {
    SwapKeeps(t2, "\"Http", "\"http", "[Http");
    SwapKeeps(t2, "\"Http", "\"http", "(Http");
    RecaseRemoves(t2, "\"Http", "\"http");
  }

  lemma UnshieldCurlStep(t3: string)
    requires !Occurs(t3, "[Http") && !Occurs(t3, "(Http") && !Occurs(t3, "\"Http")
    ensures var t4 := ReplaceAll(t3, Curl("Http", "http"));
      !Occurs(t4, "[Http") && !Occurs(t4, "(Http") && !Occurs(t4, "\"Http")
  {
    var t4 := ReplaceAll(t3, Curl("Http", "http"));
    CurlRecases("Http", "http");
    ReplaceAllRecases(t3, Curl("Http", "http"), 'H', 'h');
    RecasedKeepsAbsent(t3, t4, 'H', 'h', "[Http");
    RecasedKeepsAbsent(t3, t4, 'H', 'h', "(Http");
    RecasedKeepsAbsent(t3, t4, 'H', 'h', "\"Http");
  }

  lemma UnshieldColonStep(t4: string)
    requires !Occurs(t4, "[Http") && !Occurs(t4, "(Http") && !Occurs(t4, "\"Http")
    ensures var t5 := Replace(t4, ": Http", ": http");
      !Occurs(t5, "[Http") && !Occurs(t5, "(Http") && !Occurs(t5, "\"Http") && !Occurs(t5, ": Http")
  {
    SwapKeeps(t4, ": Http", ": http", "[Http");
    SwapKeeps(t4, ": Http", ": http", "(Http");
    SwapKeeps(t4, ": Http", ": http", "\"Http");
    UnshieldColonRemoves(t4);
  }

  lemma UnshieldColonRemoves(t4: string)
    ensures !Occurs(Replace(t4, ": Http", ": http"), ": Http")
  {
    HeadInert(" http", ": Http");
    assert Inert(": http", ": Http") by {
      assert !Compatible(": http", ": Http");
    }
    HeadInert(" Http", ": http");
    ReplaceRemoves(t4, ": Http", ": http");
  }


  /** Hiding the tags leaves none of them, whatever the text holds. */
  lemma HideTagsRemovesTags(text: string)
    ensures !Occurs(HideTags(text), "<!-- toc -->")
    ensures !Occurs(HideTags(text), "<br>")
    ensures !Occurs(HideTags(text), "<img")
  {
    var t1 := Replace(text, "<!-- toc -->", "HEREISTOC");
    HideTocStep(text);
    HideBrStep(t1);
    HideImgStep(Replace(t1, "<br>", "HEREISBR"));
  }

  lemma HideTocStep(text: string)
    ensures !Occurs(Replace(text, "<!-- toc -->", "HEREISTOC"), "<!-- toc -->")
  {
    HeadInert("HEREISTOC", "<!-- toc -->");
    HeadInert("!-- toc -->", "HEREISTOC");
    ReplaceRemoves(text, "<!-- toc -->", "HEREISTOC");
  }

  lemma HideBrStep(t1: string)
    requires !Occurs(t1, "<!-- toc -->")
    ensures var t2 := Replace(t1, "<br>", "HEREISBR");
      !Occurs(t2, "<!-- toc -->") && !Occurs(t2, "<br>")
  {
    SwapKeeps(t1, "<br>", "HEREISBR", "<!-- toc -->");
    HideBrRemoves(t1);
  }

  lemma HideBrRemoves(t1: string)
    ensures !Occurs(Replace(t1, "<br>", "HEREISBR"), "<br>")
  {
    HeadInert("HEREISBR", "<br>");
    HeadInert("br>", "HEREISBR");
    ReplaceRemoves(t1, "<br>", "HEREISBR");
  }


  lemma HideImgStep(t2: string)
    requires !Occurs(t2, "<!-- toc -->") && !Occurs(t2, "<br>")
    ensures var t3 := Replace(t2, "<img", "BEGINIMG");
      !Occurs(t3, "<!-- toc -->") && !Occurs(t3, "<br>") && !Occurs(t3, "<img")
  {
    SwapKeeps(t2, "<img", "BEGINIMG", "<!-- toc -->");
    SwapKeeps(t2, "<img", "BEGINIMG", "<br>");
    HideImgRemoves(t2);
  }

  lemma HideImgRemoves(t2: string)
    ensures !Occurs(Replace(t2, "<img", "BEGINIMG"), "<img")
  {
    HeadInert("BEGINIMG", "<img");
    HeadInert("img", "BEGINIMG");
    ReplaceRemoves(t2, "<img", "BEGINIMG");
  }


  /** No sentinel word can start inside `Http` or ` Http`. */
  lemma HttpInertForSentinels()
    ensures Inert("Http", "HEREISTOC") && Inert("Http", "HEREISBR") && Inert("Http", "BEGINIMG")
    ensures Inert(" Http", "HEREISTOC") && Inert(" Http", "HEREISBR") && Inert(" Http", "BEGINIMG")
  {
    HeadInert("ttp", "HEREISTOC");
    HeadInert("ttp", "HEREISBR");
    HeadInert("Http", "BEGINIMG");
    HeadInert(" Http", "BEGINIMG");
    assert "Http"[1..] == "ttp" && " Http"[1..] == "Http";
  }

  /** A shielding character followed by `Http` or ` Http`: the texts that unshielding removes. */
  predicate IsShieldedScheme(q: string) {
    |q| >= 2 && q[0] in {'[', '(', '"', ':'} &&
    (if q[0] == ':' then q[1..] == " Http" else q[1..] == "Http")
  }

  /** Hiding the tags cannot create an `Http` after a shielding character. */
  lemma HideTagsKeepsUnshielded(text: string, q: string)
    requires IsShieldedScheme(q)
    requires !Occurs(text, q)
    ensures !Occurs(HideTags(text), q)
  {
    SentinelsInertFor(q);
    HideTagsKeepsAbsent(text, q);
  }

  lemma SentinelsInertFor(q: string)
    requires IsShieldedScheme(q)
    ensures Inert("HEREISTOC", q) && Inert("HEREISBR", q) && Inert("BEGINIMG", q)
    ensures Inert(q[1..], "HEREISTOC") && Inert(q[1..], "HEREISBR") && Inert(q[1..], "BEGINIMG")
  {
    HttpInertForSentinels();
    SentinelsAreUpperWords();
    UpperWordInert("HEREISTOC", q);
    UpperWordInert("HEREISBR", q);
    UpperWordInert("BEGINIMG", q);
  }

  /** A word of capital letters only. */
  predicate IsUpperWord(x: string) {
    forall i :: 0 <= i < |x| ==> 'A' <= x[i] <= 'Z'
  }

  lemma SentinelsAreUpperWords()
    ensures IsUpperWord("HEREISTOC") && IsUpperWord("HEREISBR") && IsUpperWord("BEGINIMG")
  {
  }

  /** No text that starts with something other than a capital letter can begin inside a capital word. */
  lemma UpperWordInert(x: string, q: string)
    requires IsUpperWord(x) && |q| > 0 && !('A' <= q[0] <= 'Z')
    ensures Inert(x, q)
  {
    HeadInert(x, q);
  }


  /** The tag swaps cannot create `q` when no sentinel word and `q` can overlap. */
  lemma HideTagsKeepsAbsent(text: string, q: string)
    requires |q| > 0 && !Occurs(text, q)
    requires Inert("HEREISTOC", q) && Inert("HEREISBR", q) && Inert("BEGINIMG", q)
    requires Inert(q[1..], "HEREISTOC") && Inert(q[1..], "HEREISBR") && Inert(q[1..], "BEGINIMG")
    ensures !Occurs(HideTags(text), q)
  {
    var t1 := Replace(text, "<!-- toc -->", "HEREISTOC");
    ReplaceKeepsAbsent(text, "<!-- toc -->", "HEREISTOC", q);
    var t2 := Replace(t1, "<br>", "HEREISBR");
    ReplaceKeepsAbsent(t1, "<br>", "HEREISBR", q);
    ReplaceKeepsAbsent(t2, "<img", "BEGINIMG", q);
  }


  /** The guarded text holds no `<!-- toc -->`, `<br>` or `<img`: the provider never sees these tags. */
  lemma GuardHidesTags(text: string)
    ensures !Occurs(Guard(text), "<!-- toc -->")
    ensures !Occurs(Guard(text), "<br>")
    ensures !Occurs(Guard(text), "<img")
  {
    HiddenTagsStayHidden(UnshieldSchemes(Linkify(ShieldSchemes(text))));
  }

  lemma HiddenTagsStayHidden(unshielded: string)
    ensures !Occurs(CollapseShortLinks(HideTags(unshielded)), "<!-- toc -->")
    ensures !Occurs(CollapseShortLinks(HideTags(unshielded)), "<br>")
    ensures !Occurs(CollapseShortLinks(HideTags(unshielded)), "<img")
  {
    HideTagsRemovesTags(unshielded);
    CollapseKeepsTags(HideTags(unshielded));
  }

  /** The short-link collapse creates none of the three tags. */
  lemma CollapseKeepsTags(hidden: string)
    requires !Occurs(hidden, "<!-- toc -->") && !Occurs(hidden, "<br>") && !Occurs(hidden, "<img")
    ensures !Occurs(CollapseShortLinks(hidden), "<!-- toc -->")
    ensures !Occurs(CollapseShortLinks(hidden), "<br>")
    ensures !Occurs(CollapseShortLinks(hidden), "<img")
  {
    ShortLinksKeepAbsent(hidden, "<!-- toc -->");
    ShortLinksKeepAbsent(hidden, "<br>");
    ShortLinksKeepAbsent(hidden, "<img");
  }

  /**
   * The guarded text holds no `[Http`, `(Http`, `"Http` or `: Http`: the shielding is undone,
   * and an `Http` the author wrote in these places comes out as `http`.
   */
  lemma GuardLowercasesSchemes(text: string)
    ensures !Occurs(Guard(text), "[Http")
    ensures !Occurs(Guard(text), "(Http")
    ensures !Occurs(Guard(text), "\"Http")
    ensures !Occurs(Guard(text), ": Http")
  {
    var unshielded := UnshieldSchemes(Linkify(ShieldSchemes(text)));
    UnshieldLeavesNoShield(Linkify(ShieldSchemes(text)));
    BracketSchemesShielded();
    QuoteSchemesShielded();
    GuardKeepsUnshielded(unshielded, "[Http");
    GuardKeepsUnshielded(unshielded, "(Http");
    GuardKeepsUnshielded(unshielded, "\"Http");
    GuardKeepsUnshielded(unshielded, ": Http");
  }

  lemma BracketSchemesShielded()
    ensures IsShieldedScheme("[Http") && IsShieldedScheme("(Http")
  {
    assert "[Http"[1..] == "Http" && "(Http"[1..] == "Http";
  }

  lemma QuoteSchemesShielded()
    ensures IsShieldedScheme("\"Http") && IsShieldedScheme(": Http")
  {
    assert "\"Http"[1..] == "Http" && ": Http"[1..] == " Http";
  }

  lemma GuardKeepsUnshielded(unshielded: string, q: string)
    requires IsShieldedScheme(q)
    requires !Occurs(unshielded, q)
    ensures !Occurs(CollapseShortLinks(HideTags(unshielded)), q)
  {
    HideTagsKeepsUnshielded(unshielded, q);
    CollapseKeepsUnshielded(HideTags(unshielded), q);
  }

  /** The short-link collapse creates no `Http` after a shielding character. */
  lemma CollapseKeepsUnshielded(hidden: string, q: string)
    requires IsShieldedScheme(q)
    requires !Occurs(hidden, q)
    ensures !Occurs(CollapseShortLinks(hidden), q)
  {
    assert 'h' !in q && (q[0] == ':' ==> q[1] == ' ') by {
      if q[0] == ':' {
        assert q == ": Http";
      } else {
        assert q == [q[0]] + "Http";
      }
    }
    ShortLinksKeepAbsent(hidden, q);
  }

  // ---------------------------------------------------------------------------
  // Restore: what comes back

  /**
   * Each HEREISTOC, wherever it stands, becomes the line separator followed by
   * `<!-- toc -->`, and the text on either side of it is restored on its own.
   */
  lemma RestoreTocAt(before: string, after: string, ls: LineSeparator)
    ensures Restore(before + "HEREISTOC" + after, ls)
      == Restore(before, ls) + SeparatorText(ls) + "<!-- toc -->" + Restore(after, ls)
  {
    var toc := SeparatorText(ls) + "<!-- toc -->";
    TocMarkerChars(ls);
    TocMarkerHead(ls);
    HeadInert(toc, "HEREISBR");
    HeadInert(toc, "BEGINIMG");
    ChainSplit(before, after, "HEREISTOC", toc, "HEREISBR", "<br>", "BEGINIMG", "<img");
    Regroup3(Restore(before, ls), SeparatorText(ls), "<!-- toc -->", Restore(after, ls));
  }

  lemma Regroup3(a: string, b: string, c: string, d: string)
    ensures a + (b + c) + d == a + b + c + d
  {
  }

  /** The restored marker starts with a line-break character, which no sentinel holds. */
  lemma TocMarkerHead(ls: LineSeparator)
    ensures var toc := SeparatorText(ls) + "<!-- toc -->";
      "HEREISTOC"[0] !in "HEREISTOC"[1..] && toc[0] !in "HEREISBR"[1..] && toc[0] !in "BEGINIMG"[1..]
  {
    assert "HEREISTOC"[1..] == "EREISTOC" && "HEREISBR"[1..] == "EREISBR" && "BEGINIMG"[1..] == "EGINIMG";
    assert (SeparatorText(ls) + "<!-- toc -->")[0] == SeparatorText(ls)[0];
  }

  /** A sentinel word the author wrote comes back as a tag: nothing tells it apart from a hidden one. */
  lemma RestoreAuthorSentinel(ls: LineSeparator)
    ensures Restore("HEREISBR", ls) == "<br>"
  {
    ShortAbsent("HEREISBR", "HEREISTOC");
    ReplaceAbsent("HEREISBR", "HEREISTOC", SeparatorText(ls) + "<!-- toc -->");
    ReplaceWhole("HEREISBR", "<br>");
    ShortAbsent("<br>", "BEGINIMG");
    ReplaceAbsent("<br>", "BEGINIMG", "<img");
  }

  /** Hiding `<br>` and `<img` creates no HEREISTOC. */
  lemma HideTagsKeepsTocSentinelAbsent(text: string)
    requires !Occurs(text, "HEREISTOC")
    ensures !Occurs(Replace(Replace(text, "<br>", "HEREISBR"), "<img", "BEGINIMG"), "HEREISTOC")
  {
    HideBrKeepsTocSentinelAbsent(text);
    SwapKeeps(Replace(text, "<br>", "HEREISBR"), "<img", "BEGINIMG", "HEREISTOC");
  }

  lemma HideBrKeepsTocSentinelAbsent(text: string)
    requires !Occurs(text, "HEREISTOC")
    ensures !Occurs(Replace(text, "<br>", "HEREISBR"), "HEREISTOC")
  {
    HeadInert("EREISBR", "HEREISTOC");
    assert Inert("HEREISBR", "HEREISTOC") by {
      assert !Compatible("HEREISBR", "HEREISTOC");
      assert "HEREISBR"[1..] == "EREISBR";
    }
    HeadInert("EREISTOC", "HEREISBR");
    ReplaceKeepsAbsent(text, "<br>", "HEREISBR", "HEREISTOC");
  }

  /** No sentinel word can start across the `<br>`/`<img` swaps, so the two swaps commute. */
  lemma SwapsCommute(z: string)
    ensures Replace(Replace(z, "<img", "BEGINIMG"), "HEREISBR", "<br>")
         == Replace(Replace(z, "HEREISBR", "<br>"), "<img", "BEGINIMG")
  {
    SwapsDoNotOverlap();
    ReplaceCommute(z, "<img", "BEGINIMG", "HEREISBR", "<br>");
  }

  /** No pattern or replacement of the `<img` swap can overlap one of the `HEREISBR` swap. */
  lemma SwapsDoNotOverlap()
    ensures Inert("<img", "HEREISBR") && Inert("HEREISBR", "<img")
    ensures Inert("BEGINIMG", "HEREISBR") && Inert("<br>", "<img")
    ensures Inert("EREISBR", "BEGINIMG") && Inert("img", "<br>")
  {
    SwapPatternsInert();
    BrTagInert();
    BrSentinelTailInert();
  }

  lemma SwapPatternsInert()
    ensures Inert("<img", "HEREISBR") && Inert("HEREISBR", "<img")
    ensures Inert("BEGINIMG", "HEREISBR") && Inert("img", "<br>")
  {
    ImgBrSentinelInert();
    HeadInert("BEGINIMG", "HEREISBR");
    HeadInert("img", "<br>");
  }

  lemma ImgBrSentinelInert()
    ensures Inert("<img", "HEREISBR") && Inert("HEREISBR", "<img")
  {
    HeadInert("<img", "HEREISBR");
    SentinelsAreUpperWords();
    UpperWordInert("HEREISBR", "<img");
  }

  lemma BrTagInert()
    ensures Inert("<br>", "<img")
  {
    HeadInert("br>", "<img");
    assert !Compatible("<br>", "<img");
    assert "<br>"[1..] == "br>";
  }

  lemma BrSentinelTailInert()
    ensures Inert("EREISBR", "BEGINIMG")
  {
    HeadInert("R", "BEGINIMG");
    assert !Compatible("BR", "BEGINIMG") && "BR"[1..] == "R";
    assert "EREISBR"[1..] == "REISBR" && "REISBR"[1..] == "EISBR";
    assert "EISBR"[1..] == "ISBR" && "ISBR"[1..] == "SBR" && "SBR"[1..] == "BR";
  }



  /** Swapping `<br>` and `<img` for their sentinel words and back is the identity on text without sentinel words. */
  lemma SwapsRoundTrip(text: string)
    requires !Occurs(text, "HEREISBR") && !Occurs(text, "BEGINIMG")
    ensures var hidden := Replace(Replace(text, "<br>", "HEREISBR"), "<img", "BEGINIMG");
      Replace(Replace(hidden, "HEREISBR", "<br>"), "BEGINIMG", "<img") == text
  {
    SwapsCommute(Replace(text, "<br>", "HEREISBR"));
    BrRoundTrip(text);
    ImgRoundTrip(text);
  }

  lemma BrRoundTrip(text: string)
    requires !Occurs(text, "HEREISBR")
    ensures Replace(Replace(text, "<br>", "HEREISBR"), "HEREISBR", "<br>") == text
  {
    HeadInert("EREISBR", "HEREISBR");
    ReplaceRoundTrip(text, "<br>", "HEREISBR");
  }

  lemma ImgRoundTrip(text: string)
    requires !Occurs(text, "BEGINIMG")
    ensures Replace(Replace(text, "<img", "BEGINIMG"), "BEGINIMG", "<img") == text
  {
    HeadInert("EGINIMG", "BEGINIMG");
    ReplaceRoundTrip(text, "<img", "BEGINIMG");
  }

  /**
   * For a text holding no sentinel word and no `<!-- toc -->`, restoring after hiding the
   * tags gives the text back: hiding `<br>` and `<img` is undone exactly.
   */
  lemma SentinelRoundTrip(text: string, ls: LineSeparator)
    requires !Occurs(text, "HEREISTOC") && !Occurs(text, "HEREISBR") && !Occurs(text, "BEGINIMG")
    requires !Occurs(text, "<!-- toc -->")
    ensures Restore(HideTags(text), ls) == text
  {
    ReplaceAbsent(text, "<!-- toc -->", "HEREISTOC");
    var y := Replace(Replace(text, "<br>", "HEREISBR"), "<img", "BEGINIMG");
    HideTagsKeepsTocSentinelAbsent(text);
    ReplaceAbsent(y, "HEREISTOC", SeparatorText(ls) + "<!-- toc -->");
    SwapsRoundTrip(text);
  }

  /** `<!-- toc -->` does not come back as it was: restoring puts a line separator in front of it. */
  lemma TocComesBackOnItsOwnLine(toc: string, ls: LineSeparator)
    requires toc == "<!-- toc -->"
    ensures Restore(HideTags(toc), ls) == SeparatorText(ls) + toc
  {
    HideLoneToc(toc);
    RestoreLoneToc("HEREISTOC", ls);
  }

  lemma RestoreLoneToc(w: string, ls: LineSeparator)
    requires w == "HEREISTOC"
    ensures Restore(w, ls) == SeparatorText(ls) + "<!-- toc -->"
  {
    var e := w[..0];
    RestoreTocAt(e, e, ls);
    DropEmpty(e, w);
    RestoreEmpty(e, ls);
    Regroup3(Restore(e, ls), SeparatorText(ls), "<!-- toc -->", Restore(e, ls));
    DropEmpty(Restore(e, ls), SeparatorText(ls) + "<!-- toc -->");
  }

  lemma DropEmpty(e: string, a: string)
    requires |e| == 0
    ensures e + a + e == a
  {
  }

  lemma RestoreEmpty(e: string, ls: LineSeparator)
    requires |e| == 0
    ensures Restore(e, ls) == []
  {
  }

  lemma HideLoneToc(toc: string)
    requires toc == "<!-- toc -->"
    ensures HideTags(toc) == "HEREISTOC"
  {
    ReplaceWhole(toc, "HEREISTOC");
    SentinelHasNoTags("HEREISTOC");
  }

  lemma SentinelHasNoTags(w: string)
    requires w == "HEREISTOC"
    ensures Replace(Replace(w, "<br>", "HEREISBR"), "<img", "BEGINIMG") == w
  {
    HeadAbsent(w, "<br>");
    ReplaceAbsent(w, "<br>", "HEREISBR");
    HeadAbsent(w, "<img");
    ReplaceAbsent(w, "<img", "BEGINIMG");
  }

  // ---------------------------------------------------------------------------
  // URL wrapping and short-link collapsing

  /**
   * Where a URL starts, Linkify writes the longest URL_PATTERN match `u` as `[u](u)` and
   * carries on after it; `u` never ends in sentence punctuation.
   */
  lemma LinkifyWrapsLongestUrl(s: string)
    requires UrlLength(s).Some?
    ensures var n := UrlLength(s).value;
      && 0 < n <= |s| && IsUrl(s[..n])
      && (forall m :: n < m <= |s| ==> !IsUrl(s[..m]))
      && s[n - 1] !in {'.', ',', ';', ':', '!', '?'}
      && Linkify(s) == "[" + s[..n] + "](" + s[..n] + ")" + Linkify(s[n..])
  {
    UrlLengthIsLongestMatch(s);
  }

  /**
   * `[u](v)` with short URLs `u` and `v` (scheme and alphanumeric host) collapses to `u`:
   * the target `v` is dropped even when it differs from `u`.
   */
  lemma CollapseShortLinkOf(s: string, i: nat, j: nat)
    requires 1 < i && i + 2 < j < |s|
    requires s[0] == '[' && s[i] == ']' && s[i + 1] == '(' && s[j] == ')'
    requires IsShortUrl(s[1..i]) && IsShortUrl(s[i + 2..j])
    ensures CollapseShortLinks(s) == s[1..i] + CollapseShortLinks(s[j + 1..])
  {
    ShortLinkMatchOf(s, i, j);
    ShortLinksStep(s, j + 1, s[1..i]);
  }

  /** A short URL that Linkify wrapped as `[u](u)` is unwrapped again by the collapse. */
  lemma WrappedShortUrlCollapses(u: string, rest: string)
    requires IsShortUrl(u)
    ensures CollapseShortLinks("[" + u + "](" + u + ")" + rest) == u + CollapseShortLinks(rest)
  {
    var s := "[" + u + "](" + u + ")" + rest;
    var i := |u| + 1;
    var j := 2 * |u| + 3;
    assert s[1..i] == u;
    assert s[i + 2..j] == u;
    assert s[j + 1..] == rest;
    CollapseShortLinkOf(s, i, j);
  }

  // ---------------------------------------------------------------------------
  // The cleanup chain

  /**
   * `*…*` without line breaks whose only digit run is `s[i..j]` becomes `_` + that number + `_`;
   * everything else between the stars is dropped.
   */
  lemma EmphasisNumberBecomesUnderscored(s: string, i: nat, j: nat, k: nat)
    requires 1 <= i < j <= k < |s| && s[0] == '*' && s[k] == '*'
    requires All(s[1..i], IsNotDigitOrStar)
    requires All(s[i..j], IsDigit)
    requires All(s[j..k], IsNotDigitStarOrNewline)
    ensures ReplaceAll(s, EmphasisNumbers()) == "_" + s[i..j] + "_" + ReplaceAll(s[k + 1..], EmphasisNumbers())
  {
    EmphasisNumberMatchOf(s, i, j, k);
    ReplaceAllStep(s, EmphasisNumbers(), k + 1, "_" + s[i..j] + "_");
  }

  /** Without a doubled backslash, unescaping leaves no `\<` and no `\>`. */
  lemma UnescapeAnglesRemovesEscapes(t: string)
    requires !Occurs(t, "\\\\")
    ensures !Occurs(UnescapeAngles(t), "\\<") && !Occurs(UnescapeAngles(t), "\\>")
  {
    var t1 := Replace(t, "\\<", "<");
    UnescapeRemoves(t, '\\', '<');
    SwapKeeps(t, "\\<", "<", "\\\\");
    UnescapeRemoves(t1, '\\', '>');
    SwapKeeps(t1, "\\>", ">", "\\<");
  }

  /** `\\<` loses one backslash per pass, so a second cleanup changes the text again. */
  lemma CleanupIsNotIdempotent(x: string)
    requires x == "\\\\<"
    ensures Cleanup(x) == "\\<"
    ensures Cleanup(Cleanup(x)) == "<"
  {
    UnescapeTwice(x);
    CleanupNumbersAbsent("\\<");
    CleanupNumbersAbsent("<");
  }

  lemma UnescapeTwice(x: string)
    requires x == "\\\\<"
    ensures UnescapeAngles(x) == "\\<"
    ensures UnescapeAngles("\\<") == "<"
  {
    var e := "\\<";
    assert x == ['\\'] + e;
    StartsWithSlice(x, e);
    assert x[..2] != e by { assert x[..2][1] != e[1]; }
    ReplaceCopiesFirst(x, e, "<");
    ReplaceAtStart(e, [], "<");
    assert e + [] == e;
    MissingChar("\\<", "\\>", 1);
    ReplaceAbsent("\\<", "\\>", ">");
    ReplaceWhole(e, "<");
    HeadAbsent("<", "\\>");
    ReplaceAbsent("<", "\\>", ">");
  }

  /** Text with no `*` and no `_` passes the three number expressions unchanged. */
  lemma CleanupNumbersAbsent(t: string)
    requires '*' !in t && '_' !in t
    ensures ReplaceAll(ReplaceAll(ReplaceAll(t, EmphasisNumbers()), SpacedNumbers()), NumbersAtLineEnd()) == t
  {
    CleanupMatchersNeed();
    HeadAbsent(t, "*");
    ReplaceAllNeedsPrefix(t, EmphasisNumbers(), "*");
    MissingChar(t, " _", 1);
    ReplaceAllNeedsPrefix(t, SpacedNumbers(), " _");
    ReplaceAllNeedsChar(t, NumbersAtLineEnd(), '_');
  }

  /**
   * Two spaced numbers that share the space between them (` _1_ _2_ `): the first match
   * consumes that space, so only the first number is back-quoted in one pass.
   */
  lemma SharedSpaceQuotesFirstOnly(x: string)
    requires |x| == 9 && x[0] == ' ' && x[1] == '_' && IsDigit(x[2]) && x[3] == '_' && x[4] == ' '
    requires x[5] == '_' && IsDigit(x[6]) && x[7] == '_' && x[8] == ' '
    ensures ReplaceAll(x, SpacedNumbers()) == " `" + x[1..4] + "` " + x[5..]
  {
    FirstSpacedNumber(x);
    ReplaceAllStep(x, SpacedNumbers(), 5, " `" + x[1..4] + "` ");
    SecondNumberLeft(x[5..]);
  }

  lemma FirstSpacedNumber(x: string)
    requires |x| >= 5 && x[0] == ' ' && x[1] == '_' && IsDigit(x[2]) && x[3] == '_' && x[4] == ' '
    ensures SpacedNumbers()(x) == Some(Match(5, " `" + x[1..4] + "` "))
  {
    assert All(x[2..3], IsDigit) by {
      assert x[2..3] == [x[2]];
    }
    SpacedNumberMatchOf(x, 3);
  }

  lemma SecondNumberLeft(y: string)
    requires |y| == 4 && y[0] == '_' && y[2] == '_' && y[1] != ' '
    ensures ReplaceAll(y, SpacedNumbers()) == y
  {
    CleanupMatchersNeed();
    var a := y[..3];
    assert y == a + y[3..];
    HeadInert(a, " _");
    ShortAbsent(y[3..], " _");
    if Occurs(y, " _") {
      InertOccurs(a, y[3..], " _");
    }
    ReplaceAllNeedsPrefix(y, SpacedNumbers(), " _");
  }
}
