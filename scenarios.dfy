/**
 Concrete pages and what the validator makes of them: a present asset, a
 missing asset with a query string and a fragment, a protocol-relative
 script, an asset shared by two pages and an empty site, two quirks of the
 pattern (no word boundary before the keyword, and spaces and `>` inside a
 value), and two whole runs with their exit status and printed lines.

 Each page is written as the text before the attribute, the opening
 (keyword, equals sign, quote), the value and the text after it, which is
 how FindAllAttribute takes it apart. Facts about the literal pieces are kept
 in small lemmas of their own, so that no proof has to evaluate a whole page.
 */
module Scenarios {
  import opened AssetPattern
  import opened Numerals
  import opened RootAssets
  import opened TextOrder

  // ---------------------------------------------------------------------
  // Facts about the literal pieces
  // ---------------------------------------------------------------------

  /** The closing quote and bracket yield nothing. */
  lemma ClosingQuiet()
    ensures FindAll("\">") == []
  {
    FindAllQuiet("\">");
  }

  /** The query string and fragment left after the path yield nothing: there
      is an equals sign but no keyword letter. */
  lemma QueryTailQuiet()
    ensures FindAll("?x=1#frag\">") == []
  {
    QueryTailLetters();
    FindAllQuiet("?x=1#frag\">");
  }

  lemma QueryTailLetters()
    ensures 's' !in "?x=1#frag\">" && 'h' !in "?x=1#frag\">"
  {
  }

  /** The closing quote and tags after a single-quoted attribute yield nothing. */
  lemma ParagraphCloseQuiet()
    ensures FindAll("'></p>") == []
  {
    FindAllQuiet("'></p>");
  }

  /** A value with a single leading slash passes the filter and loses exactly
      that slash. */
  lemma SingleSlash(v: string)
    requires |v| >= 2 && v[0] == '/' && v[1] != '/'
    ensures !Skipped(v) && LStripSlash(v) == v[1..]
  {
    assert v[..2][1] == v[1];
  }

  /** The paths the pages below hold are well-formed captures. */
  lemma LogoPath()
    ensures IsCandidate("/static/logo.png")
  {
  }

  lemma DocsPath()
    ensures IsCandidate("/docs/missing.html")
  {
  }

  lemma CdnPath()
    ensures IsCandidate("//cdn.example.com/lib.js")
  {
  }

  lemma StylePath()
    ensures IsCandidate("/shared/style.css")
  {
  }

  /** How the filter and the stripping treat them. */
  lemma LogoKept()
    ensures !Skipped("/static/logo.png") && LStripSlash("/static/logo.png") == "static/logo.png"
  {
    SingleSlash("/static/logo.png");
  }

  lemma DocsKept()
    ensures !Skipped("/docs/missing.html") && LStripSlash("/docs/missing.html") == "docs/missing.html"
  {
    SingleSlash("/docs/missing.html");
  }

  lemma StyleKept()
    ensures !Skipped("/shared/style.css")
  {
    SingleSlash("/shared/style.css");
  }

  lemma CdnSkipped()
    ensures Skipped("//cdn.example.com/lib.js")
  {
    assert "//cdn.example.com/lib.js"[..2] == "//";
  }


  // ---------------------------------------------------------------------
  // What the scan extracts from each page
  // ---------------------------------------------------------------------

  /** `<img src="/static/logo.png">` yields the logo path. */
  lemma LogoPageFound(page: string)
    requires page == "<img " + "src=\"" + "/static/logo.png" + "\">"
    ensures FindAll(page) == ["/static/logo.png"]
  {
    LogoPageSplit(page);
    ClosingQuiet();
  }

  lemma LogoPageSplit(page: string)
    requires page == "<img " + "src=\"" + "/static/logo.png" + "\">"
    ensures FindAll(page) == ["/static/logo.png"] + FindAll("\">")
  {
    LogoPath();
    FindAllAttribute(page, "<img ", "src=\"", "/static/logo.png", "\">");
  }

  /** `<a href="/docs/missing.html?x=1#frag">` yields the path without the
      query string and the fragment. */
  lemma DocsPageFound(page: string)
    requires page == "<a " + "href=\"" + "/docs/missing.html" + "?x=1#frag\">"
    ensures FindAll(page) == ["/docs/missing.html"]
  {
    DocsPageSplit(page);
    QueryTailQuiet();
  }

  lemma DocsPageSplit(page: string)
    requires page == "<a " + "href=\"" + "/docs/missing.html" + "?x=1#frag\">"
    ensures FindAll(page) == ["/docs/missing.html"] + FindAll("?x=1#frag\">")
  {
    DocsPath();
    FindAllAttribute(page, "<a ", "href=\"", "/docs/missing.html", "?x=1#frag\">");
  }

  /** `<script src="//cdn.example.com/lib.js">` yields the protocol-relative
      value itself: the pattern does not exclude it. */
  lemma CdnPageFound(page: string)
    requires page == "<script " + "src=\"" + "//cdn.example.com/lib.js" + "\">"
    ensures FindAll(page) == ["//cdn.example.com/lib.js"]
  {
    CdnPageSplit(page);
    ClosingQuiet();
  }

  lemma CdnPageSplit(page: string)
    requires page == "<script " + "src=\"" + "//cdn.example.com/lib.js" + "\">"
    ensures FindAll(page) == ["//cdn.example.com/lib.js"] + FindAll("\">")
  {
    CdnPath();
    FindAllAttribute(page, "<script ", "src=\"", "//cdn.example.com/lib.js", "\">");
  }

  /** `<link href="/shared/style.css">` yields the style sheet path. */
  lemma LinkPageFound(page: string)
    requires page == "<link " + "href=\"" + "/shared/style.css" + "\">"
    ensures FindAll(page) == ["/shared/style.css"]
  {
    LinkPageSplit(page);
    ClosingQuiet();
  }

  lemma LinkPageSplit(page: string)
    requires page == "<link " + "href=\"" + "/shared/style.css" + "\">"
    ensures FindAll(page) == ["/shared/style.css"] + FindAll("\">")
  {
    StylePath();
    FindAllAttribute(page, "<link ", "href=\"", "/shared/style.css", "\">");
  }

  /** A single-quoted attribute inside other markup yields its path. */
  lemma StylePageFound(page: string)
    requires page == "<p><link " + "href='" + "/shared/style.css" + "'></p>"
    ensures FindAll(page) == ["/shared/style.css"]
  {
    StylePageSplit(page);
    ParagraphCloseQuiet();
  }

  lemma StylePageSplit(page: string)
    requires page == "<p><link " + "href='" + "/shared/style.css" + "'></p>"
    ensures FindAll(page) == ["/shared/style.css"] + FindAll("'></p>")
  {
    StylePath();
    FindAllAttribute(page, "<p><link ", "href='", "/shared/style.css", "'></p>");
  }

  /** There is no word boundary before the keyword: `data-src` matches too. */
  lemma DataAttributeMatches(page: string)
    requires page == "<img data-" + "src=\"" + "/lazy.png" + "\">"
    ensures FindAll(page) == ["/lazy.png"]
  {
    assert IsCandidate("/lazy.png");
    FindAllAttribute(page, "<img data-", "src=\"", "/lazy.png", "\">");
    ClosingQuiet();
  }

  /** Spaces and `>` do not end a value; only a quote, `#` or `?` does. */
  lemma SpacesStayInValue(page: string)
    requires page == "<a " + "href=\"" + "/a b>c" + "\">"
    ensures FindAll(page) == ["/a b>c"]
  {
    assert IsCandidate("/a b>c");
    FindAllAttribute(page, "<a ", "href=\"", "/a b>c", "\">");
    ClosingQuiet();
  }

  // ---------------------------------------------------------------------
  // What the validator makes of them
  // ---------------------------------------------------------------------

  /** A site of one page holding one value: the value is checked unless the
      filter drops it, and missing exactly when it is checked and absent. */
  lemma OnePage(page: string, v: string, pathExists: string -> bool)
    requires FindAll(page) == [v]
    ensures CheckedOf(Candidates([page])) == if Skipped(v) then {} else {v}
    ensures MissingOf(Candidates([page]), pathExists)
            == if Skipped(v) || pathExists(LStripSlash(v)) then {} else {v}
  {
    assert [page][..0] == [];
    assert Candidates([page]) == [] + [v];
    CheckedStep([], v);
    MissingStep([], v, pathExists);
  }

  /** Two pages that each reference the same root-relative value once: one
      checked value, tested once. */
  lemma TwoPagesOneValue(page1: string, page2: string, v: string)
    requires FindAll(page1) == [v] && FindAll(page2) == [v] && !Skipped(v)
    ensures CheckedOf(Candidates([page1, page2])) == {v}
    ensures ProbesOf(Candidates([page1, page2])) == [v]
  {
    assert [page1, page2][..1] == [page1];
    assert [page1][..0] == [];
    assert Candidates([page1]) == [] + [v];
    assert Candidates([page1, page2]) == [] + [v] + [v];
    ProbesStep([], v);
    ProbesStep([] + [v], v);
  }

  /** With the logo on disk: checked, not missing. */
  lemma PresentAsset(page: string, pathExists: string -> bool)
    requires page == "<img " + "src=\"" + "/static/logo.png" + "\">"
    requires pathExists("static/logo.png")
    ensures CheckedOf(Candidates([page])) == {"/static/logo.png"}
    ensures MissingOf(Candidates([page]), pathExists) == {}
  {
    LogoPageFound(page);
    LogoKept();
    OnePage(page, "/static/logo.png", pathExists);
  }

  /** Without the page on disk: the path, cut at the query string, is missing. */
  lemma MissingAssetWithQuery(page: string, pathExists: string -> bool)
    requires page == "<a " + "href=\"" + "/docs/missing.html" + "?x=1#frag\">"
    requires !pathExists("docs/missing.html")
    ensures CheckedOf(Candidates([page])) == {"/docs/missing.html"}
    ensures MissingOf(Candidates([page]), pathExists) == {"/docs/missing.html"}
  {
    DocsPageFound(page);
    DocsKept();
    OnePage(page, "/docs/missing.html", pathExists);
  }

  /** The protocol-relative script is never checked and never missing. */
  lemma ProtocolRelativeScript(page: string, pathExists: string -> bool)
    requires page == "<script " + "src=\"" + "//cdn.example.com/lib.js" + "\">"
    ensures CheckedOf(Candidates([page])) == {}
    ensures MissingOf(Candidates([page]), pathExists) == {}
  {
    CdnPageFound(page);
    CdnSkipped();
    OnePage(page, "//cdn.example.com/lib.js", pathExists);
  }

  /** Two pages referencing `/shared/style.css`: counted once, tested once. */
  lemma SharedAsset(page1: string, page2: string)
    requires page1 == "<link " + "href=\"" + "/shared/style.css" + "\">"
    requires page2 == "<p><link " + "href='" + "/shared/style.css" + "'></p>"
    ensures CheckedOf(Candidates([page1, page2])) == {"/shared/style.css"}
    ensures ProbesOf(Candidates([page1, page2])) == ["/shared/style.css"]
  {
    LinkPageFound(page1);
    StylePageFound(page2);
    StyleKept();
    TwoPagesOneValue(page1, page2, "/shared/style.css");
  }

  /** No HTML files: nothing checked, nothing missing, so the run succeeds
      and its summary line gives both counts as "0". */
  lemma EmptySite(pathExists: string -> bool)
    ensures CheckedOf(Candidates([])) == {}
    ensures MissingOf(Candidates([]), pathExists) == {}
    ensures ToDecimal(|CheckedOf(Candidates([]))|) == "0"
  {
    assert DigitChar(0) == '0';
  }

  // ---------------------------------------------------------------------
  // Whole runs
  // ---------------------------------------------------------------------

  /** With one missing path, the report is the header and that path. */
  lemma OneMissingLines(missing: set<string>, d: string, lines: seq<string>)
    requires missing == {d}
    requires exists items :: SortedListing(items, missing) && lines == [MissingHeader] + Indented(items)
    ensures lines == [MissingHeader, "  " + d]
  {
    var items :| SortedListing(items, missing) && lines == [MissingHeader] + Indented(items);
    ListingCount(items, missing);
    assert items[0] in missing;
    assert items == [d];
  }

  lemma DocsLine()
    ensures "  " + "/docs/missing.html" == "  /docs/missing.html"
  {
  }

  /** The logo page with the logo on disk: the run succeeds and prints the
      summary line for one checked path in one HTML file. */
  method PresentAssetRun() returns (status: int, lines: seq<string>)
    ensures status == 0 && lines == [SummaryLine(1, 1)]
  {
    var page := "<img " + "src=\"" + "/static/logo.png" + "\">";
    var pathExists := (p: string) => p == "static/logo.png";
    PresentAsset(page, pathExists);
    status, lines := CheckRootAssets([page], pathExists);
  }

  /** The docs page without the page on disk: the run fails and prints the
      header and the path, cut at the query string. */
  method MissingAssetRun() returns (status: int, lines: seq<string>)
    ensures status == 1 && lines == [MissingHeader, "  /docs/missing.html"]
  {
    var page := "<a " + "href=\"" + "/docs/missing.html" + "?x=1#frag\">";
    var pathExists := (p: string) => p != "docs/missing.html";
    MissingAssetWithQuery(page, pathExists);
    status, lines := CheckRootAssets([page], pathExists);
    OneMissingLines(MissingOf(Candidates([page]), pathExists), "/docs/missing.html", lines);
    DocsLine();
  }
}
