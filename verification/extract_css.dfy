/**
 * scripts/extract-css.py: replace the inline `<style>` block of a tutorial page by links to the
 * shared stylesheets and the theme stylesheet of the page's tutorial.
 */
module ExtractCss {
  import opened Wrappers
  import opened Text
  import opened Rewrite

  // ---------------------------------------------------------------------------
  // The theme table and its lookup

  /** `THEME_MAP`, in the order its entries were written (the order its iteration follows). */
  const THEME_MAP: seq<(string, string)> := [
    ("01-gaussian", "gaussian"),
    ("02-logistic", "binomial"),
    ("03-poisson", "poisson"),
    ("04-negbin", "negbin"),
    ("05-gamma", "gamma")
  ]

  /** The theme of the first entry of `table` whose folder occurs in `path`; an error when none does. */
  function ThemeLookup(table: seq<(string, string)>, path: string): (r: Result<string, string>)
  {
    if |table| == 0 then Err("Unknown tutorial folder for " + path)
    else if Contains(path, table[0].0) then Ok(table[0].1)
    else ThemeLookup(table[1..], path)
  }

  /** `get_theme_for_path` */
  function GetThemeForPath(path: string): Result<string, string> {
    ThemeLookup(THEME_MAP, path)
  }

  /**
   * The lookup returns the theme of entry `k` exactly when entry `k` is the first whose folder
   * occurs in the path, and fails exactly when no folder occurs in it.
   */
  lemma {:induction false} ThemeLookupFirst(table: seq<(string, string)>, path: string, k: nat)
    requires k < |table| && Contains(path, table[k].0)
    requires forall j :: 0 <= j < k ==> !Contains(path, table[j].0)
    ensures ThemeLookup(table, path) == Ok(table[k].1)
    decreases k
  {
    if k > 0 {
      assert !Contains(path, table[0].0);
      ThemeLookupFirst(table[1..], path, k - 1);
    }
  }

  lemma {:induction false} ThemeLookupMiss(table: seq<(string, string)>, path: string)
    ensures ThemeLookup(table, path).Err? <==> forall j :: 0 <= j < |table| ==> !Contains(path, table[j].0)
    decreases |table|
  {
    if |table| > 0 {
      ThemeLookupMiss(table[1..], path);
      assert forall j :: 1 <= j < |table| ==> table[j] == table[1..][j - 1];
    }
  }

  /** A theme found is one of the table's themes. */
  lemma {:induction false} ThemeLookupFound(table: seq<(string, string)>, path: string)
    ensures ThemeLookup(table, path).Ok? ==>
      exists k :: 0 <= k < |table| && Contains(path, table[k].0) && ThemeLookup(table, path).value == table[k].1
    decreases |table|
  {
    if |table| > 0 && !Contains(path, table[0].0) {
      ThemeLookupFound(table[1..], path);
      if ThemeLookup(table, path).Ok? {
        var k :| 0 <= k < |table[1..]| && Contains(path, table[1..][k].0) && ThemeLookup(table, path).value == table[1..][k].1;
        assert table[1..][k] == table[k + 1];
      }
    }
  }

  // ---------------------------------------------------------------------------
  // The link block

  const BASE_CSS := "../../css/base.css"
  const LINKS_OPEN := "  <!-- Shared CSS -->\n  <link rel=\"stylesheet\" href=\""
  const LINKS_SHARED := "\">\n"
    + "  <link rel=\"stylesheet\" href=\"../../css/components.css\">\n"
    + "  <link rel=\"stylesheet\" href=\"../../css/dialogs.css\">\n"
    + "  <link rel=\"stylesheet\" href=\"../../css/progress.css\">\n"
    + "  <link rel=\"stylesheet\" href=\"../../css/"

  /** The stylesheet of a theme, relative to the shared CSS directory. */
  function ThemeFile(theme: string): string {
    "themes/" + theme + ".css"
  }

  /** `CSS_LINKS.format(theme=theme)` */
  function CssLinks(theme: string): string {
    LINKS_OPEN + BASE_CSS + (LINKS_SHARED + ThemeFile(theme) + "\">")
  }

  /** The link block names the base stylesheet and the theme's stylesheet. */
  lemma CssLinksName(theme: string)
    ensures Contains(CssLinks(theme), BASE_CSS)
    ensures Contains(CssLinks(theme), ThemeFile(theme))
  {
    ContainsMiddle(LINKS_OPEN, BASE_CSS, LINKS_SHARED + ThemeFile(theme) + "\">");
    ContainsMiddle(LINKS_SHARED, ThemeFile(theme), "\">");
    ContainsRight(LINKS_OPEN + BASE_CSS, LINKS_SHARED + ThemeFile(theme) + "\">", ThemeFile(theme));
  }

  // ---------------------------------------------------------------------------
  // The style block: `\s*<style>.*?</style>\s*` with `re.DOTALL`

  const STYLE_OPEN := "<style>"
  const STYLE_CLOSE := "</style>"

  /**
   * The pattern at the start of `t`, by positions in `t`: whitespace up to `a`, `<style>` at `a`,
   * the first `</style>` after it at `c`, then whitespace up to `e`, where a non-space character
   * or the end of `t` follows. The leading `\s*` cannot stop early, since `<` is not whitespace,
   * and the trailing one is greedy.
   */
  predicate StyleBlock(t: string, a: nat, c: nat, e: nat) {
    && a + |STYLE_OPEN| <= c && c + |STYLE_CLOSE| <= e <= |t|
    && (forall i {:trigger IsSpace(t[i])} :: 0 <= i < a ==> IsSpace(t[i]))
    && IsPrefix(STYLE_OPEN, t[a..])
    && IsPrefix(STYLE_CLOSE, t[c..])
    && (forall j {:trigger IsPrefix(STYLE_CLOSE, t[j..])} :: a + |STYLE_OPEN| <= j < c ==> !IsPrefix(STYLE_CLOSE, t[j..]))
    && (forall i {:trigger IsSpace(t[i])} :: c + |STYLE_CLOSE| <= i < e ==> IsSpace(t[i]))
    && (e < |t| ==> !IsSpace(t[e]))
  }

  /** The three positions of the pattern at the start of `t`, if it matches there. */
  function StyleSpan(t: string): (r: Option<(nat, nat, nat)>)
    ensures r.Some? ==> r.value.1 + |STYLE_CLOSE| <= r.value.2 <= |t|
  {
    var a := SpaceEnd(t, 0);
    if !IsPrefix(STYLE_OPEN, t[a..]) then None
    else match FindFrom(t, STYLE_CLOSE, a + |STYLE_OPEN|)
      case None => None
      case Some(c) => Some((a, c, SpaceEnd(t, c + |STYLE_CLOSE|)))
  }

  /** What `StyleSpan` reports is a style block. */
  lemma StyleSound(t: string, a: nat, c: nat, e: nat)
    requires StyleSpan(t) == Some((a, c, e))
    ensures StyleBlock(t, a, c, e)
  {
    SpaceEndSpec(t, 0);
    FindFromSpec(t, STYLE_CLOSE, a + |STYLE_OPEN|);
    SpaceEndSpec(t, c + |STYLE_CLOSE|);
  }

  /** A style block is the one `StyleSpan` reports: the pattern has one way to match. */
  lemma StyleComplete(t: string, a: nat, c: nat, e: nat)
    requires StyleBlock(t, a, c, e)
    ensures StyleSpan(t) == Some((a, c, e))
  {
    assert t[a] == t[a..][..|STYLE_OPEN|][0] == '<';
    SpaceEndIs(t, 0, a);
    FindFromIs(t, STYLE_CLOSE, a + |STYLE_OPEN|, c);
    SpaceEndIs(t, c + |STYLE_CLOSE|, e);
  }

  /** The pattern at the start of `t`, as a match that writes `block` in its place. */
  function StyleMatch(t: string, block: string): (r: Option<Hit>)
    ensures r.Some? ==> 0 < r.value.len <= |t| && r.value.out == block
  {
    match StyleSpan(t)
    case None => None
    case Some((_, _, e)) => Some(Hit(e, block))
  }

  function StyleHit(block: string): Matcher {
    t => StyleMatch(t, block)
  }

  lemma StyleAdvancing(block: string)
    ensures Advancing(StyleHit(block))
  {
  }

  /**
   * Whether the pattern occurs at all (`re.search`): some `<style>` is followed, later on, by a
   * `</style>`. It is enough to look behind the first `<style>` (`StyleSearch`).
   */
  predicate HasStyleBlock(content: string) {
    match Find(content, STYLE_OPEN)
    case None => false
    case Some(p) => FindFrom(content, STYLE_CLOSE, p + |STYLE_OPEN|).Some?
  }

  /** A `<style>` at the start with a `</style>` somewhere after it starts a match. */
  lemma StyleAt(t: string, c: nat)
    requires IsPrefix(STYLE_OPEN, t) && |STYLE_OPEN| <= c <= |t| && IsPrefix(STYLE_CLOSE, t[c..])
    ensures StyleSpan(t).Some?
  {
    assert t[0] == t[..|STYLE_OPEN|][0] == '<';
    SpaceEndIs(t, 0, 0);
    assert t[0..] == t;
    FindFromSpec(t, STYLE_CLOSE, |STYLE_OPEN|);
  }

  /**
   * When `o` occurs at `i` and `c` at `j`, no earlier than the end of that `o`, then `c` also
   * occurs behind the first `o`.
   */
  lemma CloseBehindFirst(s: string, o: string, c: string, i: nat, j: nat)
    requires i + |o| <= j <= |s| && IsPrefix(o, s[i..]) && IsPrefix(c, s[j..])
    ensures Find(s, o).Some? && Find(s, o).value <= i
    ensures FindFrom(s, c, Find(s, o).value + |o|).Some?
  {
    FindFromSpec(s, o, 0);
    FindFromSpec(s, c, Find(s, o).value + |o|);
  }

  /** Behind the first `<style>` lies a match, whatever the replacement. */
  lemma StyleSearchFound(content: string, block: string)
    requires HasStyleBlock(content)
    ensures FirstHit(content, StyleHit(block)).Some?
  {
    var p := Find(content, STYLE_OPEN).value;
    var c := FindFrom(content, STYLE_CLOSE, p + |STYLE_OPEN|).value;
    FindFromSpec(content, STYLE_OPEN, 0);
    FindFromSpec(content, STYLE_CLOSE, p + |STYLE_OPEN|);
    assert content[p..][c - p..] == content[c..];
    StyleAt(content[p..], c - p);
    assert StyleHit(block)(content[p..]).Some?;
  }

  /** A match holds a `<style>` and a `</style>` after it. */
  lemma StyleSearchHas(content: string, block: string)
    requires FirstHit(content, StyleHit(block)).Some?
    ensures HasStyleBlock(content)
  {
    var q := FirstHit(content, StyleHit(block)).value;
    var (a, c, e) := StyleSpan(content[q..]).value;
    StyleSound(content[q..], a, c, e);
    assert content[q..][a..] == content[q + a..];
    assert content[q..][c..] == content[q + c..];
    CloseBehindFirst(content, STYLE_OPEN, STYLE_CLOSE, q + a, q + c);
  }

  /** The pattern matches somewhere exactly when some `<style>` has a `</style>` after it. */
  lemma StyleSearch(content: string, block: string)
    ensures HasStyleBlock(content) <==> FirstHit(content, StyleHit(block)).Some?
  {
    if HasStyleBlock(content) {
      StyleSearchFound(content, block);
    }
    if FirstHit(content, StyleHit(block)).Some? {
      StyleSearchHas(content, block);
    }
  }

  /** The replacement: the link block of `theme` on lines of its own. */
  function LinkBlock(theme: string): string {
    "\n" + CssLinks(theme) + "\n"
  }

  /** `re.sub(style_pattern, '\n' + css_links + '\n', content, count=1, flags=re.DOTALL)` */
  function ReplaceStyle(content: string, theme: string): string {
    StyleAdvancing(LinkBlock(theme));
    SubFirst(content, StyleHit(LinkBlock(theme)))
  }

  /** The first match is a style block. */
  lemma FirstBlock(content: string, block: string)
    requires FirstHit(content, StyleHit(block)).Some?
    ensures var q := FirstHit(content, StyleHit(block)).value;
      var (a, c, e) := StyleSpan(content[q..]).value;
      StyleBlock(content[q..], a, c, e)
  {
    var q := FirstHit(content, StyleHit(block)).value;
    var (a, c, e) := StyleSpan(content[q..]).value;
    StyleSound(content[q..], a, c, e);
  }

  /**
   * Where the page has a style block, the first one, with the whitespace around it, is replaced
   * by `block`; the text before and after it is kept.
   */
  lemma ReplaceBlockFirst(content: string, block: string)
    requires FirstHit(content, StyleHit(block)).Some?
    ensures var q := FirstHit(content, StyleHit(block)).value;
      SubFirst(content, StyleHit(block)) == content[..q] + block + content[q + StyleSpan(content[q..]).value.2..]
  {
    StyleAdvancing(block);
  }

  /** Without a style block the pattern does nothing. */
  lemma ReplaceStyleNone(content: string, theme: string)
    requires !HasStyleBlock(content)
    ensures ReplaceStyle(content, theme) == content
  {
    StyleSearch(content, LinkBlock(theme));
  }

  /** The replaced page names the base stylesheet and the theme's stylesheet. */
  lemma ReplaceStyleLinks(content: string, theme: string)
    requires HasStyleBlock(content)
    ensures Contains(ReplaceStyle(content, theme), BASE_CSS)
    ensures Contains(ReplaceStyle(content, theme), ThemeFile(theme))
  {
    var block := LinkBlock(theme);
    StyleSearchFound(content, block);
    StyleAdvancing(block);
    SubFirstShowsHit(content, StyleHit(block));
    CssLinksName(theme);
    ContainsMiddle("\n", CssLinks(theme), "\n");
    ContainsTrans(block, CssLinks(theme), BASE_CSS);
    ContainsTrans(block, CssLinks(theme), ThemeFile(theme));
    ContainsTrans(ReplaceStyle(content, theme), block, BASE_CSS);
    ContainsTrans(ReplaceStyle(content, theme), block, ThemeFile(theme));
  }

  // ---------------------------------------------------------------------------
  // One file

  /** An HTML file: its path and its text. */
  datatype HtmlFile = HtmlFile(path: string, content: string)

  /** What `process_html_file` decides for a file. */
  datatype Action = Skip | Convert(theme: string) | Fail(error: string)

  /**
   * The decision: skip a page that already links the base stylesheet, skip a page without a
   * style block, otherwise convert it with its folder's theme, or fail when the folder is unknown.
   */
  function Decide(f: HtmlFile): Action {
    if Contains(f.content, BASE_CSS) then Skip
    else if !HasStyleBlock(f.content) then Skip
    else match GetThemeForPath(f.path)
      case Err(e) => Fail(e)
      case Ok(theme) => Convert(theme)
  }

  /**
   * Both skips come before the theme lookup, so a page without a style block is skipped even when
   * its folder is unknown: only a page that would be converted can fail.
   */
  lemma DecideSkips(f: HtmlFile)
    ensures Contains(f.content, BASE_CSS) ==> Decide(f) == Skip
    ensures !HasStyleBlock(f.content) ==> Decide(f) == Skip
    ensures Decide(f).Fail? <==> !Contains(f.content, BASE_CSS) && HasStyleBlock(f.content) && GetThemeForPath(f.path).Err?
    ensures Decide(f).Convert? ==> GetThemeForPath(f.path) == Ok(Decide(f).theme)
  {
  }

  /** The text a converted page gets. */
  function Converted(f: HtmlFile): string
    requires Decide(f).Convert?
  {
    ReplaceStyle(f.content, Decide(f).theme)
  }

  /** A converted page links the base stylesheet and its theme's stylesheet. */
  lemma ConvertedLinks(f: HtmlFile)
    requires Decide(f).Convert?
    ensures Contains(Converted(f), BASE_CSS)
    ensures Contains(Converted(f), ThemeFile(Decide(f).theme))
  {
    ReplaceStyleLinks(f.content, Decide(f).theme);
  }

  /** Running the conversion on its own output skips the file. */
  lemma ConvertedIdempotent(f: HtmlFile)
    requires Decide(f).Convert?
    ensures Decide(HtmlFile(f.path, Converted(f))) == Skip
  {
    ConvertedLinks(f);
  }

  /** What the conversion writes for one file: nothing unless it converts it outside a dry run. */
  function WrittenFor(f: HtmlFile, dryRun: bool): Option<string> {
    if !dryRun && Decide(f).Convert? then Some(Converted(f)) else None
  }

  /** `process_html_file`: whether it converted the file, and the text written (none in a dry run). */
  method ProcessHtmlFile(f: HtmlFile, dryRun: bool) returns (r: Result<bool, string>, written: Option<string>)
    ensures r.Err? <==> Decide(f).Fail?
    ensures r.Err? ==> r.error == Decide(f).error
    ensures r.Ok? ==> (r.value <==> Decide(f).Convert?)
    ensures written == WrittenFor(f, dryRun)
  {
    written := None;
    if Contains(f.content, BASE_CSS) {
      return Ok(false), None;
    }
    if !HasStyleBlock(f.content) {
      return Ok(false), None;
    }
    var theme := GetThemeForPath(f.path);
    if theme.Err? {
      return Err(theme.error), None;
    }
    var newContent := ReplaceStyle(f.content, theme.value);
    if !dryRun {
      written := Some(newContent);
    }
    r := Ok(true);
  }

  // ---------------------------------------------------------------------------
  // The run over all files

  /** Whether the file stops the run: it would be converted, but its folder is unknown. */
  predicate Fails(f: HtmlFile) {
    Decide(f).Fail?
  }

  /** The index of the first file at or after `q` that stops the run. */
  function FailureFrom(fs: seq<HtmlFile>, q: nat): (r: Option<nat>)
    ensures r.Some? ==> q <= r.value < |fs| && Fails(fs[r.value])
    decreases |fs| - q
  {
    if q >= |fs| then None
    else if Fails(fs[q]) then Some(q)
    else FailureFrom(fs, q + 1)
  }

  /** The failure found is the first one at or after `q`; when none is found, no file there fails. */
  lemma {:induction false} FailureFromFirst(fs: seq<HtmlFile>, q: nat, i: nat)
    requires q <= i < |fs|
    ensures FailureFrom(fs, q).Some? && i < FailureFrom(fs, q).value ==> !Fails(fs[i])
    ensures FailureFrom(fs, q).None? ==> !Fails(fs[i])
    decreases |fs| - q
  {
    if q < i {
      FailureFromFirst(fs, q + 1, i);
    }
  }

  /** Whether `process_html_file` converts the file (and returns True). */
  predicate Converts(f: HtmlFile) {
    Decide(f).Convert?
  }

  /** The number of files among `fs` that the conversion rewrites. */
  function CountConverted(fs: seq<HtmlFile>): (n: nat)
    ensures n <= |fs|
  {
    if |fs| == 0 then 0
    else CountConverted(fs[..|fs| - 1]) + (if Converts(fs[|fs| - 1]) then 1 else 0)
  }

  /** What the conversion writes for each of `fs`, in order. */
  function WrittenAll(fs: seq<HtmlFile>, dryRun: bool): (r: seq<Option<string>>)
    ensures |r| == |fs|
  {
    if |fs| == 0 then [] else WrittenAll(fs[..|fs| - 1], dryRun) + [WrittenFor(fs[|fs| - 1], dryRun)]
  }

  /** Entry `i` of `WrittenAll` is the converted text of file `i`, or nothing; a dry run writes nothing. */
  lemma {:induction false} WrittenAllAt(fs: seq<HtmlFile>, dryRun: bool, i: nat)
    requires i < |fs|
    ensures WrittenAll(fs, dryRun)[i] == WrittenFor(fs[i], dryRun)
    ensures dryRun ==> WrittenAll(fs, dryRun)[i] == None
    decreases |fs|
  {
    if i < |fs| - 1 {
      WrittenAllAt(fs[..|fs| - 1], dryRun, i);
    }
  }

  /**
   * `main`: the files are converted in order until one of them has an unknown folder, which
   * ends the run with its error; the counters and writes cover the files before it.
   */
  method RunExtract(fs: seq<HtmlFile>, dryRun: bool) returns (converted: nat, skipped: nat, written: seq<Option<string>>, error: Option<string>)
    ensures var n := if FailureFrom(fs, 0).Some? then FailureFrom(fs, 0).value else |fs|;
      && converted == CountConverted(fs[..n]) && converted + skipped == n
      && written == WrittenAll(fs[..n], dryRun)
      && error == if FailureFrom(fs, 0).Some? then Some(Decide(fs[n]).error) else None
  {
    converted, skipped, written, error := 0, 0, [], None;
    var i := 0;
    while i < |fs|
      invariant i <= |fs|
      invariant FailureFrom(fs, i) == FailureFrom(fs, 0)
      invariant converted == CountConverted(fs[..i]) && converted + skipped == i
      invariant written == WrittenAll(fs[..i], dryRun)
    {
      var r, w := ProcessHtmlFile(fs[i], dryRun);
      if r.Err? {
        error := Some(r.error);
        return;
      }
      assert fs[..i + 1][..i] == fs[..i];
      if r.value {
        converted := converted + 1;
      } else {
        skipped := skipped + 1;
      }
      written := written + [w];
      i := i + 1;
    }
    assert fs[..|fs|] == fs;
  }
}
