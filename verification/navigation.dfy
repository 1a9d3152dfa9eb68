/**
 * The navigation rewriter for the tutorial pages (scripts/build/add-navigation.py):
 * a "← All Tutorials" link in every page header, and on each tutorial's last page
 * (advanced.html) a link to the next tutorial in place of "Start Tutorial Over".
 */
module Navigation {
  import opened Wrappers
  import opened Text
  import opened Rewrite

  /** The tutorial that follows another one. */
  datatype NextTutorial = NextTutorial(folder: string, title: string)

  /** One row of the tutorial order table. */
  datatype Entry = Entry(folder: string, next: Option<NextTutorial>)

  const TUTORIALS: seq<Entry> := [
    Entry("01-gaussian", Some(NextTutorial("02-logistic", "Heart Disease Classification"))),
    Entry("02-logistic", Some(NextTutorial("03-poisson", "Bike Rental Demand"))),
    Entry("03-poisson", Some(NextTutorial("04-negbin", "Handling Overdispersion"))),
    Entry("04-negbin", Some(NextTutorial("05-gamma", "Blood Pressure Prediction"))),
    Entry("05-gamma", None)
  ]

  /** The next-tutorial column of the first row of `table` whose folder is `current`. */
  function Lookup(table: seq<Entry>, current: string): (r: Option<NextTutorial>)
    ensures (forall k :: 0 <= k < |table| ==> table[k].folder != current) ==> r.None?
    ensures forall k ::
              (0 <= k < |table| && table[k].folder == current && forall j :: 0 <= j < k ==> table[j].folder != current)
              ==> r == table[k].next
  {
    if |table| == 0 then None
    else if table[0].folder == current then table[0].next
    else
      assert forall k :: 1 <= k < |table| ==> table[k] == table[1..][k - 1];
      Lookup(table[1..], current)
  }

  /** `get_next_tutorial`: `None` stands for the pair `(None, None)`. */
  function GetNextTutorial(current: string): Option<NextTutorial> {
    Lookup(TUTORIALS, current)
  }

  /** The table is a chain: each row names the following row's folder, and only the last row has none. */
  lemma TutorialsChained()
    ensures forall k :: 0 <= k < |TUTORIALS| - 1 ==>
      TUTORIALS[k].next.Some? && TUTORIALS[k].next.value.folder == TUTORIALS[k + 1].folder
    ensures TUTORIALS[|TUTORIALS| - 1].next.None?
    ensures forall j, k :: 0 <= j < k < |TUTORIALS| ==> TUTORIALS[j].folder != TUTORIALS[k].folder
  {
  }

  /** Each tutorial but the last leads to the one after it; the last and unknown folders lead nowhere. */
  lemma NextFollowsTable(k: nat, current: string)
    ensures k < |TUTORIALS| - 1 ==> GetNextTutorial(TUTORIALS[k].folder) == Some(NextTutorial(TUTORIALS[k + 1].folder, TUTORIALS[k].next.value.title))
    ensures GetNextTutorial(TUTORIALS[|TUTORIALS| - 1].folder).None?
    ensures (forall j :: 0 <= j < |TUTORIALS| ==> TUTORIALS[j].folder != current) ==> GetNextTutorial(current).None?
  {
    TutorialsChained();
  }

  // ---------------------------------------------------------------------------
  // The header link

  const INDEX_HREF := "../../index.html"
  const ALL_TUTORIALS := "All Tutorials"
  const HEADER_OPEN := "<header>"
  const CONTAINER_DIV := "<div class=\"container\">"
  /** What `\1` is followed by in the header replacement. */
  const BACK_LINK := "\n      <a href=\"" + INDEX_HREF + "\" class=\"back-to-index\">&larr; " + ALL_TUTORIALS + "</a>"
  const BACK_CLASS := ".back-to-index"
  const BACK_CSS_RULE := "      display: inline-block;\n"
    + "      color: rgba(255,255,255,0.8);\n"
    + "      text-decoration: none;\n"
  const BACK_CSS_RULE_2 := "      font-size: 0.85em;\n"
    + "      margin-bottom: 10px;\n"
    + "      transition: color 0.2s;\n"
    + "    }\n"
  const BACK_CSS_HOVER := "    .back-to-index:hover {\n"
    + "      color: white;\n"
    + "    }\n"
  const BACK_CSS := "\n    " + BACK_CLASS + " {\n" + BACK_CSS_RULE + BACK_CSS_RULE_2 + BACK_CSS_HOVER
  const STYLE_CLOSE := "</style>"

  /** `css_addition + '  </style>'`, which takes the place of each `</style>`. */
  function StyleWith(css: string): string {
    css + "  " + STYLE_CLOSE
  }

  /**
   * The length of `open\s*close` at the start of `t`, if it is there. `\s*` is greedy, and
   * since `close` starts with a character `\s` cannot take, it never has to give any back.
   */
  function TagSpan(t: string, open: string, close: string): (r: Option<nat>)
    ensures r.Some? ==> |open| + |close| <= r.value <= |t|
    ensures r.Some? ==>
      && IsPrefix(open, t)
      && (forall k {:trigger IsSpace(t[k])} :: |open| <= k < r.value - |close| ==> IsSpace(t[k]))
      && IsPrefix(close, t[r.value - |close|..])
  {
    if !IsPrefix(open, t) then None
    else
      var g := SpaceEnd(t, |open|);
      SpaceEndSpec(t, |open|);
      if IsPrefix(close, t[g..]) then Some(g + |close|) else None
  }

  /**
   * `re.sub(r'(<header>\s*<div class="container">)', r'\1' + link, ...)` at one position: the
   * matched text is kept and the back link follows it.
   */
  function HeaderMatch(t: string): (r: Option<Hit>)
    ensures r.Some? ==> |HEADER_OPEN| + |CONTAINER_DIV| <= r.value.len <= |t|
    ensures r.Some? ==> r.value.out == t[..r.value.len] + BACK_LINK
    ensures r.Some? ==>
      && IsPrefix(HEADER_OPEN, t)
      && (forall k {:trigger IsSpace(t[k])} :: |HEADER_OPEN| <= k < r.value.len - |CONTAINER_DIV| ==> IsSpace(t[k]))
      && IsPrefix(CONTAINER_DIV, t[r.value.len - |CONTAINER_DIV|..])
  {
    match TagSpan(t, HEADER_OPEN, CONTAINER_DIV)
    case None => None
    case Some(e) => Some(Hit(e, t[..e] + BACK_LINK))
  }

  /** Every `<header>`, whitespace, `<div class="container">` at the start is matched, whole. */
  lemma HeaderComplete(t: string, g: nat)
    requires IsPrefix(HEADER_OPEN, t) && |HEADER_OPEN| <= g <= |t|
    requires forall k {:trigger IsSpace(t[k])} :: |HEADER_OPEN| <= k < g ==> IsSpace(t[k])
    requires IsPrefix(CONTAINER_DIV, t[g..])
    ensures HeaderMatch(t) == Some(Hit(g + |CONTAINER_DIV|, t[..g + |CONTAINER_DIV|] + BACK_LINK))
  {
    assert t[g] == t[g..][0] == '<';
    SpaceEndIs(t, |HEADER_OPEN|, g);
  }

  function HeaderHit(): Matcher {
    t => HeaderMatch(t)
  }

  lemma HeaderAdvancing()
    ensures Advancing(HeaderHit())
  {
  }

  predicate HasNav(content: string) {
    Contains(content, INDEX_HREF) || Contains(content, ALL_TUTORIALS)
  }

  /** The page after the header link has been inserted. */
  function Linked(content: string): string {
    HeaderAdvancing();
    Sub(content, HeaderHit())
  }

  /** `add_header_nav` */
  function AddHeaderNav(content: string): (r: string)
    ensures HasNav(content) ==> r == content
  {
    if HasNav(content) then content
    else
      var linked := Linked(content);
      if !Contains(linked, BACK_CLASS) then ReplaceAll(linked, STYLE_CLOSE, StyleWith(BACK_CSS)) else linked
  }

  /**
   * Where the back-link CSS goes: nowhere when `.back-to-index` is already there after the link
   * insertion, otherwise in front of every `</style>` and nowhere else.
   */
  lemma BackCssPlacement(content: string)
    requires !HasNav(content)
    ensures Contains(Linked(content), BACK_CLASS) ==> AddHeaderNav(content) == Linked(content)
    ensures !Contains(Linked(content), BACK_CLASS) ==>
      Join(Split(Linked(content), STYLE_CLOSE), STYLE_CLOSE) == Linked(content)
      && AddHeaderNav(content) == Join(Split(Linked(content), STYLE_CLOSE), StyleWith(BACK_CSS))
  {
    ReplaceAllIsJoin(Linked(content), STYLE_CLOSE, StyleWith(BACK_CSS));
    JoinSplit(Linked(content), STYLE_CLOSE);
  }

  /** A tag span depends only on the characters it covers. */
  lemma TagSpanLocal(t: string, u: string, open: string, close: string)
    requires |close| > 0 && TagSpan(t, open, close).Some?
    requires TagSpan(t, open, close).value <= |u|
    requires u[..TagSpan(t, open, close).value] == t[..TagSpan(t, open, close).value]
    ensures TagSpan(u, open, close) == TagSpan(t, open, close)
  {
    var n := |open|;
    var e := TagSpan(t, open, close).value;
    var g := SpaceEnd(t, n);
    assert u[..n] == u[..e][..n] == t[..e][..n] == t[..n];
    assert u[..g + 1] == u[..e][..g + 1] == t[..e][..g + 1] == t[..g + 1];
    SpaceEndLocal(t, u, n);
    assert u[g..][..|close|] == u[..e][g..] == t[..e][g..] == t[g..][..|close|];
  }

  /** A header match depends only on the characters it consumes. */
  lemma HeaderMatchLocal(t: string, u: string)
    ensures HeaderMatch(t).Some? && HeaderMatch(t).value.len <= |u|
              && u[..HeaderMatch(t).value.len] == t[..HeaderMatch(t).value.len]
            ==> HeaderMatch(u) == HeaderMatch(t)
  {
    var e := TagSpan(t, HEADER_OPEN, CONTAINER_DIV);
    if e.Some? && e.value <= |u| && u[..e.value] == t[..e.value] {
      TagSpanLocal(t, u, HEADER_OPEN, CONTAINER_DIV);
    }
  }

  /**
   * A stretch `t[..e]` made of newline-free text up to `n`, whitespace up to `g`, then a `<` and
   * newline-free text up to `e`, ends before any newline that is followed by four spaces and a dot.
   */
  lemma StretchStopsBefore(t: string, n: nat, g: nat, e: nat, d: nat)
    requires n <= g < e <= |t| && t[g] == '<'
    requires forall k :: 0 <= k < n ==> t[k] != '\n'
    requires forall k {:trigger IsSpace(t[k])} :: n <= k < g ==> IsSpace(t[k])
    requires forall k :: g <= k < e ==> t[k] != '\n'
    requires d + 6 <= |t| && t[d..d + 6] == "\n    ."
    ensures e <= d
  {
    assert t[d] == '\n' && t[d + 1] == ' ' && t[d + 2] == ' ' && t[d + 3] == ' ' && t[d + 4] == ' ' && t[d + 5] == '.';
    assert !IsSpace('.');
  }

  /** Neither tag of the header pattern holds a newline. */
  lemma HeaderTagsFlat()
    ensures '\n' !in HEADER_OPEN && '\n' !in CONTAINER_DIV && CONTAINER_DIV[0] == '<'
  {
    assert '\n' !in HEADER_OPEN;
  }

  /** A tag span whose tags hold no newline, the second opening with `<`, stops before a newline-and-rule. */
  lemma TagSpanStopsBefore(t: string, open: string, close: string, d: nat)
    requires '\n' !in open && '\n' !in close && |close| > 0 && close[0] == '<'
    requires TagSpan(t, open, close).Some?
    requires d + 6 <= |t| && t[d..d + 6] == "\n    ."
    ensures TagSpan(t, open, close).value <= d
  {
    var n := |open|;
    var e := TagSpan(t, open, close).value;
    var g := e - |close|;
    forall k | 0 <= k < n ensures t[k] != '\n' {
      assert t[k] == t[..n][k] == open[k];
    }
    forall k | g <= k < e ensures t[k] != '\n' {
      assert t[k] == t[g..][..|close|][k - g] == close[k - g];
    }
    assert t[g] == t[g..][..|close|][0];
    StretchStopsBefore(t, n, g, e, d);
  }

  /** A header match cannot reach the newline that starts the back-link CSS. */
  lemma HeaderMatchStopsBefore(t: string, d: nat)
    requires d + 6 <= |t| && t[d..d + 6] == "\n    ."
    ensures HeaderMatch(t).Some? ==> HeaderMatch(t).value.len <= d
  {
    if TagSpan(t, HEADER_OPEN, CONTAINER_DIV).Some? {
      HeaderTagsFlat();
      TagSpanStopsBefore(t, HEADER_OPEN, CONTAINER_DIV, d);
    }
  }

  /** A header match starts with `<h`. */
  lemma HeaderMatchStart(t: string)
    ensures HeaderMatch(t).Some? ==> |t| >= 2 && t[0] == '<' && t[1] == 'h'
  {
  }

  /**
   * CSS text that cannot take part in a header match: it opens with a newline and indentation
   * followed by a rule, and each of its `<` opens a closing tag.
   */
  predicate HeaderSafe(css: string) {
    && |css| >= 6 && css[..6] == "\n    ."
    && forall k :: 0 <= k < |css| && css[k] == '<' ==> k + 1 < |css| && css[k + 1] == '/'
  }

  lemma BackCssRuleNoAngle()
    ensures '<' !in BACK_CSS_RULE
  {
  }

  lemma BackCssRule2NoAngle()
    ensures '<' !in BACK_CSS_RULE_2
  {
  }

  lemma BackCssHoverNoAngle()
    ensures '<' !in BACK_CSS_HOVER
  {
  }

  lemma BackCssNoAngle()
    ensures '<' !in BACK_CSS
  {
    BackCssRuleNoAngle();
    BackCssRule2NoAngle();
    BackCssHoverNoAngle();
    assert '<' !in "\n    " + BACK_CLASS + " {\n";
  }

  /** The back-link CSS is safe in that sense, and it carries the `.back-to-index` class. */
  lemma BackCssSafe()
    ensures HeaderSafe(StyleWith(BACK_CSS))
  {
    var css := StyleWith(BACK_CSS);
    var tail := "  " + STYLE_CLOSE;
    BackCssNoAngle();
    assert css == BACK_CSS + tail;
    forall k | 0 <= k < |css| && css[k] == '<' ensures k + 1 < |css| && css[k + 1] == '/' {
      if k >= |BACK_CSS| {
        assert css[k] == tail[k - |BACK_CSS|];
        assert css[k + 1] == tail[k + 1 - |BACK_CSS|];
      }
    }
    assert css[..6] == BACK_CSS[..6];
  }

  lemma BackCssClass()
    ensures Contains(StyleWith(BACK_CSS), BACK_CLASS)
  {
    var css := StyleWith(BACK_CSS);
    var head := "\n    " + BACK_CLASS;
    assert css == head + css[|head|..];
    ContainsSelf(BACK_CLASS);
    ContainsRight("\n    ", BACK_CLASS, BACK_CLASS);
    ContainsLeft(head, css[|head|..], BACK_CLASS);
  }

  /** The header link carries the index address. */
  lemma BackLinkFacts()
    ensures Contains(BACK_LINK, INDEX_HREF)
  {
    var pre := "\n      <a href=\"";
    assert IsPrefix(INDEX_HREF, BACK_LINK[|pre|..]);
    ContainsAt(BACK_LINK, INDEX_HREF, |pre|);
  }

  /** No header match starts inside safe CSS. */
  lemma NoHeaderInCss(css: string, k: nat, rest: string)
    requires HeaderSafe(css) && k < |css|
    ensures HeaderMatch(css[k..] + rest).None?
  {
    var t := css[k..] + rest;
    HeaderMatchStart(t);
    assert t[0] == css[k];
    if css[k] == '<' {
      assert t[1] == css[k + 1];
    }
  }

  /** A header match that starts before safe CSS was a match before the CSS went in. */
  lemma NoHeaderBeforeCss(css: string, p0: string, x: string, y1: string, i: nat)
    requires HeaderSafe(css)
    requires i < |p0| && IsPrefix(p0, x) && HeaderMatch(x[i..]).None?
    ensures HeaderMatch((p0 + css + y1)[i..]).None?
  {
    var t, u := (p0 + css + y1)[i..], x[i..];
    var d := |p0| - i;
    assert t[d..d + 6] == css[..6];
    HeaderMatchStopsBefore(t, d);
    assert t[..d] == p0[i..];
    assert u[..d] == x[..|p0|][i..];
    HeaderMatchLocal(t, u);
  }

  /** No header match starts anywhere in `p0 + css + y1` when none starts in the `</style>` version. */
  lemma NoHeaderAround(css: string, p0: string, x1: string, y1: string, i: nat)
    requires HeaderSafe(css)
    requires HitsNowhere(p0 + STYLE_CLOSE + x1, HeaderHit())
    requires HitsNowhere(y1, HeaderHit())
    requires i < |p0 + css + y1|
    ensures HeaderMatch((p0 + css + y1)[i..]).None?
  {
    var y := p0 + css + y1;
    if i < |p0| {
      assert HeaderHit()((p0 + STYLE_CLOSE + x1)[i..]).None?;
      assert IsPrefix(p0, p0 + STYLE_CLOSE + x1);
      NoHeaderBeforeCss(css, p0, p0 + STYLE_CLOSE + x1, y1, i);
    } else if i < |p0| + |css| {
      assert y[i..] == css[i - |p0|..] + y1;
      NoHeaderInCss(css, i - |p0|, y1);
    } else {
      assert y[i..] == y1[i - |p0| - |css|..];
      assert HeaderHit()(y1[i - |p0| - |css|..]).None?;
    }
  }

  lemma {:induction false} JoinKeepsNoHeader(ps: seq<string>, css: string)
    requires HeaderSafe(css)
    requires HitsNowhere(Join(ps, STYLE_CLOSE), HeaderHit())
    ensures HitsNowhere(Join(ps, css), HeaderHit())
  {
    if |ps| >= 2 {
      var p0 := ps[0];
      var x1, y1 := Join(ps[1..], STYLE_CLOSE), Join(ps[1..], css);
      assert Join(ps, STYLE_CLOSE) == p0 + STYLE_CLOSE + x1;
      assert Join(ps, css) == p0 + css + y1;
      HitsNowhereSuffix(p0 + STYLE_CLOSE + x1, |p0| + |STYLE_CLOSE|, HeaderHit());
      assert (p0 + STYLE_CLOSE + x1)[|p0| + |STYLE_CLOSE|..] == x1;
      JoinKeepsNoHeader(ps[1..], css);
      forall i | 0 <= i < |p0 + css + y1| ensures HeaderHit()((p0 + css + y1)[i..]).None? {
        NoHeaderAround(css, p0, x1, y1, i);
      }
    }
  }

  /** Putting CSS in front of `</style>` keeps the index address a page already carries. */
  lemma StyleCssKeepsIndexHref(s: string, css: string)
    requires Contains(s, INDEX_HREF)
    ensures Contains(ReplaceAll(s, STYLE_CLOSE, css), INDEX_HREF)
  {
    JoinSplit(s, STYLE_CLOSE);
    JoinKeepsContains(Split(s, STYLE_CLOSE), STYLE_CLOSE, css, INDEX_HREF);
    ReplaceAllIsJoin(s, STYLE_CLOSE, css);
  }

  /** The first header match puts the index address into the page. */
  lemma LinkedCarriesIndexHref(content: string)
    requires !HitsNowhere(content, HeaderHit())
    ensures Contains(Linked(content), INDEX_HREF)
  {
    HeaderAdvancing();
    var q := FirstHit(content, HeaderHit()).value;
    SubShowsFirstHit(content, HeaderHit());
    var h := HeaderMatch(content[q..]).value;
    BackLinkFacts();
    ContainsRight(content[q..][..h.len], BACK_LINK, INDEX_HREF);
    ContainsTrans(Linked(content), h.out, INDEX_HREF);
  }

  /** Safe CSS with the back-link class, put in front of `</style>` of a page without header match. */
  lemma CssInsertSettles(content: string, css: string)
    requires HeaderSafe(css) && Contains(css, BACK_CLASS)
    requires HitsNowhere(content, HeaderHit()) && Contains(content, STYLE_CLOSE)
    ensures Contains(ReplaceAll(content, STYLE_CLOSE, css), BACK_CLASS)
    ensures HitsNowhere(ReplaceAll(content, STYLE_CLOSE, css), HeaderHit())
  {
    var r := ReplaceAll(content, STYLE_CLOSE, css);
    ReplaceAllPresent(content, STYLE_CLOSE, css);
    ContainsTrans(r, css, BACK_CLASS);
    JoinSplit(content, STYLE_CLOSE);
    JoinKeepsNoHeader(Split(content, STYLE_CLOSE), css);
    ReplaceAllIsJoin(content, STYLE_CLOSE, css);
  }

  /** Once a header link went in, the page has navigation and a second pass leaves it alone. */
  lemma LinkedSettles(content: string)
    requires !HasNav(content) && !HitsNowhere(content, HeaderHit())
    ensures HasNav(AddHeaderNav(content))
  {
    LinkedCarriesIndexHref(content);
    if !Contains(Linked(content), BACK_CLASS) {
      StyleCssKeepsIndexHref(Linked(content), StyleWith(BACK_CSS));
    }
  }

  /** Without a header to link, a second pass finds no header and the CSS it would add already there. */
  lemma UnlinkedSettles(content: string)
    requires !HasNav(content) && HitsNowhere(content, HeaderHit())
    ensures AddHeaderNav(AddHeaderNav(content)) == AddHeaderNav(content)
  {
    var r := AddHeaderNav(content);
    HeaderAdvancing();
    SubUnchanged(content, HeaderHit());
    assert Linked(content) == content;
    if !Contains(content, BACK_CLASS) {
      if Contains(content, STYLE_CLOSE) {
        BackCssSafe();
        BackCssClass();
        CssInsertSettles(content, StyleWith(BACK_CSS));
        SubUnchanged(r, HeaderHit());
      } else {
        ReplaceAllAbsent(content, STYLE_CLOSE, StyleWith(BACK_CSS));
      }
    }
  }

  lemma AddHeaderNavIdempotent(content: string)
    ensures AddHeaderNav(AddHeaderNav(content)) == AddHeaderNav(content)
  {
    if !HasNav(content) {
      if !HitsNowhere(content, HeaderHit()) {
        LinkedSettles(content);
      } else {
        UnlinkedSettles(content);
      }
    }
  }

  // ---------------------------------------------------------------------------
  // The bottom navigation of advanced.html

  const NAV_DIV := "<div class=\"nav-buttons\">"
  const START_OVER := "Start Tutorial Over"
  const CLOSE_A := "</a>"
  const CLOSE_DIV := "</div>"

  const COMPLETION_NAV := "<a href=\"" + INDEX_HREF + "\" class=\"btn btn-success\">\n"
    + "          &#10003; Complete! Back to All Tutorials\n"
    + "        </a>"

  function NextHref(folder: string): string {
    "../" + folder + "/systematic.html"
  }

  const NEXT_OPEN := "<a href=\""
  const NEXT_MID := "\" class=\"btn btn-primary\">\n          "
  const NEXT_TAIL := " &rarr;\n        </a>"

  /** The link to the next tutorial. */
  function NextNav(n: NextTutorial): string {
    NEXT_OPEN + NextHref(n.folder) + NEXT_MID + "Next: " + n.title + NEXT_TAIL
  }

  const BTN_CLASS := ".btn-success"
  const BTN_CSS := "\n    " + BTN_CLASS + " {\n"
    + "      background: #27ae60;\n"
    + "      color: white;\n"
    + "    }\n"
    + "    .btn-success:hover {\n"
    + "      background: #219a52;\n"
    + "    }\n"

  /**
   * The groups of `(<open>.*?)(<start>.*?<close1>)(.*?<close2>)` (with `re.DOTALL`) at the start
   * of `t`: `start` occurs `i` characters after `open`, `close1` then `j` characters after
   * `start`, and `close2` then `k` characters after `close1`. Each lazy `.*?` stops at the first
   * occurrence of what follows it.
   */
  predicate Groups(t: string, open: string, start: string, close1: string, close2: string, i: nat, j: nat, k: nat) {
    && IsPrefix(open, t)
    && FirstAt(t[|open|..], start, i)
    && FirstAt(t[|open| + i + |start|..], close1, j)
    && FirstAt(t[|open| + i + |start| + j + |close1|..], close2, k)
  }

  /**
   * Where that pattern matches at the start of `t`. Backtracking cannot help: a later `start` or
   * `close1` has no more closing strings after it than the first one has.
   */
  function GroupSpan(t: string, open: string, start: string, close1: string, close2: string): (r: Option<(nat, nat, nat)>)
    ensures r.Some? ==> |open| + r.value.0 + |start| + r.value.1 + |close1| + r.value.2 + |close2| <= |t|
  {
    if !IsPrefix(open, t) then None
    else match Find(t[|open|..], start)
      case None => None
      case Some(i) =>
        match Find(t[|open| + i + |start|..], close1)
        case None => None
        case Some(j) =>
          match Find(t[|open| + i + |start| + j + |close1|..], close2)
          case None => None
          case Some(k) => Some((i, j, k))
  }

  /** What `GroupSpan` reports are the groups. */
  lemma SpanSound(t: string, open: string, start: string, close1: string, close2: string, i: nat, j: nat, k: nat)
    requires GroupSpan(t, open, start, close1, close2) == Some((i, j, k))
    ensures Groups(t, open, start, close1, close2, i, j, k)
  {
    var a := |open|;
    var b := a + i + |start|;
    var c := b + j + |close1|;
    assert Find(t[a..], start) == Some(i);
    assert Find(t[b..], close1) == Some(j);
    assert Find(t[c..], close2) == Some(k);
    FindFirst(t[a..], start);
    FindFirst(t[b..], close1);
    FindFirst(t[c..], close2);
  }

  lemma FindsSpan(t: string, open: string, start: string, close1: string, close2: string, i: nat, j: nat, k: nat)
    requires IsPrefix(open, t)
    requires Find(t[|open|..], start) == Some(i)
    requires Find(t[|open| + i + |start|..], close1) == Some(j)
    requires Find(t[|open| + i + |start| + j + |close1|..], close2) == Some(k)
    ensures GroupSpan(t, open, start, close1, close2) == Some((i, j, k))
  {
  }

  /** Whenever the groups are there, `GroupSpan` finds them. */
  lemma SpanComplete(t: string, open: string, start: string, close1: string, close2: string, i: nat, j: nat, k: nat)
    requires Groups(t, open, start, close1, close2, i, j, k)
    ensures GroupSpan(t, open, start, close1, close2) == Some((i, j, k))
  {
    FirstAtFind(t[|open|..], start, i);
    FirstAtFind(t[|open| + i + |start|..], close1, j);
    FirstAtFind(t[|open| + i + |start| + j + |close1|..], close2, k);
    FindsSpan(t, open, start, close1, close2, i, j, k);
  }

  /** The groups of the nav-buttons pattern. */
  predicate NavGroups(t: string, i: nat, j: nat, k: nat) {
    Groups(t, NAV_DIV, START_OVER, CLOSE_A, CLOSE_DIV, i, j, k)
  }

  /** Where group 2 ("Start Tutorial Over…</a>") starts and ends, and where the match ends. */
  function NavStart(i: nat): nat {
    |NAV_DIV| + i
  }

  function NavEnd(i: nat, j: nat): nat {
    |NAV_DIV| + i + |START_OVER| + j + |CLOSE_A|
  }

  function NavLen(i: nat, j: nat, k: nat): nat {
    NavEnd(i, j) + k + |CLOSE_DIV|
  }

  /** The nav pattern at one position, replaced by `\1 + nav + \3`. */
  function NavMatch(t: string, nav: string): (r: Option<Hit>)
    ensures r.Some? ==> 0 < r.value.len <= |t|
  {
    match GroupSpan(t, NAV_DIV, START_OVER, CLOSE_A, CLOSE_DIV)
    case None => None
    case Some((i, j, k)) => Some(Hit(NavLen(i, j, k), t[..NavStart(i)] + nav + t[NavEnd(i, j)..NavLen(i, j, k)]))
  }

  function NavHit(nav: string): Matcher {
    t => NavMatch(t, nav)
  }

  lemma NavAdvancing(nav: string)
    ensures Advancing(NavHit(nav))
  {
  }

  /** The link that takes the place of "Start Tutorial Over…</a>". */
  function NavLink(next: Option<NextTutorial>): string {
    if next.None? then COMPLETION_NAV else NextNav(next.value)
  }

  /** The page after the nav-buttons substitution. */
  function Swapped(content: string, next: Option<NextTutorial>): string {
    NavAdvancing(NavLink(next));
    Sub(content, NavHit(NavLink(next)))
  }

  /** `update_advanced_nav`; `None` stands for `next_folder is None`. */
  function UpdateAdvancedNav(content: string, next: Option<NextTutorial>): string {
    var swapped := Swapped(content, next);
    if !Contains(swapped, BTN_CLASS) && next.None? then ReplaceAll(swapped, STYLE_CLOSE, StyleWith(BTN_CSS)) else swapped
  }

  /**
   * `out` is what the block `w` becomes: `w` is the start of some text `t` whose nav groups end
   * where `w` ends, and its "Start Tutorial Over…</a>" group is replaced by `nav`.
   */
  ghost predicate NavPiece(w: string, out: string, nav: string) {
    exists t, i, j, k :: IsPrefix(w, t) && NavGroups(t, i, j, k) && |w| == NavLen(i, j, k)
      && out == w[..NavStart(i)] + nav + w[NavEnd(i, j)..]
  }

  lemma NavMatchPiece(t: string, nav: string)
    requires NavMatch(t, nav).Some?
    ensures NavPiece(t[..NavMatch(t, nav).value.len], NavMatch(t, nav).value.out, nav)
  {
    var (i, j, k) := GroupSpan(t, NAV_DIV, START_OVER, CLOSE_A, CLOSE_DIV).value;
    SpanSound(t, NAV_DIV, START_OVER, CLOSE_A, CLOSE_DIV, i, j, k);
    var w := t[..NavLen(i, j, k)];
    assert t[..NavStart(i)] == w[..NavStart(i)];
    assert t[NavEnd(i, j)..NavLen(i, j, k)] == w[NavEnd(i, j)..];
    assert IsPrefix(w, t) && NavGroups(t, i, j, k);
  }

  /**
   * Every rewritten piece of the page is a nav-buttons block whose "Start Tutorial Over…</a>"
   * group is replaced by the link; everything between the blocks is kept.
   */
  lemma NavSwaps(content: string, next: Option<NextTutorial>)
    ensures Before(Steps(content, NavHit(NavLink(next)))) == content
    ensures After(Steps(content, NavHit(NavLink(next)))) == Swapped(content, next)
    ensures forall n :: 0 <= n < |Steps(content, NavHit(NavLink(next)))| && Steps(content, NavHit(NavLink(next)))[n].Swap? ==>
      NavPiece(Steps(content, NavHit(NavLink(next)))[n].matched, Steps(content, NavHit(NavLink(next)))[n].out, NavLink(next))
  {
    var nav := NavLink(next);
    NavAdvancing(nav);
    StepsAccount(content, NavHit(nav));
    var st := Steps(content, NavHit(nav));
    forall n | 0 <= n < |st| && st[n].Swap?
      ensures NavPiece(st[n].matched, st[n].out, nav)
    {
      assert Genuine(st[n], NavHit(nav));
      var t :| IsPrefix(st[n].matched, t) && NavHit(nav)(t) == Some(Hit(|st[n].matched|, st[n].out));
      NavMatchPiece(t, nav);
    }
  }

  lemma NavMatchGroups(t: string, nav: string)
    ensures NavMatch(t, nav).Some? ==> exists i: nat, j: nat, k: nat :: NavGroups(t, i, j, k)
  {
    if NavMatch(t, nav).Some? {
      var (i, j, k) := GroupSpan(t, NAV_DIV, START_OVER, CLOSE_A, CLOSE_DIV).value;
      SpanSound(t, NAV_DIV, START_OVER, CLOSE_A, CLOSE_DIV, i, j, k);
      assert NavGroups(t, i, j, k);
    }
  }

  /** A page without a nav-buttons block comes through the substitution unchanged. */
  lemma NavUntouched(content: string, next: Option<NextTutorial>)
    requires forall q, i: nat, j: nat, k: nat :: 0 <= q < |content| ==> !NavGroups(content[q..], i, j, k)
    ensures Swapped(content, next) == content
  {
    var nav := NavLink(next);
    NavAdvancing(nav);
    forall q | 0 <= q < |content| ensures NavMatch(content[q..], nav).None? {
      NavMatchGroups(content[q..], nav);
    }
    SubUnchanged(content, NavHit(nav));
  }

  /** A nav-buttons block at the start of the page is rewritten. */
  lemma NavFound(t: string, nav: string, i: nat, j: nat, k: nat)
    requires NavGroups(t, i, j, k)
    ensures NavMatch(t, nav) == Some(Hit(NavLen(i, j, k), t[..NavStart(i)] + nav + t[NavEnd(i, j)..NavLen(i, j, k)]))
  {
    SpanComplete(t, NAV_DIV, START_OVER, CLOSE_A, CLOSE_DIV, i, j, k);
  }

  /** The next link points at the next tutorial's first page and names its title. */
  lemma NextNavNames(n: NextTutorial)
    ensures Contains(NextNav(n), NextHref(n.folder))
    ensures Contains(NextNav(n), "Next: " + n.title)
  {
    var href, next := NextHref(n.folder), "Next: " + n.title;
    assert NextNav(n) == NEXT_OPEN + href + (NEXT_MID + next + NEXT_TAIL);
    ContainsMiddle(NEXT_OPEN, href, NEXT_MID + next + NEXT_TAIL);
    assert NextNav(n) == NEXT_OPEN + href + NEXT_MID + next + NEXT_TAIL;
    ContainsMiddle(NEXT_OPEN + href + NEXT_MID, next, NEXT_TAIL);
  }

  /** With a next tutorial, only the nav-buttons blocks change: no `.btn-success` CSS is added. */
  lemma UpdateWithNext(content: string, n: NextTutorial)
    ensures UpdateAdvancedNav(content, Some(n)) == Swapped(content, Some(n))
    ensures NavLink(Some(n)) == NextNav(n)
  {
  }

  lemma CompletionNavHref()
    ensures Contains(COMPLETION_NAV, INDEX_HREF)
  {
    var head := "<a href=\"";
    assert COMPLETION_NAV == head + INDEX_HREF + COMPLETION_NAV[|head| + |INDEX_HREF|..];
    ContainsSelf(INDEX_HREF);
    ContainsRight(head, INDEX_HREF, INDEX_HREF);
    ContainsLeft(head + INDEX_HREF, COMPLETION_NAV[|head| + |INDEX_HREF|..], INDEX_HREF);
  }

  /**
   * On the last tutorial the nav block links back to the index, and the `.btn-success` CSS goes
   * in front of every `</style>` exactly when the class is not yet on the page.
   */
  lemma UpdateAtEnd(content: string)
    ensures Contains(Swapped(content, None), BTN_CLASS) ==> UpdateAdvancedNav(content, None) == Swapped(content, None)
    ensures !Contains(Swapped(content, None), BTN_CLASS) ==>
      Join(Split(Swapped(content, None), STYLE_CLOSE), STYLE_CLOSE) == Swapped(content, None)
      && UpdateAdvancedNav(content, None) == Join(Split(Swapped(content, None), STYLE_CLOSE), StyleWith(BTN_CSS))
    ensures !HitsNowhere(content, NavHit(COMPLETION_NAV)) ==> Contains(UpdateAdvancedNav(content, None), INDEX_HREF)
  {
    var swapped := Swapped(content, None);
    JoinSplit(swapped, STYLE_CLOSE);
    ReplaceAllIsJoin(swapped, STYLE_CLOSE, StyleWith(BTN_CSS));
    if !HitsNowhere(content, NavHit(COMPLETION_NAV)) {
      NavAdvancing(COMPLETION_NAV);
      var q := FirstHit(content, NavHit(COMPLETION_NAV)).value;
      SubShowsFirstHit(content, NavHit(COMPLETION_NAV));
      var t := content[q..];
      var h := NavMatch(t, COMPLETION_NAV).value;
      var (i, j, k) := GroupSpan(t, NAV_DIV, START_OVER, CLOSE_A, CLOSE_DIV).value;
      assert h.out == t[..NavStart(i)] + COMPLETION_NAV + t[NavEnd(i, j)..NavLen(i, j, k)];
      CompletionNavHref();
      ContainsRight(t[..NavStart(i)], COMPLETION_NAV, INDEX_HREF);
      ContainsLeft(t[..NavStart(i)] + COMPLETION_NAV, t[NavEnd(i, j)..NavLen(i, j, k)], INDEX_HREF);
      ContainsTrans(swapped, h.out, INDEX_HREF);
      if !Contains(swapped, BTN_CLASS) {
        StyleCssKeepsIndexHref(swapped, StyleWith(BTN_CSS));
      }
    }
  }

  // ---------------------------------------------------------------------------
  // Files and the run over them

  /** An HTML file under the tutorials directory: its parent folder, its name and its text. */
  datatype Page = Page(folder: string, name: string, content: string)

  /** The text `process_file` arrives at. */
  function NavPage(p: Page): string {
    var headed := AddHeaderNav(p.content);
    if p.name == "advanced.html" then UpdateAdvancedNav(headed, GetNextTutorial(p.folder)) else headed
  }

  /** Pages other than advanced.html only get the header navigation, and a second pass leaves them alone. */
  lemma NavPageScope(p: Page)
    requires p.name != "advanced.html"
    ensures NavPage(p) == AddHeaderNav(p.content)
    ensures NavPage(Page(p.folder, p.name, NavPage(p))) == NavPage(p)
  {
    AddHeaderNavIdempotent(p.content);
  }

  /** Whether `process_file` changes the page. */
  predicate Changed(p: Page) {
    NavPage(p) != p.content
  }

  /** What `process_file` writes for the page: the new text, unless nothing changed or it is a dry run. */
  function Written(p: Page, dryRun: bool): Option<string> {
    if Changed(p) && !dryRun then Some(NavPage(p)) else None
  }

  /** `process_file`: whether the page changed, and the text written (none in a dry run). */
  method ProcessFile(p: Page, dryRun: bool) returns (changed: bool, written: Option<string>)
    ensures changed == Changed(p)
    ensures written == Written(p, dryRun)
  {
    var content := AddHeaderNav(p.content);
    if p.name == "advanced.html" {
      var next := GetNextTutorial(p.folder);
      content := UpdateAdvancedNav(content, next);
    }
    if content == p.content {
      return false, None;
    }
    written := None;
    if !dryRun {
      written := Some(content);
    }
    changed := true;
  }

  /** The number of pages among `ps` that `process_file` changes. */
  function CountChanged(ps: seq<Page>): (n: nat)
    ensures n <= |ps|
  {
    if |ps| == 0 then 0 else CountChanged(ps[..|ps| - 1]) + (if Changed(ps[|ps| - 1]) then 1 else 0)
  }

  /** What `process_file` writes for each of `ps`, in order. */
  function WrittenAll(ps: seq<Page>, dryRun: bool): (r: seq<Option<string>>)
    ensures |r| == |ps|
  {
    if |ps| == 0 then [] else WrittenAll(ps[..|ps| - 1], dryRun) + [Written(ps[|ps| - 1], dryRun)]
  }

  /** Entry `k` of `WrittenAll` is what was written for page `k`: a dry run writes nothing. */
  lemma {:induction false} WrittenAllAt(ps: seq<Page>, dryRun: bool, k: nat)
    requires k < |ps|
    ensures WrittenAll(ps, dryRun)[k] == Written(ps[k], dryRun)
    ensures dryRun ==> WrittenAll(ps, dryRun)[k] == None
    decreases |ps|
  {
    if k < |ps| - 1 {
      WrittenAllAt(ps[..|ps| - 1], dryRun, k);
    }
  }

  /** `main`: the modified and skipped counters, and what was written for each page. */
  method RunNavigation(pages: seq<Page>, dryRun: bool) returns (modified: nat, skipped: nat, written: seq<Option<string>>)
    ensures modified == CountChanged(pages) && modified + skipped == |pages|
    ensures written == WrittenAll(pages, dryRun)
  {
    modified, skipped, written := 0, 0, [];
    for i := 0 to |pages|
      invariant modified == CountChanged(pages[..i]) && modified + skipped == i
      invariant written == WrittenAll(pages[..i], dryRun)
    {
      var changed, w := ProcessFile(pages[i], dryRun);
      assert pages[..i + 1][..i] == pages[..i];
      if changed {
        modified := modified + 1;
      } else {
        skipped := skipped + 1;
      }
      written := written + [w];
    }
    assert pages[..|pages|] == pages;
  }
}
