/**
 * The page-path parser and the GitHub issue links of the feedback widget
 * (prototype/js/feedback.js). The browser supplies `location.pathname` and
 * `location.href`; here they are parameters. `encodeURIComponent` is a
 * parameter too: any function that never produces `&` and has a left inverse.
 */
module FeedbackLinks {
  import opened Wrappers
  import opened Text

  /** What `getPageInfo` returns. */
  datatype PageInfo = PageInfo(tutorial: string, page: string, fullPath: string)

  /** `ps.filter(p => p)`: the non-empty strings of `ps`, in order. */
  function NonEmpty(ps: seq<string>): seq<string>
  {
    if |ps| == 0 then []
    else if ps[|ps| - 1] == "" then NonEmpty(ps[..|ps| - 1])
    else NonEmpty(ps[..|ps| - 1]) + [ps[|ps| - 1]]
  }

  /** The filter keeps exactly the non-empty strings. */
  lemma {:induction false} NonEmptySpec(ps: seq<string>)
    ensures forall s :: s in NonEmpty(ps) <==> s in ps && s != ""
  {
    if |ps| > 0 {
      NonEmptySpec(ps[..|ps| - 1]);
      assert ps == ps[..|ps| - 1] + [ps[|ps| - 1]];
    }
  }

  /** The filter keeps the order: filtering a concatenation filters each part. */
  lemma {:induction false} NonEmptyAppend(a: seq<string>, b: seq<string>)
    ensures NonEmpty(a + b) == NonEmpty(a) + NonEmpty(b)
    decreases |b|
  {
    if |b| == 0 {
      assert a + b == a;
    } else {
      var b' := b[..|b| - 1];
      assert (a + b)[..|a + b| - 1] == a + b';
      NonEmptyAppend(a, b');
    }
  }

  /** `path.split('/').filter(p => p)` */
  function Segments(path: string): seq<string>
  {
    NonEmpty(Split(path, "/"))
  }

  /** Every segment is a non-empty piece of the path between two slashes. */
  lemma SegmentsSpec(path: string)
    ensures forall s :: s in Segments(path) ==> s != "" && s in Split(path, "/") && !Contains(s, "/")
  {
    var ps := Split(path, "/");
    NonEmptySpec(ps);
    forall k | 0 <= k < |ps|
      ensures !Contains(ps[k], "/")
    {
      SplitPieceFree(path, "/", k);
    }
  }

  /** `/\d/` without the `u` flag: an ASCII digit. */
  predicate IsDigit(c: char) {
    '0' <= c <= '9'
  }

  /** `seg.match(/^\d{2}-/)`: two digits and a hyphen open the segment. */
  predicate IsTutorialFolder(seg: string) {
    |seg| >= 3 && IsDigit(seg[0]) && IsDigit(seg[1]) && seg[2] == '-'
  }

  /** The first index at or after `i` holding a tutorial folder. */
  function FirstFolderFrom(parts: seq<string>, i: nat): (r: Option<nat>)
    requires i <= |parts|
    ensures r.Some? ==> i <= r.value < |parts|
    decreases |parts| - i
  {
    if i == |parts| then None
    else if IsTutorialFolder(parts[i]) then Some(i)
    else FirstFolderFrom(parts, i + 1)
  }

  /** `FirstFolderFrom` finds a folder, and none lies between `i` and it (or the end). */
  lemma {:induction false} FirstFolderFromSpec(parts: seq<string>, i: nat)
    requires i <= |parts|
    ensures FirstFolderFrom(parts, i).Some? ==>
      var f := FirstFolderFrom(parts, i).value;
      i <= f < |parts| && IsTutorialFolder(parts[f])
      && forall j {:trigger IsTutorialFolder(parts[j])} :: i <= j < f ==> !IsTutorialFolder(parts[j])
    ensures FirstFolderFrom(parts, i).None? ==>
      forall j {:trigger IsTutorialFolder(parts[j])} :: i <= j < |parts| ==> !IsTutorialFolder(parts[j])
    decreases |parts| - i
  {
    if i < |parts| && !IsTutorialFolder(parts[i]) {
      FirstFolderFromSpec(parts, i + 1);
    }
  }

  /** The friendly names of the five tutorial folders. */
  const TUTORIAL_NAMES: map<string, string> := map[
    "01-gaussian" := "Tutorial 1: Gaussian",
    "02-logistic" := "Tutorial 2: Binomial",
    "03-poisson" := "Tutorial 3: Poisson",
    "04-negbin" := "Tutorial 4: Negative Binomial",
    "05-gamma" := "Tutorial 5: Gamma"
  ]

  /** `tutorialNames[tutorial] || tutorial`: a missing (or empty) name falls back to the folder. */
  function FriendlyName(folder: string): string
  {
    if folder in TUTORIAL_NAMES && TUTORIAL_NAMES[folder] != "" then TUTORIAL_NAMES[folder] else folder
  }

  /** A known folder gets its friendly name, and any other text is returned as it is. */
  lemma FriendlyNameSpec(folder: string)
    ensures folder in TUTORIAL_NAMES ==> FriendlyName(folder) == TUTORIAL_NAMES[folder] && FriendlyName(folder)[..9] == "Tutorial "
    ensures folder !in TUTORIAL_NAMES ==> FriendlyName(folder) == folder
  {
  }

  /**
   * Different tutorial folders (or the default `'Index'`) never share a
   * displayed name, so the tutorial shown in a report identifies its folder.
   */
  lemma {:induction false} FriendlyNameInjective(f: string, g: string)
    requires IsTutorialFolder(f) || f == "Index"
    requires IsTutorialFolder(g) || g == "Index"
    requires FriendlyName(f) == FriendlyName(g)
    ensures f == g
  {
    FriendlyNameSpec(f);
    FriendlyNameSpec(g);
    if f in TUTORIAL_NAMES && g in TUTORIAL_NAMES {
      var ks := ["01-gaussian", "02-logistic", "03-poisson", "04-negbin", "05-gamma"];
      assert f in ks && g in ks;
      assert FriendlyName(f)[9] == f[1] && FriendlyName(g)[9] == g[1];
    }
  }

  /** The page after the folder at index `i`: the next segment without its first `.html`, else `'index'`. */
  function PageAfter(parts: seq<string>, i: nat): string
    requires i < |parts|
  {
    if i + 1 < |parts| && parts[i + 1] != "" then ReplaceFirst(parts[i + 1], ".html", "") else "index"
  }

  /** The page information `getPageInfo` derives from a path. */
  function PageInfoFor(path: string): PageInfo
  {
    var parts := Segments(path);
    match FirstFolderFrom(parts, 0)
    case None => PageInfo(FriendlyName("Index"), "index", path)
    case Some(i) => PageInfo(FriendlyName(parts[i]), PageAfter(parts, i), path)
  }

  /** `getPageInfo()`: scans the segments and stops at the first tutorial folder. */
  method GetPageInfo(path: string) returns (info: PageInfo)
    ensures info == PageInfoFor(path)
  {
    var parts := Segments(path);
    var tutorial := "Index";
    var page := "index";
    var i := 0;
    while i < |parts|
      invariant i <= |parts|
      invariant FirstFolderFrom(parts, i) == FirstFolderFrom(parts, 0)
      invariant tutorial == "Index" && page == "index"
    {
      if IsTutorialFolder(parts[i]) {
        tutorial := parts[i];
        if i + 1 < |parts| && parts[i + 1] != "" {
          page := ReplaceFirst(parts[i + 1], ".html", "");
        }
        break;
      }
      i := i + 1;
    }
    var friendly := FriendlyName(tutorial);
    info := PageInfo(friendly, page, path);
  }

  /** Without a tutorial folder among the segments, the defaults `'Index'` and `'index'` stay. */
  lemma NoFolderDefaults(path: string)
    requires forall s :: s in Segments(path) ==> !IsTutorialFolder(s)
    ensures PageInfoFor(path) == PageInfo("Index", "index", path)
  {
    var parts := Segments(path);
    FirstFolderFromSpec(parts, 0);
    FriendlyNameSpec("Index");
  }

  /**
   * The first tutorial folder decides: its friendly name is the tutorial, and
   * the page comes from the segment after it, whatever folders follow.
   */
  lemma FirstFolderUsed(path: string, i: nat)
    requires i < |Segments(path)| && IsTutorialFolder(Segments(path)[i])
    requires forall j :: 0 <= j < i ==> !IsTutorialFolder(Segments(path)[j])
    ensures PageInfoFor(path).tutorial == FriendlyName(Segments(path)[i])
    ensures i + 1 < |Segments(path)| ==> PageInfoFor(path).page == ReplaceFirst(Segments(path)[i + 1], ".html", "")
    ensures i + 1 == |Segments(path)| ==> PageInfoFor(path).page == "index"
  {
    var parts := Segments(path);
    FirstFolderFromSpec(parts, 0);
    SegmentsSpec(path);
    if i + 1 < |parts| {
      assert parts[i + 1] in parts;
    }
  }

  /** The issue form every link opens. */
  const ISSUES_NEW := "https://github.com/JonMinton/glm-dashboard-explainer/issues/new"
  const BUG_TEMPLATE := "bug_report.md"
  const FEATURE_TEMPLATE := "feature_request.md"

  /** An issue link: the base, the template, then the encoded title and body as query parameters. */
  function IssueLink(template: string, title: string, body: string, encode: string -> string): string
  {
    ISSUES_NEW + "?template=" + template + "&title=" + encode(title) + "&body=" + encode(body)
  }

  /** Reads the encoded title and body back out of a link for `template`; `None` when it is not one. */
  function ReadLink(url: string, template: string): Option<(string, string)>
  {
    var head := ISSUES_NEW + "?template=" + template + "&title=";
    if !IsPrefix(head, url) then None
    else
      var rest := url[|head|..];
      match Find(rest, "&")
      case None => None
      case Some(i) => if IsPrefix("&body=", rest[i..]) then Some((rest[..i], rest[i + 6..])) else None
  }

  /** With an encoder that escapes `&`, the title and body of a link can be read back. */
  lemma LinkRoundTrip(template: string, title: string, body: string, encode: string -> string)
    requires '&' !in encode(title)
    ensures IsPrefix(ISSUES_NEW + "?template=" + template + "&title=", IssueLink(template, title, body, encode))
    ensures ReadLink(IssueLink(template, title, body, encode), template) == Some((encode(title), encode(body)))
  {
    var head := ISSUES_NEW + "?template=" + template + "&title=";
    var et, eb := encode(title), encode(body);
    var url := IssueLink(template, title, body, encode);
    assert url == head + (et + "&body=" + eb);
    assert url[..|head|] == head;
    var rest := url[|head|..];
    assert rest == et + "&body=" + eb;
    assert rest[|et|..] == "&body=" + eb;
    assert rest[|et|..][..1] == "&";
    forall j | 0 <= j < |et|
      ensures !IsPrefix("&", rest[j..])
    {
      assert rest[j..][0] == et[j];
    }
    assert FirstAt(rest, "&", |et|);
    FirstAtFind(rest, "&", |et|);
    assert rest[..|et|] == et;
    assert rest[|et| + 6..] == eb;
  }

  /** `` `[Bug] ${info.tutorial} - ${info.page}` `` */
  function BugTitle(info: PageInfo): string
  {
    "[Bug] " + info.tutorial + " - " + info.page
  }

  /** The pre-filled body of a bug report. */
  function BugBody(info: PageInfo, href: string): string
  {
    "## Page/Tutorial\n" + info.tutorial + " > " + info.page + "\n"
    + "URL: " + href + "\n\n"
    + "## What happened?\n\n\n"
    + "## What did you expect to happen?\n\n\n"
    + "## Steps to reproduce\n1. \n2. \n3. \n"
  }

  /** `getBugReportUrl()` for the page at `path`, whose full address is `href`. */
  function BugReportUrl(path: string, href: string, encode: string -> string): string
  {
    var info := PageInfoFor(path);
    IssueLink(BUG_TEMPLATE, BugTitle(info), BugBody(info, href), encode)
  }

  const FEATURE_TITLE := "[Feature] "

  /** The pre-filled body of a feature request. */
  function FeatureBody(info: PageInfo): string
  {
    "## Context\nSuggestion from: " + info.tutorial + " > " + info.page + "\n\n"
    + "## Summary\n\n\n"
    + "## Problem or motivation\n\n\n"
    + "## Suggested solution\n\n"
  }

  /** `getFeatureRequestUrl()` for the page at `path`. */
  function FeatureRequestUrl(path: string, encode: string -> string): string
  {
    var info := PageInfoFor(path);
    IssueLink(FEATURE_TEMPLATE, FEATURE_TITLE, FeatureBody(info), encode)
  }

  /**
   * A bug link opens the bug-report template, and decoding its title gives
   * `[Bug] <tutorial> - <page>` for the page the link was made on.
   */
  lemma BugLinkReads(path: string, href: string, encode: string -> string, decode: string -> string)
    requires forall x :: '&' !in encode(x)
    requires forall x :: decode(encode(x)) == x
    ensures IsPrefix(ISSUES_NEW + "?template=" + BUG_TEMPLATE + "&title=", BugReportUrl(path, href, encode))
    ensures var r := ReadLink(BugReportUrl(path, href, encode), BUG_TEMPLATE);
      var info := PageInfoFor(path);
      r.Some? && decode(r.value.0) == "[Bug] " + info.tutorial + " - " + info.page
      && decode(r.value.1) == BugBody(info, href)
  {
    var info := PageInfoFor(path);
    LinkRoundTrip(BUG_TEMPLATE, BugTitle(info), BugBody(info, href), encode);
  }

  /** A feature link opens the feature-request template and its title decodes to `[Feature] `. */
  lemma FeatureLinkReads(path: string, encode: string -> string, decode: string -> string)
    requires forall x :: '&' !in encode(x)
    requires forall x :: decode(encode(x)) == x
    ensures IsPrefix(ISSUES_NEW + "?template=" + FEATURE_TEMPLATE + "&title=", FeatureRequestUrl(path, encode))
    ensures var r := ReadLink(FeatureRequestUrl(path, encode), FEATURE_TEMPLATE);
      r.Some? && decode(r.value.0) == "[Feature] " && decode(r.value.1) == FeatureBody(PageInfoFor(path))
  {
    var info := PageInfoFor(path);
    LinkRoundTrip(FEATURE_TEMPLATE, FEATURE_TITLE, FeatureBody(info), encode);
  }

  /** A bug link is never read as a feature request, nor the other way round. */
  lemma TemplatesDistinct(path: string, href: string, encode: string -> string)
    ensures ReadLink(BugReportUrl(path, href, encode), FEATURE_TEMPLATE).None?
    ensures ReadLink(FeatureRequestUrl(path, encode), BUG_TEMPLATE).None?
  {
    var k := |ISSUES_NEW + "?template="|;
    var bug := BugReportUrl(path, href, encode);
    var feature := FeatureRequestUrl(path, encode);
    assert bug[k] == 'b';
    assert feature[k] == 'f';
    assert (ISSUES_NEW + "?template=" + FEATURE_TEMPLATE + "&title=")[k] == 'f';
    assert (ISSUES_NEW + "?template=" + BUG_TEMPLATE + "&title=")[k] == 'b';
  }
}
