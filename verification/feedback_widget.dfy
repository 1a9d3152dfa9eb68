/**
 * The feedback-widget build step: every tutorial page (and the landing page) gets a
 * `<script>` tag for `feedback.js` just before each closing `</body>`, unless the page
 * already mentions `feedback.js` or has no `</body>` at all.
 */
module FeedbackWidget {
  import opened Wrappers
  import opened Text
  import opened Rewrite

  /** The tag for pages two folders below the site root. */
  const SCRIPT_TAG_TUTORIAL: string := "<script src=\"../../js/feedback.js\"></script>"
  /** The tag for the landing page at the site root. */
  const SCRIPT_TAG_INDEX: string := "<script src=\"js/feedback.js\"></script>"
  /** A page mentioning this is taken to have the widget already. */
  const MARKER: string := "feedback.js"
  const BODY_CLOSE: string := "</body>"

  /** The text that replaces each `</body>`. */
  function Insertion(tag: string): string {
    "\n  " + tag + "\n" + BODY_CLOSE
  }

  /** The page with every `</body>` replaced by the insertion (`str.replace`). */
  function Inserted(content: string, tag: string): string {
    ReplaceAll(content, BODY_CLOSE, Insertion(tag))
  }

  /** What `add_feedback_to_file` writes: nothing for a skipped page, else the rewritten page. */
  function AddFeedback(content: string, tag: string): Option<string> {
    if Contains(content, MARKER) then None
    else if !Contains(content, BODY_CLOSE) then None
    else Some(Inserted(content, tag))
  }

  /**
   * `add_feedback_to_file`: skips a page that already mentions `feedback.js` and a page
   * without `</body>`; otherwise writes the rewritten page. It reports true exactly when
   * it wrote.
   */
  method AddFeedbackToFile(content: string, tag: string) returns (added: bool, written: Option<string>)
    ensures added <==> written.Some?
    ensures added <==> !Contains(content, MARKER) && Contains(content, BODY_CLOSE)
    ensures written == AddFeedback(content, tag)
  {
    if Contains(content, MARKER) {
      return false, None;
    }
    if !Contains(content, BODY_CLOSE) {
      return false, None;
    }
    var newContent := ReplaceAll(content, BODY_CLOSE, Insertion(tag));
    return true, Some(newContent);
  }

  /** The tutorial tag names `feedback.js`. */
  lemma TutorialTagMarked()
    ensures Contains(SCRIPT_TAG_TUTORIAL, MARKER)
  {
    assert SCRIPT_TAG_TUTORIAL == "<script src=\"../../js/" + MARKER + "\"></script>";
    ContainsMiddle("<script src=\"../../js/", MARKER, "\"></script>");
  }

  /** The landing-page tag names `feedback.js`. */
  lemma IndexTagMarked()
    ensures Contains(SCRIPT_TAG_INDEX, MARKER)
  {
    assert SCRIPT_TAG_INDEX == "<script src=\"js/" + MARKER + "\"></script>";
    ContainsMiddle("<script src=\"js/", MARKER, "\"></script>");
  }

  /** Neither tag holds the letter `y` of `</body>`. */
  lemma TagsWithoutY()
    ensures 'y' !in SCRIPT_TAG_TUTORIAL && 'y' !in SCRIPT_TAG_INDEX
  {
  }

  /**
   * The rewrite cuts the page at every `</body>` and joins the pieces with the insertion;
   * joining the same pieces with `</body>` gives the page back.
   */
  lemma InsertedPieces(content: string, tag: string)
    ensures Inserted(content, tag) == Join(Split(content, BODY_CLOSE), Insertion(tag))
    ensures Join(Split(content, BODY_CLOSE), BODY_CLOSE) == content
  {
    ReplaceAllIsJoin(content, BODY_CLOSE, Insertion(tag));
    JoinSplit(content, BODY_CLOSE);
  }

  /**
   * The insertion is `pre + </body>` where `pre` starts with a newline (absent from
   * `</body>`) and, for a tag without `y`, lacks the `y` of `</body>`, which occurs only once there.
   */
  lemma InsertionShape(tag: string)
    requires 'y' !in tag
    ensures var pre := "\n  " + tag + "\n";
      && Insertion(tag) == pre + BODY_CLOSE
      && |pre| > 0 && pre[0] !in BODY_CLOSE && BODY_CLOSE[5] !in pre && BODY_CLOSE[5] !in BODY_CLOSE[..5]
  {
    assert BODY_CLOSE[5] == 'y' && BODY_CLOSE[..5] == "</bod";
  }

  /**
   * Removing the insertions gives the original page back: replacing every insertion in
   * the rewritten page by `</body>` restores it, for either script tag.
   */
  lemma InsertionsRemoved(content: string, tag: string)
    requires 'y' !in tag
    ensures ReplaceAll(Inserted(content, tag), Insertion(tag), BODY_CLOSE) == content
  {
    var ps := Split(content, BODY_CLOSE);
    forall k | 0 <= k < |ps|
      ensures !Contains(ps[k], BODY_CLOSE)
    {
      SplitPieceFree(content, BODY_CLOSE, k);
    }
    InsertedPieces(content, tag);
    InsertionShape(tag);
    SplitJoinBack(ps, "\n  " + tag + "\n", BODY_CLOSE, 5);
    ReplaceAllIsJoin(Inserted(content, tag), Insertion(tag), BODY_CLOSE);
  }

  /** A rewritten page mentions `feedback.js`, so rewriting it again is skipped. */
  lemma AddFeedbackIdempotent(content: string, tag: string)
    requires Contains(tag, MARKER) && AddFeedback(content, tag).Some?
    ensures Contains(AddFeedback(content, tag).value, tag)
    ensures AddFeedback(AddFeedback(content, tag).value, tag) == None
  {
    var ins := Insertion(tag);
    ReplaceAllPresent(content, BODY_CLOSE, ins);
    assert ins == "\n  " + tag + ("\n" + BODY_CLOSE);
    ContainsMiddle("\n  ", tag, "\n" + BODY_CLOSE);
    ContainsTrans(Inserted(content, tag), ins, tag);
    ContainsTrans(Inserted(content, tag), tag, MARKER);
  }

  /** One entry of the tutorials folder, with its `*.html` pages in sorted order. */
  datatype Page = Page(name: string, content: string)
  datatype Entry = Entry(name: string, isDir: bool, pages: seq<Page>)

  const TUTORIAL_PREFIXES: seq<string> := ["01", "02", "03", "04", "05"]

  /** `name.startswith(prefixes)` with a tuple of prefixes. */
  predicate StartsWithAny(name: string, prefixes: seq<string>) {
    exists k :: 0 <= k < |prefixes| && IsPrefix(prefixes[k], name)
  }

  /** The entries whose pages are processed: directories named for tutorials 01 to 05. */
  predicate IsTutorialDir(e: Entry) {
    e.isDir && StartsWithAny(e.name, TUTORIAL_PREFIXES)
  }

  /** A processed entry is a directory whose name starts with `0` and then a digit 1 to 5. */
  lemma TutorialDirNumbered(e: Entry)
    ensures IsTutorialDir(e) <==> e.isDir && |e.name| >= 2 && e.name[0] == '0' && '1' <= e.name[1] <= '5'
  {
    if e.isDir && |e.name| >= 2 && e.name[0] == '0' && '1' <= e.name[1] <= '5' {
      var k := e.name[1] as int - '1' as int;
      assert TUTORIAL_PREFIXES[k] == e.name[..2];
      assert IsPrefix(TUTORIAL_PREFIXES[k], e.name);
    }
  }

  /** The pages processed, in order: those of the tutorial directories among `es`. */
  function Selected(es: seq<Entry>): seq<Page> {
    if |es| == 0 then []
    else Selected(es[..|es| - 1]) + (if IsTutorialDir(es[|es| - 1]) then es[|es| - 1].pages else [])
  }

  /** Every processed page belongs to a tutorial directory. */
  lemma {:induction false} SelectedOnlyTutorials(es: seq<Entry>, p: Page)
    requires p in Selected(es)
    ensures exists e :: e in es && IsTutorialDir(e) && p in e.pages
  {
    var last := es[|es| - 1];
    var init := es[..|es| - 1];
    if p in Selected(init) {
      SelectedOnlyTutorials(init, p);
      var e :| e in init && IsTutorialDir(e) && p in e.pages;
      assert e in es;
    } else {
      assert last in es;
    }
  }

  /** What the run writes for each of `ps`, in order. */
  function Written(ps: seq<Page>, tag: string): (r: seq<Option<string>>)
    ensures |r| == |ps|
  {
    if |ps| == 0 then [] else Written(ps[..|ps| - 1], tag) + [AddFeedback(ps[|ps| - 1].content, tag)]
  }

  /** Entry `k` of `Written` is what the page `k` gets. */
  lemma {:induction false} WrittenAt(ps: seq<Page>, tag: string, k: nat)
    requires k < |ps|
    ensures Written(ps, tag)[k] == AddFeedback(ps[k].content, tag)
    decreases |ps|
  {
    if k < |ps| - 1 {
      WrittenAt(ps[..|ps| - 1], tag, k);
    }
  }

  /** The number of pages actually written. */
  function Somes(ws: seq<Option<string>>): (n: nat)
    ensures n <= |ws|
  {
    if |ws| == 0 then 0 else Somes(ws[..|ws| - 1]) + (if ws[|ws| - 1].Some? then 1 else 0)
  }

  /** `Written` goes page by page. */
  lemma {:induction false} WrittenAppend(a: seq<Page>, b: seq<Page>, tag: string)
    ensures Written(a + b, tag) == Written(a, tag) + Written(b, tag)
    decreases |b|
  {
    if |b| > 0 {
      var b0 := b[..|b| - 1];
      assert (a + b)[..|a + b| - 1] == a + b0;
      WrittenAppend(a, b0, tag);
    } else {
      assert a + b == a;
    }
  }

  /** `Somes` counts piece by piece. */
  lemma {:induction false} SomesAppend(a: seq<Option<string>>, b: seq<Option<string>>)
    ensures Somes(a + b) == Somes(a) + Somes(b)
    decreases |b|
  {
    if |b| > 0 {
      var b0 := b[..|b| - 1];
      assert (a + b)[..|a + b| - 1] == a + b0;
      SomesAppend(a, b0);
    } else {
      assert a + b == a;
    }
  }

  /** The inner loop of `main`: every page of one tutorial directory, in order. */
  method AddFeedbackToPages(ps: seq<Page>, tag: string) returns (count: nat, written: seq<Option<string>>)
    ensures written == Written(ps, tag)
    ensures count == Somes(written)
  {
    count, written := 0, [];
    var j := 0;
    while j < |ps|
      invariant j <= |ps|
      invariant written == Written(ps[..j], tag)
      invariant count == Somes(written)
    {
      var added, w := AddFeedbackToFile(ps[j].content, tag);
      if added {
        count := count + 1;
      }
      assert ps[..j + 1][..j] == ps[..j];
      assert (written + [w])[..|written|] == written;
      written := written + [w];
      j := j + 1;
    }
    assert ps[..j] == ps;
  }

  /**
   * `main`: the pages of the tutorial directories among `entries` (sorted), then the
   * landing page; `modifiedCount` counts exactly the pages written.
   */
  method AddFeedbackToSite(entries: seq<Entry>, index: string) returns (modifiedCount: nat, written: seq<Option<string>>, indexWritten: Option<string>)
    ensures written == Written(Selected(entries), SCRIPT_TAG_TUTORIAL)
    ensures indexWritten == AddFeedback(index, SCRIPT_TAG_INDEX)
    ensures modifiedCount == Somes(written) + (if indexWritten.Some? then 1 else 0)
  {
    modifiedCount, written := 0, [];
    var i := 0;
    while i < |entries|
      invariant i <= |entries|
      invariant written == Written(Selected(entries[..i]), SCRIPT_TAG_TUTORIAL)
      invariant modifiedCount == Somes(written)
    {
      var e := entries[i];
      assert entries[..i + 1][..i] == entries[..i];
      if e.isDir && StartsWithAny(e.name, TUTORIAL_PREFIXES) {
        var count, w := AddFeedbackToPages(e.pages, SCRIPT_TAG_TUTORIAL);
        assert Selected(entries[..i + 1]) == Selected(entries[..i]) + e.pages;
        WrittenAppend(Selected(entries[..i]), e.pages, SCRIPT_TAG_TUTORIAL);
        SomesAppend(written, w);
        modifiedCount := modifiedCount + count;
        written := written + w;
      } else {
        assert Selected(entries[..i + 1]) == Selected(entries[..i]) + [];
        assert Selected(entries[..i]) + [] == Selected(entries[..i]);
      }
      i := i + 1;
    }
    assert entries[..|entries|] == entries;
    var added, w := AddFeedbackToFile(index, SCRIPT_TAG_INDEX);
    indexWritten := w;
    if added {
      modifiedCount := modifiedCount + 1;
    }
  }
}
