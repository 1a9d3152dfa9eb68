/**
 * The mobile tap-to-select build step for the `systematic.html` pages: a page not yet
 * carrying the selected-card style gets, in three guarded stages, the mobile style rules
 * after each dimmed-card rule, the `variable-picker.js` script before the main script, and
 * a `setupDropZones` that hands the cards and zones to `initVariablePicker`.
 */
module MobilePicker {
  import opened Wrappers
  import opened Text
  import opened Rewrite

  /** A page holding this is taken to have mobile support already. */
  const SELECTED: string := ".variable-card.selected"

  // The style rules inserted after each dimmed-card rule, in four pieces.
  const CSS_SELECTED_HEAD: string :=
    "\n    /* Mobile: Selected state for tap-to-select */\n    "
  const CSS_SELECTED_TAIL: string :=
    " {\n      border-color: #9b59b6;\n      background: #f5eef8;\n      box-shadow: 0 0 0 3px rgba(155, 89, 182, 0.3);\n    }\n"
  const CSS_HINT: string :=
    "\n    /* Mobile hint toast */\n    .mobile-picker-hint {\n      position: fixed;\n      bottom: 20px;\n      left: 50%;\n      transform: translateX(-50%) translateY(100px);\n      background: #2c3e50;\n      color: white;\n      padding: 12px 24px;\n      border-radius: 8px;\n      font-size: 0.9em;\n      z-index: 1000;\n      opacity: 0;\n      transition: all 0.3s ease;\n      pointer-events: none;\n    }\n\n    .mobile-picker-hint.show {\n      transform: translateX(-50%) translateY(0);\n      opacity: 1;\n    }\n"
  const CSS_TOUCH: string :=
    "\n    /* Touch device: change cursor and add tap hint */\n    .touch-device .variable-card:not(.dimmed) {\n      cursor: pointer;\n    }\n\n    .touch-device .variable-card .target-badge {\n      content: 'Tap me!';\n    }\n\n    .touch-device .target-badge::after {\n      content: ' (tap)';\n    }\n"

  const MOBILE_CSS: string := CSS_SELECTED_HEAD + SELECTED + CSS_SELECTED_TAIL + CSS_HINT + CSS_TOUCH

  // The `setupDropZones` that replaces the page's own, in three pieces.
  const SETUP_INIT: string :=
    "    function setupDropZones() {\n      // Initialize the variable picker with mobile support\n      initVariablePicker({\n        variablePool: variablePool,\n        predictorZone: predictorZone,\n        responseZone: responseZone,\n\n"
  const SETUP_VALIDATE: string :=
    "        // Validate if this drop is allowed for the current step\n        validateDrop: function(varName, zoneType) {\n          const step = steps[currentStep];\n          const expectedZone = step.target?.zone;\n          const expectedVar = step.target?.variable;\n\n          return varName === expectedVar && zoneType === expectedZone;\n        },\n\n"
  const SETUP_ON_DROP: string :=
    "        // Handle successful drop\n        onDrop: function(varName, zoneType) {\n          if (zoneType === 'predictor') {\n            selectedPredictors.push(varName);\n          } else {\n            selectedResponse = varName;\n          }\n\n          renderAssigned();\n\n          // Advance step after short delay\n          setTimeout(() => {\n            currentStep++;\n            updateStep();\n          }, 400);\n        }\n      });\n    }"

  const NEW_SETUP_DROP_ZONES: string := SETUP_INIT + SETUP_VALIDATE + SETUP_ON_DROP

  /** The inserted style rules carry the selected-card marker. */
  lemma MobileCssMarked()
    ensures Contains(INSERTS.css, SELECTED)
  {
    ContainsMiddle(CSS_SELECTED_HEAD, SELECTED, CSS_SELECTED_TAIL + CSS_HINT + CSS_TOUCH);
    assert MOBILE_CSS == CSS_SELECTED_HEAD + SELECTED + (CSS_SELECTED_TAIL + CSS_HINT + CSS_TOUCH);
  }

  // ----- `[^}]`: the first closing brace -----

  /** The first index at or after `q` holding `}`. */
  function BraceFrom(t: string, q: nat): (r: Option<nat>)
    ensures r.Some? ==> q <= r.value < |t| && t[r.value] == '}'
    decreases |t| - q
  {
    if q >= |t| then None
    else if t[q] == '}' then Some(q)
    else BraceFrom(t, q + 1)
  }

  /** `BraceFrom` skips only characters other than `}`. */
  lemma {:induction false} BraceFromSpec(t: string, q: nat)
    ensures BraceFrom(t, q).Some? ==> forall k {:trigger t[k]} :: q <= k < BraceFrom(t, q).value ==> t[k] != '}'
    ensures BraceFrom(t, q).None? ==> forall k {:trigger t[k]} :: q <= k < |t| ==> t[k] != '}'
    decreases |t| - q
  {
    if q < |t| && t[q] != '}' {
      BraceFromSpec(t, q + 1);
    }
  }

  // ----- Stage 1: `(\.variable-card\.dimmed \{[^}]+\})` -----

  const DIMMED_OPEN: string := ".variable-card.dimmed {"

  /** A whole dimmed-card rule: the selector, one or more characters other than `}`, then `}`. */
  predicate IsDimmedRule(b: string) {
    && |DIMMED_OPEN| + 1 < |b|
    && IsPrefix(DIMMED_OPEN, b)
    && b[|b| - 1] == '}'
    && forall k {:trigger b[k]} :: |DIMMED_OPEN| <= k < |b| - 1 ==> b[k] != '}'
  }

  /** The pattern at the start of `t`, replaced by the rule, a newline and the style text `css`. */
  function DimmedMatch(t: string, css: string): (r: Option<Hit>)
    ensures r.Some? ==> 0 < r.value.len <= |t| && r.value.out == t[..r.value.len] + "\n" + css
  {
    if !IsPrefix(DIMMED_OPEN, t) then None
    else match BraceFrom(t, |DIMMED_OPEN|)
      case None => None
      case Some(c) => if c == |DIMMED_OPEN| then None else Some(Hit(c + 1, t[..c + 1] + "\n" + css))
  }

  function DimmedHit(css: string): Matcher {
    t => DimmedMatch(t, css)
  }

  lemma DimmedAdvancing(css: string)
    ensures Advancing(DimmedHit(css))
  {
  }

  /** What the pattern matches is a whole dimmed-card rule. */
  lemma DimmedSound(t: string, css: string)
    requires DimmedMatch(t, css).Some?
    ensures IsDimmedRule(t[..DimmedMatch(t, css).value.len])
  {
    var o := |DIMMED_OPEN|;
    var c := BraceFrom(t, o).value;
    BraceFromSpec(t, o);
    var b := t[..c + 1];
    assert b[..o] == t[..o];
    forall k | o <= k < |b| - 1
      ensures b[k] != '}'
    {
      assert b[k] == t[k];
    }
  }

  /** A dimmed-card rule at the start of `t` is exactly what the pattern matches there. */
  lemma DimmedComplete(t: string, css: string, e: nat)
    requires e <= |t| && IsDimmedRule(t[..e])
    ensures DimmedMatch(t, css) == Some(Hit(e, t[..e] + "\n" + css))
  {
    var o := |DIMMED_OPEN|;
    var b := t[..e];
    assert t[..o] == b[..o];
    BraceFromSpec(t, o);
    forall k | o <= k < e - 1
      ensures t[k] != '}'
    {
      assert t[k] == b[k];
    }
    assert t[e - 1] == b[e - 1];
  }

  /**
   * In the first stage every replaced piece is a whole dimmed-card rule, and it is
   * replaced by itself followed by a newline and the style text.
   */
  lemma DimmedStageEach(s: string, css: string)
    ensures var steps := Steps(s, DimmedHit(css));
      forall k :: 0 <= k < |steps| && steps[k].Swap? ==>
        IsDimmedRule(steps[k].matched) && steps[k].out == steps[k].matched + "\n" + css
  {
    DimmedAdvancing(css);
    var steps := Steps(s, DimmedHit(css));
    StepsGenuine(s, DimmedHit(css));
    forall k | 0 <= k < |steps| && steps[k].Swap?
      ensures IsDimmedRule(steps[k].matched) && steps[k].out == steps[k].matched + "\n" + css
    {
      var w := steps[k];
      assert Genuine(w, DimmedHit(css));
      var t :| IsPrefix(w.matched, t) && DimmedHit(css)(t) == Some(Hit(|w.matched|, w.out));
      DimmedSound(t, css);
      assert t[..|w.matched|] == w.matched;
    }
  }

  // ----- Stage 2: the `variable-picker.js` script before the main script -----

  const PICKER_JS: string := "variable-picker.js"
  /** The literal pattern `(\n  <script>\n    // )`: the page's main inline script. */
  const SCRIPT_OPEN: string := "\n  <script>\n    // "
  /** The lines put in front of the main script. */
  const PICKER_LINES: string :=
    "\n  <!-- Load variable picker before main script -->\n  <script src=\"../../js/" + PICKER_JS + "\"></script>\n"

  predicate ScriptApplies(c: string) {
    Contains(c, SCRIPT_OPEN) && !Contains(c, PICKER_JS)
  }

  /** Stage 2 on `c`: every main-script opening gets the picker script in front. */
  function AfterScript(c: string): string {
    if ScriptApplies(c) then ReplaceAll(c, SCRIPT_OPEN, PICKER_LINES + SCRIPT_OPEN) else c
  }

  /**
   * The second stage leaves a page that already names `variable-picker.js` (or has no main
   * script) as it is; otherwise it cuts the page at each main-script opening, puts the
   * picker lines in front of each, and the page then names `variable-picker.js`.
   */
  lemma ScriptStage(c: string)
    ensures !ScriptApplies(c) ==> AfterScript(c) == c
    ensures ScriptApplies(c) ==> AfterScript(c) == Join(Split(c, SCRIPT_OPEN), PICKER_LINES + SCRIPT_OPEN)
    ensures ScriptApplies(c) ==> Contains(AfterScript(c), PICKER_JS)
  {
    if ScriptApplies(c) {
      var rep := PICKER_LINES + SCRIPT_OPEN;
      ReplaceAllIsJoin(c, SCRIPT_OPEN, rep);
      ReplaceAllPresent(c, SCRIPT_OPEN, rep);
      var a := "\n  <!-- Load variable picker before main script -->\n  <script src=\"../../js/";
      var z := "\"></script>\n" + SCRIPT_OPEN;
      assert rep == a + PICKER_JS + z;
      ContainsMiddle(a, PICKER_JS, z);
      ContainsTrans(AfterScript(c), rep, PICKER_JS);
    }
  }

  // ----- Stage 3: `    function setupDropZones\(\) \{[^}]+\[predictorZone, responseZone\]\.forEach\(zone => \{.*?\}\);\s*\}\s*\}` -----

  const SETUP_OPEN: string := "    function setupDropZones() {"
  const SETUP_LOOP: string := "[predictorZone, responseZone].forEach(zone => {"
  const CALL_CLOSE: string := "});"

  /** The end of `});`, blanks, `}`, blanks, `}` starting at `v`, if that is what `t` holds there. */
  function ClosingEnd(t: string, v: nat): (r: Option<nat>)
    ensures r.Some? ==> v + 5 <= r.value <= |t| && t[v] == '}'
  {
    if v <= |t| && IsPrefix(CALL_CLOSE, t[v..]) then
      assert t[v] == t[v..][..3][0];
      var a := SpaceEnd(t, v + 3);
      if a < |t| && t[a] == '}' then
        var b := SpaceEnd(t, a + 1);
        if b < |t| && t[b] == '}' then Some(b + 1) else None
      else None
    else None
  }

  /** The first closing at or after `v`: its start and its end (the lazy `.*?`). */
  function ClosingFrom(t: string, v: nat): (r: Option<(nat, nat)>)
    ensures r.Some? ==> v <= r.value.0 && ClosingEnd(t, r.value.0) == Some(r.value.1)
    decreases |t| - v
  {
    if v >= |t| then None
    else match ClosingEnd(t, v)
      case Some(e) => Some((v, e))
      case None => ClosingFrom(t, v + 1)
  }

  /** `ClosingFrom` passes over no closing. */
  lemma {:induction false} ClosingFromSpec(t: string, v: nat)
    ensures ClosingFrom(t, v).Some? ==>
      forall k {:trigger ClosingEnd(t, k)} :: v <= k < ClosingFrom(t, v).value.0 ==> ClosingEnd(t, k).None?
    decreases |t| - v
  {
    if v < |t| && ClosingEnd(t, v).None? {
      ClosingFromSpec(t, v + 1);
    }
  }

  /** A closing at `c` with none from `v` up to `c` is the one `ClosingFrom` finds. */
  lemma {:induction false} ClosingFromIs(t: string, v: nat, c: nat)
    requires v <= c && ClosingEnd(t, c).Some?
    requires forall k {:trigger ClosingEnd(t, k)} :: v <= k < c ==> ClosingEnd(t, k).None?
    ensures ClosingFrom(t, v) == Some((c, ClosingEnd(t, c).value))
    decreases c - v
  {
    if v < c {
      ClosingFromIs(t, v + 1, c);
    }
  }

  /**
   * `t` starts with a whole old `setupDropZones`: its header; characters other than `}` up
   * to an occurrence of the `forEach` call at `u` (at least one of them; the call's own text
   * has no `}` either); then anything up to the first closing at `v` after the call, ending
   * at `e`.
   */
  predicate SetupBlock(t: string, u: nat, v: nat, e: nat) {
    && IsPrefix(SETUP_OPEN, t)
    && |SETUP_OPEN| < u && u + |SETUP_LOOP| <= v && u <= |t|
    && IsPrefix(SETUP_LOOP, t[u..])
    && (forall k {:trigger t[k]} :: |SETUP_OPEN| <= k < u + |SETUP_LOOP| ==> t[k] != '}')
    && ClosingEnd(t, v) == Some(e)
    && forall k {:trigger ClosingEnd(t, k)} :: u + |SETUP_LOOP| <= k < v ==> ClosingEnd(t, k).None?
  }

  /**
   * The pattern at the start of `t`. The greedy `[^}]+` stops before the first `}`, and
   * any closing starts with `}`, so the lazy tail ends at the first closing at or after
   * that `}`, whichever occurrence of the `forEach` call the greedy run backs up to.
   */
  function SetupMatch(t: string, setup: string): (r: Option<Hit>)
    ensures r.Some? ==> 0 < r.value.len <= |t| && r.value.out == setup
  {
    var o := |SETUP_OPEN|;
    if !IsPrefix(SETUP_OPEN, t) then None
    else match BraceFrom(t, o)
      case None => None
      case Some(r) =>
        match FindFrom(t, SETUP_LOOP, o + 1)
        case None => None
        case Some(u) =>
          if u + |SETUP_LOOP| > r then None
          else match ClosingFrom(t, r)
            case None => None
            case Some(ve) => Some(Hit(ve.1, setup))
  }

  function SetupHit(setup: string): Matcher {
    t => SetupMatch(t, setup)
  }

  lemma SetupAdvancing(setup: string)
    ensures Advancing(SetupHit(setup))
  {
  }

  /** What the pattern matches is a whole old `setupDropZones`. */
  lemma SetupSound(t: string, setup: string) returns (u: nat, v: nat)
    requires SetupMatch(t, setup).Some?
    ensures SetupBlock(t, u, v, SetupMatch(t, setup).value.len)
  {
    var o := |SETUP_OPEN|;
    var r := BraceFrom(t, o).value;
    u := FindFrom(t, SETUP_LOOP, o + 1).value;
    v := ClosingFrom(t, r).value.0;
    BraceFromSpec(t, o);
    FindFromSpec(t, SETUP_LOOP, o + 1);
    ClosingFromSpec(t, r);
    forall k | u + |SETUP_LOOP| <= k < v
      ensures ClosingEnd(t, k).None?
    {
      if k < r {
        assert t[k] != '}';
      }
    }
  }

  /** An old `setupDropZones` at the start of `t` is exactly what the pattern matches there. */
  lemma SetupComplete(t: string, setup: string, u: nat, v: nat, e: nat)
    requires SetupBlock(t, u, v, e)
    ensures SetupMatch(t, setup) == Some(Hit(e, setup))
  {
    var o := |SETUP_OPEN|;
    var w := u + |SETUP_LOOP|;
    BraceFromSpec(t, o);
    assert t[v] == '}';
    var r := BraceFrom(t, o).value;
    assert w <= r <= v;
    FindFromSpec(t, SETUP_LOOP, o + 1);
    assert FindFrom(t, SETUP_LOOP, o + 1).value <= u;
    ClosingFromIs(t, r, v);
  }

  // ----- The three stages -----

  /** The texts the stages put in: the style rules and the new `setupDropZones`. */
  datatype Inserts = Inserts(css: string, setup: string)

  const INSERTS: Inserts := Inserts(MOBILE_CSS, NEW_SETUP_DROP_ZONES)

  predicate DimmedApplies(c: string) {
    FirstHit(c, DimmedHit("")).Some?
  }

  /** Whether the first stage's pattern is found does not depend on what it writes. */
  lemma DimmedFound(c: string, css: string)
    ensures FirstHit(c, DimmedHit(css)) == FirstHit(c, DimmedHit(""))
  {
    forall t ensures DimmedHit(css)(t).Some? == DimmedHit("")(t).Some? {
    }
    FirstHitSame(c, DimmedHit(css), DimmedHit(""), 0);
  }

  /** Stage 1 on `c`. */
  function AfterDimmed(c: string, css: string): string {
    DimmedAdvancing(css);
    if DimmedApplies(c) then Sub(c, DimmedHit(css)) else c
  }

  predicate SetupApplies(c: string) {
    FirstHit(c, SetupHit("")).Some?
  }

  /** Whether the third stage's pattern is found does not depend on what it writes. */
  lemma SetupFound(c: string, setup: string)
    ensures FirstHit(c, SetupHit(setup)) == FirstHit(c, SetupHit(""))
  {
    forall t ensures SetupHit(setup)(t).Some? == SetupHit("")(t).Some? {
    }
    FirstHitSame(c, SetupHit(setup), SetupHit(""), 0);
  }

  /** Stage 3 on `c`. */
  function AfterSetup(c: string, setup: string): string {
    SetupAdvancing(setup);
    if SetupApplies(c) then Sub(c, SetupHit(setup)) else c
  }

  /** The page after all three stages. */
  function Rewritten(c: string, ins: Inserts): string {
    AfterSetup(AfterScript(AfterDimmed(c, ins.css)), ins.setup)
  }

  /** At least one stage changes the page. */
  predicate StagesApply(c: string, ins: Inserts) {
    DimmedApplies(c) || ScriptApplies(AfterDimmed(c, ins.css)) || SetupApplies(AfterScript(AfterDimmed(c, ins.css)))
  }

  /** `add_mobile_support` reports true: the page is not marked and some stage applies. */
  predicate Changes(c: string, ins: Inserts) {
    !Contains(c, SELECTED) && StagesApply(c, ins)
  }

  /** What `add_mobile_support` writes. */
  function WrittenFor(c: string, dryRun: bool, ins: Inserts): Option<string> {
    if Changes(c, ins) && !dryRun then Some(Rewritten(c, ins)) else None
  }

  /**
   * `add_mobile_support`: a marked page is skipped; otherwise the three stages run in
   * turn, each only when its pattern is found (the second also only when the page does not
   * name `variable-picker.js` yet); when none applied nothing is written and the result
   * is false; otherwise the result is true and the page is written unless in a dry run.
   */
  method AddMobileSupport(content: string, dryRun: bool) returns (changed: bool, written: Option<string>)
    ensures Contains(content, SELECTED) ==> !changed && written == None
    ensures !StagesApply(content, INSERTS) ==> !changed && written == None
    ensures dryRun ==> written == None
    ensures changed == Changes(content, INSERTS)
    ensures written == WrittenFor(content, dryRun, INSERTS)
  {
    if Contains(content, SELECTED) {
      return false, None;
    }
    DimmedAdvancing(MOBILE_CSS);
    SetupAdvancing(NEW_SETUP_DROP_ZONES);
    var text := content;
    var modified := false;
    DimmedFound(text, MOBILE_CSS);
    if FirstHit(text, DimmedHit(MOBILE_CSS)).Some? {
      text := Sub(text, DimmedHit(MOBILE_CSS));
      modified := true;
    }
    if Contains(text, SCRIPT_OPEN) && !Contains(text, PICKER_JS) {
      text := ReplaceAll(text, SCRIPT_OPEN, PICKER_LINES + SCRIPT_OPEN);
      modified := true;
    }
    SetupFound(text, NEW_SETUP_DROP_ZONES);
    if FirstHit(text, SetupHit(NEW_SETUP_DROP_ZONES)).Some? {
      text := Sub(text, SetupHit(NEW_SETUP_DROP_ZONES));
      modified := true;
    }
    if !modified {
      return false, None;
    }
    if dryRun {
      return true, None;
    }
    return true, Some(text);
  }

  /** The first stage leaves the style text in the page. */
  lemma DimmedLeavesCss(c: string, css: string)
    requires DimmedApplies(c)
    ensures Contains(AfterDimmed(c, css), css)
  {
    DimmedAdvancing(css);
    DimmedFound(c, css);
    var q := FirstHit(c, DimmedHit(css)).value;
    var h := DimmedMatch(c[q..], css).value;
    SubShowsFirstHit(c, DimmedHit(css));
    ContainsSelf(css);
    ContainsRight(c[q..][..h.len] + "\n", css, css);
    ContainsTrans(AfterDimmed(c, css), h.out, css);
  }

  /** The second stage keeps the marker: the script opening and the marker cannot overlap. */
  lemma ScriptKeepsMarker(c: string)
    requires Contains(c, SELECTED)
    ensures Contains(AfterScript(c), SELECTED)
  {
    if ScriptApplies(c) {
      ScriptStage(c);
      JoinSplit(c, SCRIPT_OPEN);
      assert SCRIPT_OPEN[0] == '\n' && SELECTED[0] == '.';
      JoinKeepsContains(Split(c, SCRIPT_OPEN), SCRIPT_OPEN, PICKER_LINES + SCRIPT_OPEN, SELECTED);
    }
  }

  /** The third stage keeps a marker that lies before its first match. */
  lemma SetupKeepsEarlyMarker(c: string, setup: string)
    requires SetupApplies(c) ==> Contains(c[..FirstHit(c, SetupHit("")).value], SELECTED)
    requires !SetupApplies(c) ==> Contains(c, SELECTED)
    ensures Contains(AfterSetup(c, setup), SELECTED)
  {
    SetupAdvancing(setup);
    SetupFound(c, setup);
    if SetupApplies(c) {
      var q := FirstHit(c, SetupHit(setup)).value;
      SubKeepsPrefix(c, SetupHit(setup), q);
      ContainsLeft(c[..q], Sub(c[q..], SetupHit(setup)), SELECTED);
    }
  }

  /**
   * Once the style stage has applied, a second run skips the page: the style text carries
   * the marker, the script stage keeps it, and so does the `setupDropZones` stage as long
   * as it does not swallow the inserted rules (the old function comes after the styles).
   */
  lemma RerunSkips(c: string, ins: Inserts)
    requires Contains(ins.css, SELECTED) && DimmedApplies(c)
    requires var s := AfterScript(AfterDimmed(c, ins.css));
      SetupApplies(s) ==> Contains(s[..FirstHit(s, SetupHit("")).value], SELECTED)
    ensures Contains(Rewritten(c, ins), SELECTED)
    ensures !Changes(Rewritten(c, ins), ins) && WrittenFor(Rewritten(c, ins), false, ins) == None
  {
    DimmedLeavesCss(c, ins.css);
    ContainsTrans(AfterDimmed(c, ins.css), ins.css, SELECTED);
    ScriptKeepsMarker(AfterDimmed(c, ins.css));
    SetupKeepsEarlyMarker(AfterScript(AfterDimmed(c, ins.css)), ins.setup);
  }

  // ----- `main` -----

  /** The tutorials whose `systematic.html` the step visits, in order. */
  const MOBILE_TUTORIALS: seq<string> := ["02-logistic", "03-poisson", "04-negbin", "05-gamma"]

  /** Whether each tutorial's page was reported changed, for the tutorials whose page exists. */
  function CountChanged(pages: map<string, string>, names: seq<string>, ins: Inserts): (n: nat)
    ensures n <= |names|
  {
    if |names| == 0 then 0
    else
      var last := names[|names| - 1];
      CountChanged(pages, names[..|names| - 1], ins) + (if last in pages && Changes(pages[last], ins) then 1 else 0)
  }

  /** What the step writes for each of `names`: nothing for a missing page. */
  function WrittenAll(pages: map<string, string>, names: seq<string>, dryRun: bool, ins: Inserts): (r: seq<Option<string>>)
    ensures |r| == |names|
  {
    if |names| == 0 then []
    else
      var last := names[|names| - 1];
      WrittenAll(pages, names[..|names| - 1], dryRun, ins) + [if last in pages then WrittenFor(pages[last], dryRun, ins) else None]
  }

  /** Entry `k` of `WrittenAll` is what tutorial `k`'s page gets. */
  lemma {:induction false} WrittenAllAt(pages: map<string, string>, names: seq<string>, dryRun: bool, ins: Inserts, k: nat)
    requires k < |names|
    ensures WrittenAll(pages, names, dryRun, ins)[k] == (if names[k] in pages then WrittenFor(pages[names[k]], dryRun, ins) else None)
    ensures dryRun ==> WrittenAll(pages, names, dryRun, ins)[k] == None
    decreases |names|
  {
    if k < |names| - 1 {
      WrittenAllAt(pages, names[..|names| - 1], dryRun, ins, k);
    }
  }

  /** `main`: each listed tutorial's page, if it exists; `modified` counts those reported changed. */
  method AddMobileToTutorials(pages: map<string, string>, dryRun: bool) returns (modified: nat, written: seq<Option<string>>)
    ensures modified == CountChanged(pages, MOBILE_TUTORIALS, INSERTS)
    ensures written == WrittenAll(pages, MOBILE_TUTORIALS, dryRun, INSERTS)
  {
    modified, written := 0, [];
    var i := 0;
    while i < |MOBILE_TUTORIALS|
      invariant i <= |MOBILE_TUTORIALS|
      invariant modified == CountChanged(pages, MOBILE_TUTORIALS[..i], INSERTS)
      invariant written == WrittenAll(pages, MOBILE_TUTORIALS[..i], dryRun, INSERTS)
    {
      var name := MOBILE_TUTORIALS[i];
      assert MOBILE_TUTORIALS[..i + 1][..i] == MOBILE_TUTORIALS[..i];
      var w: Option<string> := None;
      if name in pages {
        var changed;
        changed, w := AddMobileSupport(pages[name], dryRun);
        if changed {
          modified := modified + 1;
        }
      }
      written := written + [w];
      i := i + 1;
    }
    assert MOBILE_TUTORIALS[..i] == MOBILE_TUTORIALS;
  }
}
