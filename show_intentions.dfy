/**
 * ShowIntentionsPass: the highlighting pass that collects what the light bulb
 * offers at the caret. Available intentions, the quick fixes of the
 * highlighting (as error fixes or inspection fixes, by the severity of the
 * highlight at the caret) and the clickable gutter icons of the caret line are
 * gathered into four lists, pruned by the file's intention filter, and the pass
 * decides whether to show the bulb and whether the existing hint must be
 * recreated.
 *
 * Actions, highlights and settings are values handed in: an action records what
 * its isAvailable calls answer, and the light-bulb setting is a function.
 */
module ShowIntentions {
  import opened Wrappers

  /** What an isAvailable call answers, IndexNotReadyException included. */
  datatype Availability = Available | Unavailable | IndexNotReady

  datatype Action =
    | IntentionAction(id: int, elementBased: bool, atElement: Availability, inFile: Availability)
      /** The adapter made for a gutter icon's click action; it is always available. */
    | GutterAdapter(clickAction: int, text: string)

  /**
   * An IntentionActionDescriptor: the action, its display name, and whether its options hold the
   * enable/disable intention action.
   */
  datatype Descriptor = Descriptor(action: Action, displayName: Option<string>, enableDisableOption: bool)

  datatype Severity = ErrorSeverity | OtherSeverity(name: string)

  datatype Renderer = Renderer(clickAction: Option<int>, tooltipText: Option<string>)

  /** A highlight on the caret line, with its gutter icon renderer if any. */
  datatype LineHighlight = LineHighlight(renderer: Option<Renderer>)

  /** What the file answers for getIntentionActionsFilter. */
  datatype FileFilter = NotAFilterOwner | NullFilter | EverythingAvailable | AcceptOnly(accept: Action -> bool)

  /** What updateActions of the last intention hint answers, or no hint. */
  datatype Hint = NoHint | Answers(updated: Option<bool>)

  /** The outcome of scanning for a reason to show the bulb. */
  datatype BulbScan = Found | NotFound | Thrown

  function InFileAvailability(a: Action): Availability {
    if a.IntentionAction? then a.inFile else Available
  }

  /** The descriptors a filter keeps, in their order. */
  function Filtered(ds: seq<Descriptor>, accept: Action -> bool): seq<Descriptor> {
    if |ds| == 0 then []
    else Filtered(ds[..|ds| - 1], accept) + (if accept(ds[|ds| - 1].action) then [ds[|ds| - 1]] else [])
  }

  /** A descriptor survives the filter exactly when it was there and its action is accepted. */
  lemma {:induction false} FilteredMembers(ds: seq<Descriptor>, accept: Action -> bool)
    ensures |Filtered(ds, accept)| <= |ds|
    ensures forall d :: d in Filtered(ds, accept) <==> d in ds && accept(d.action)
    decreases |ds|
  {
    if |ds| > 0 {
      var init := ds[..|ds| - 1];
      FilteredMembers(init, accept);
      assert ds == init + [ds[|ds| - 1]];
    }
  }

  /** Filtering keeps everything an accepting filter accepts, so filtering twice is filtering once. */
  lemma {:induction false} FilteredKeepsAccepted(ds: seq<Descriptor>, accept: Action -> bool)
    requires forall i :: 0 <= i < |ds| ==> accept(ds[i].action)
    ensures Filtered(ds, accept) == ds
    decreases |ds|
  {
    if |ds| > 0 {
      FilteredKeepsAccepted(ds[..|ds| - 1], accept);
      assert ds[..|ds| - 1] + [ds[|ds| - 1]] == ds;
    }
  }

  lemma FilteredIsIdempotent(ds: seq<Descriptor>, accept: Action -> bool)
    ensures Filtered(Filtered(ds, accept), accept) == Filtered(ds, accept)
  {
    var f := Filtered(ds, accept);
    FilteredMembers(ds, accept);
    forall i | 0 <= i < |f|
      ensures accept(f[i].action)
    {
      assert f[i] in f;
    }
    FilteredKeepsAccepted(f, accept);
  }

  /** Filtering distributes over concatenation, so order is kept across appended lists. */
  lemma {:induction false} FilteredAppend(xs: seq<Descriptor>, ys: seq<Descriptor>, accept: Action -> bool)
    ensures Filtered(xs + ys, accept) == Filtered(xs, accept) + Filtered(ys, accept)
    decreases |ys|
  {
    if |ys| > 0 {
      var ys0 := ys[..|ys| - 1];
      FilteredAppend(xs, ys0, accept);
      assert (xs + ys)[..|xs + ys| - 1] == xs + ys0;
    } else {
      assert xs + ys == xs;
    }
  }

  /**
   * Whether an intention is listed: an element-based intention needs the file in the project and to be
   * available at the caret element, any other to be available in the file; an IndexNotReadyException
   * skips the action.
   */
  predicate Listed(a: Action, isInProject: bool) {
    if a.IntentionAction? && a.elementBased then isInProject && a.atElement == Available
    else InFileAvailability(a) == Available
  }

  /** The descriptors the intention loop adds. */
  function ListedIntentions(actions: seq<Action>, isInProject: bool): seq<Descriptor> {
    if |actions| == 0 then []
    else
      var a := actions[|actions| - 1];
      ListedIntentions(actions[..|actions| - 1], isInProject) + (if Listed(a, isInProject) then [Descriptor(a, None, true)] else [])
  }

  /** Exactly the listed actions get a descriptor, each carrying the enable/disable option and no display name. */
  lemma {:induction false} ListedIntentionsMembers(actions: seq<Action>, isInProject: bool)
    ensures |ListedIntentions(actions, isInProject)| <= |actions|
    ensures forall d :: d in ListedIntentions(actions, isInProject) <==>
      d.action in actions && Listed(d.action, isInProject) && d == Descriptor(d.action, None, true)
    decreases |actions|
  {
    if |actions| > 0 {
      var init := actions[..|actions| - 1];
      ListedIntentionsMembers(init, isInProject);
      assert actions == init + [actions[|actions| - 1]];
    }
  }

  predicate HasGutterAction(h: LineHighlight) {
    h.renderer.Some? && h.renderer.value.clickAction.Some? && h.renderer.value.tooltipText.Some?
  }

  /** The gutter entries: one per renderer with both a click action and a tooltip, named by the tooltip. */
  function GutterEntries(infos: seq<LineHighlight>): seq<Descriptor> {
    if |infos| == 0 then []
    else
      var h := infos[|infos| - 1];
      GutterEntries(infos[..|infos| - 1])
        + (if HasGutterAction(h)
           then [Descriptor(GutterAdapter(h.renderer.value.clickAction.value, h.renderer.value.tooltipText.value),
                            h.renderer.value.tooltipText, false)]
           else [])
  }

  /** There are gutter entries exactly when some highlight of the line has a clickable, titled gutter icon. */
  lemma {:induction false} GutterEntriesExist(infos: seq<LineHighlight>)
    ensures |GutterEntries(infos)| > 0 <==> exists i :: 0 <= i < |infos| && HasGutterAction(infos[i])
    decreases |infos|
  {
    if |infos| > 0 {
      var init := infos[..|infos| - 1];
      GutterEntriesExist(init);
      if exists i :: 0 <= i < |init| && HasGutterAction(init[i]) {
        var i :| 0 <= i < |init| && HasGutterAction(init[i]);
        assert HasGutterAction(infos[i]);
      }
      if exists i :: 0 <= i < |infos| && HasGutterAction(infos[i]) {
        var i :| 0 <= i < |infos| && HasGutterAction(infos[i]);
        if i < |init| {
          assert HasGutterAction(init[i]);
        }
      }
    }
  }

  /** Each gutter entry is named by its tooltip and runs a click action. */
  lemma {:induction false} GutterEntriesAreAdapters(infos: seq<LineHighlight>)
    ensures forall d :: d in GutterEntries(infos) ==>
      d.action.GutterAdapter? && d.displayName == Some(d.action.text) && !d.enableDisableOption
    decreases |infos|
  {
    if |infos| > 0 {
      GutterEntriesAreAdapters(infos[..|infos| - 1]);
    }
  }

  /** Quick fixes are error fixes when no highlight is at the caret or it is an error. */
  predicate FixesAreErrorFixes(infoAtCursor: Option<Severity>) {
    infoAtCursor.None? || infoAtCursor.value == ErrorSeverity
  }

  /** Whether some descriptor's action has the light bulb enabled. */
  predicate SomeBulbEnabled(ds: seq<Descriptor>, showLightBulb: Action -> bool) {
    exists i :: 0 <= i < |ds| && showLightBulb(ds[i].action)
  }

  /**
   * The intention loop: the first intention whose bulb is enabled decides; its isAvailable answer
   * shows the bulb, moves on, or throws IndexNotReadyException out of the pass.
   */
  function ScanIntentions(ds: seq<Descriptor>, i: nat, showLightBulb: Action -> bool): BulbScan
    requires i <= |ds|
    decreases |ds| - i
  {
    if i == |ds| then NotFound
    else if showLightBulb(ds[i].action) && InFileAvailability(ds[i].action) == IndexNotReady then Thrown
    else if showLightBulb(ds[i].action) && InFileAvailability(ds[i].action) == Available then Found
    else ScanIntentions(ds, i + 1, showLightBulb)
  }

  /** The scan finds a reason exactly when some bulb-enabled intention is available before any of them throws. */
  lemma {:induction false} ScanIntentionsFinds(ds: seq<Descriptor>, i: nat, showLightBulb: Action -> bool)
    requires i <= |ds|
    ensures ScanIntentions(ds, i, showLightBulb) == Found ==>
      exists k :: i <= k < |ds| && showLightBulb(ds[k].action) && InFileAvailability(ds[k].action) == Available
    ensures ScanIntentions(ds, i, showLightBulb) == NotFound ==>
      forall k :: i <= k < |ds| && showLightBulb(ds[k].action) ==> InFileAvailability(ds[k].action) == Unavailable
    decreases |ds| - i
  {
    if i < |ds| {
      ScanIntentionsFinds(ds, i + 1, showLightBulb);
    }
  }

  /** When no bulb-enabled intention can throw, the scan finds a reason exactly when one is available. */
  lemma ScanIntentionsWithoutIndexing(ds: seq<Descriptor>, showLightBulb: Action -> bool)
    requires forall k :: 0 <= k < |ds| ==> InFileAvailability(ds[k].action) != IndexNotReady
    ensures ScanIntentions(ds, 0, showLightBulb) == Found <==>
      exists k :: 0 <= k < |ds| && showLightBulb(ds[k].action) && InFileAvailability(ds[k].action) == Available
  {
    ScanIntentionsFinds(ds, 0, showLightBulb);
    assert ScanIntentions(ds, 0, showLightBulb) != Thrown by {
      ScanNeverThrows(ds, 0, showLightBulb);
    }
  }

  lemma {:induction false} ScanNeverThrows(ds: seq<Descriptor>, i: nat, showLightBulb: Action -> bool)
    requires i <= |ds|
    requires forall k :: i <= k < |ds| ==> InFileAvailability(ds[k].action) != IndexNotReady
    ensures ScanIntentions(ds, i, showLightBulb) != Thrown
    decreases |ds| - i
  {
    if i < |ds| {
      ScanNeverThrows(ds, i + 1, showLightBulb);
    }
  }

  /** The bulb decision over the four lists: gutter entries, then bulb-enabled fixes, then the intention scan. */
  function BulbDecision(intentions: seq<Descriptor>, errorFixes: seq<Descriptor>, inspectionFixes: seq<Descriptor>,
                        gutters: seq<Descriptor>, showLightBulb: Action -> bool): BulbScan
  {
    if |gutters| > 0 || SomeBulbEnabled(errorFixes + inspectionFixes, showLightBulb) then Found
    else ScanIntentions(intentions, 0, showLightBulb)
  }

  /** The four lists of IntentionsInfo. */
  class IntentionsInfo {
    var intentionsToShow: seq<Descriptor>
    var errorFixesToShow: seq<Descriptor>
    var inspectionFixesToShow: seq<Descriptor>
    var guttersToShow: seq<Descriptor>

    constructor ()
      ensures intentionsToShow == [] && errorFixesToShow == [] && inspectionFixesToShow == [] && guttersToShow == []
    {
      intentionsToShow := [];
      errorFixesToShow := [];
      inspectionFixesToShow := [];
      guttersToShow := [];
    }

    /** isEmpty: all four lists are empty. */
    predicate IsEmpty()
      reads this
    {
      intentionsToShow == [] && errorFixesToShow == [] && inspectionFixesToShow == [] && guttersToShow == []
    }

    /** filterActions: each list keeps, in order, exactly the descriptors whose action the filter accepts. */
    method FilterActions(accept: Action -> bool)
      modifies this
      ensures intentionsToShow == Filtered(old(intentionsToShow), accept)
      ensures errorFixesToShow == Filtered(old(errorFixesToShow), accept)
      ensures inspectionFixesToShow == Filtered(old(inspectionFixesToShow), accept)
      ensures guttersToShow == Filtered(old(guttersToShow), accept)
    {
      intentionsToShow := Filter(intentionsToShow, accept);
      errorFixesToShow := Filter(errorFixesToShow, accept);
      inspectionFixesToShow := Filter(inspectionFixesToShow, accept);
      guttersToShow := Filter(guttersToShow, accept);
    }
  }

  /** filter: walks the list and removes each descriptor the filter does not accept. */
  method Filter(descriptors: seq<Descriptor>, accept: Action -> bool) returns (kept: seq<Descriptor>)
    ensures kept == Filtered(descriptors, accept)
  {
    kept := [];
    var i := 0;
    while i < |descriptors|
      invariant 0 <= i <= |descriptors|
      invariant kept == Filtered(descriptors[..i], accept)
    {
      assert descriptors[..i + 1][..i] == descriptors[..i];
      if accept(descriptors[i].action) {
        kept := kept + [descriptors[i]];
      }
      i := i + 1;
    }
    assert descriptors[..i] == descriptors;
  }

  /**
   * getActionsToShow: appends the listed intentions, the quick fixes (to the error or the inspection
   * fixes by the severity at the caret) and the gutter entries of the caret line.
   */
  method GetActionsToShow(info: IntentionsInfo, intentionActions: seq<Action>, isInProject: bool,
                          quickFixes: seq<Descriptor>, infoAtCursor: Option<Severity>, lineHighlights: seq<LineHighlight>)
    modifies info
    ensures info.intentionsToShow == old(info.intentionsToShow) + ListedIntentions(intentionActions, isInProject)
    ensures FixesAreErrorFixes(infoAtCursor) ==>
      info.errorFixesToShow == old(info.errorFixesToShow) + quickFixes && info.inspectionFixesToShow == old(info.inspectionFixesToShow)
    ensures !FixesAreErrorFixes(infoAtCursor) ==>
      info.errorFixesToShow == old(info.errorFixesToShow) && info.inspectionFixesToShow == old(info.inspectionFixesToShow) + quickFixes
    ensures info.guttersToShow == old(info.guttersToShow) + GutterEntries(lineHighlights)
  {
    var i := 0;
    while i < |intentionActions|
      invariant 0 <= i <= |intentionActions|
      invariant info.intentionsToShow == old(info.intentionsToShow) + ListedIntentions(intentionActions[..i], isInProject)
      invariant info.errorFixesToShow == old(info.errorFixesToShow) && info.inspectionFixesToShow == old(info.inspectionFixesToShow)
      invariant info.guttersToShow == old(info.guttersToShow)
    {
      assert intentionActions[..i + 1][..i] == intentionActions[..i];
      var action := intentionActions[i];
      if Listed(action, isInProject) {
        info.intentionsToShow := info.intentionsToShow + [Descriptor(action, None, true)];
      }
      i := i + 1;
    }
    assert intentionActions[..i] == intentionActions;
    if infoAtCursor.None? || infoAtCursor.value == ErrorSeverity {
      info.errorFixesToShow := info.errorFixesToShow + quickFixes;
    } else {
      info.inspectionFixesToShow := info.inspectionFixesToShow + quickFixes;
    }
    var j := 0;
    while j < |lineHighlights|
      invariant 0 <= j <= |lineHighlights|
      invariant info.guttersToShow == old(info.guttersToShow) + GutterEntries(lineHighlights[..j])
      invariant info.intentionsToShow == old(info.intentionsToShow) + ListedIntentions(intentionActions, isInProject)
      invariant FixesAreErrorFixes(infoAtCursor) ==>
        info.errorFixesToShow == old(info.errorFixesToShow) + quickFixes && info.inspectionFixesToShow == old(info.inspectionFixesToShow)
      invariant !FixesAreErrorFixes(infoAtCursor) ==>
        info.errorFixesToShow == old(info.errorFixesToShow) && info.inspectionFixesToShow == old(info.inspectionFixesToShow) + quickFixes
    {
      assert lineHighlights[..j + 1][..j] == lineHighlights[..j];
      var renderer := lineHighlights[j].renderer;
      if renderer.Some? {
        var action := renderer.value.clickAction;
        if action.Some? {
          var text := renderer.value.tooltipText;
          if text.Some? {
            info.guttersToShow := info.guttersToShow + [Descriptor(GutterAdapter(action.value, text.value), text, false)];
          }
        }
      }
      j := j + 1;
    }
    assert lineHighlights[..j] == lineHighlights;
  }

  /** The loop over the error fixes and then the inspection fixes: stops at the first bulb-enabled one. */
  method AnyFixShowsBulb(fixes: seq<Descriptor>, showLightBulb: Action -> bool) returns (found: bool)
    ensures found <==> SomeBulbEnabled(fixes, showLightBulb)
  {
    found := false;
    var i := 0;
    while i < |fixes|
      invariant 0 <= i <= |fixes|
      invariant !found ==> forall k :: 0 <= k < i ==> !showLightBulb(fixes[k].action)
      invariant found ==> SomeBulbEnabled(fixes, showLightBulb)
    {
      if showLightBulb(fixes[i].action) {
        found := true;
        break;
      }
      i := i + 1;
    }
  }

  /** The loop over the intentions: the first bulb-enabled one decides, an IndexNotReadyException escapes. */
  method AnyIntentionShowsBulb(intentions: seq<Descriptor>, showLightBulb: Action -> bool) returns (found: bool, indexNotReady: bool)
    ensures found <==> ScanIntentions(intentions, 0, showLightBulb) == Found
    ensures indexNotReady <==> ScanIntentions(intentions, 0, showLightBulb) == Thrown
  {
    var i := 0;
    while i < |intentions|
      invariant 0 <= i <= |intentions|
      invariant ScanIntentions(intentions, 0, showLightBulb) == ScanIntentions(intentions, i, showLightBulb)
    {
      var action := intentions[i].action;
      if showLightBulb(action) {
        var availability := InFileAvailability(action);
        if availability == IndexNotReady {
          return false, true;
        }
        if availability == Available {
          return true, false;
        }
      }
      i := i + 1;
    }
    return false, false;
  }

  /** The lists as the file filter leaves them: only an accept-only filter removes anything. */
  function FilteredBy(ds: seq<Descriptor>, fileFilter: FileFilter): seq<Descriptor> {
    if fileFilter.AcceptOnly? then Filtered(ds, fileFilter.accept) else ds
  }

  /** The quick fixes getActionsToShow appends to the error fixes (`toError`) or to the inspection fixes. */
  function FixesFor(quickFixes: seq<Descriptor>, infoAtCursor: Option<Severity>, toError: bool): seq<Descriptor> {
    if toError == FixesAreErrorFixes(infoAtCursor) then quickFixes else []
  }

  class ShowIntentionsPass {
    const intentionsInfo: IntentionsInfo
    var showBulb: bool
    var hasToRecreate: bool

    constructor ()
      ensures fresh(intentionsInfo) && intentionsInfo.IsEmpty() && !showBulb && !hasToRecreate
    {
      intentionsInfo := new IntentionsInfo();
      showBulb := false;
      hasToRecreate := false;
    }

    /**
     * The bulb decision of getIntentionActionsToShow once the lists are final: the bulb is shown when
     * the decision finds a reason and the last hint did not answer that its actions are up to date;
     * a hint that could not update them is marked for recreation.
     */
    method DecideBulb(showLightBulb: Action -> bool, lastHint: Hint) returns (indexNotReady: bool)
      modifies this
      ensures var decision := BulbDecision(intentionsInfo.intentionsToShow, intentionsInfo.errorFixesToShow,
                                           intentionsInfo.inspectionFixesToShow, intentionsInfo.guttersToShow, showLightBulb);
              (indexNotReady <==> decision == Thrown)
              && showBulb == (decision == Found && lastHint != Answers(Some(true)))
              && hasToRecreate == (old(hasToRecreate) || (decision == Found && lastHint == Answers(Some(false))))
    {
      indexNotReady := false;
      showBulb := intentionsInfo.guttersToShow != [];
      if !showBulb {
        showBulb := AnyFixShowsBulb(intentionsInfo.errorFixesToShow + intentionsInfo.inspectionFixesToShow, showLightBulb);
      }
      if !showBulb {
        showBulb, indexNotReady := AnyIntentionShowsBulb(intentionsInfo.intentionsToShow, showLightBulb);
        if indexNotReady {
          return;
        }
      }
      ghost var decision := BulbDecision(intentionsInfo.intentionsToShow, intentionsInfo.errorFixesToShow,
                                         intentionsInfo.inspectionFixesToShow, intentionsInfo.guttersToShow, showLightBulb);
      assert showBulb <==> decision == Found;
      if !showBulb || lastHint.NoHint? {
        return;
      }
      var result := lastHint.updated;
      if result.None? {
      } else if result == Some(false) {
        hasToRecreate := true;
      } else {
        assert result.Some? && result.value;
        showBulb := false;
      }
    }

    /**
     * getIntentionActionsToShow: nothing while a lookup is active; otherwise the lists are collected and
     * filtered by the file's filter, and the bulb is decided unless the filter is null or nothing was
     * collected.
     */
    method GetIntentionActionsToShow(activeLookup: bool, intentionActions: seq<Action>, isInProject: bool,
                                     quickFixes: seq<Descriptor>, infoAtCursor: Option<Severity>,
                                     lineHighlights: seq<LineHighlight>, fileFilter: FileFilter,
                                     showLightBulb: Action -> bool, lastHint: Hint)
      returns (indexNotReady: bool)
      modifies this, intentionsInfo
      ensures activeLookup ==> !indexNotReady && showBulb == old(showBulb) && hasToRecreate == old(hasToRecreate)
      ensures activeLookup ==> intentionsInfo.intentionsToShow == old(intentionsInfo.intentionsToShow)
                               && intentionsInfo.errorFixesToShow == old(intentionsInfo.errorFixesToShow)
                               && intentionsInfo.inspectionFixesToShow == old(intentionsInfo.inspectionFixesToShow)
                               && intentionsInfo.guttersToShow == old(intentionsInfo.guttersToShow)
      ensures !activeLookup ==>
        intentionsInfo.intentionsToShow
          == FilteredBy(old(intentionsInfo.intentionsToShow) + ListedIntentions(intentionActions, isInProject), fileFilter)
      ensures !activeLookup ==>
        intentionsInfo.errorFixesToShow
          == FilteredBy(old(intentionsInfo.errorFixesToShow) + FixesFor(quickFixes, infoAtCursor, true), fileFilter)
      ensures !activeLookup ==>
        intentionsInfo.inspectionFixesToShow
          == FilteredBy(old(intentionsInfo.inspectionFixesToShow) + FixesFor(quickFixes, infoAtCursor, false), fileFilter)
      ensures !activeLookup ==>
        intentionsInfo.guttersToShow == FilteredBy(old(intentionsInfo.guttersToShow) + GutterEntries(lineHighlights), fileFilter)
      ensures activeLookup || fileFilter.NullFilter? || intentionsInfo.IsEmpty() ==>
        !indexNotReady && showBulb == old(showBulb) && hasToRecreate == old(hasToRecreate)
      ensures !activeLookup && !fileFilter.NullFilter? && !intentionsInfo.IsEmpty() ==>
        var decision := BulbDecision(intentionsInfo.intentionsToShow, intentionsInfo.errorFixesToShow,
                                     intentionsInfo.inspectionFixesToShow, intentionsInfo.guttersToShow, showLightBulb);
        (indexNotReady <==> decision == Thrown)
        && showBulb == (decision == Found && lastHint != Answers(Some(true)))
        && hasToRecreate == (old(hasToRecreate) || (decision == Found && lastHint == Answers(Some(false))))
    {
      if activeLookup {
        return false;
      }
      GetActionsToShow(intentionsInfo, intentionActions, isInProject, quickFixes, infoAtCursor, lineHighlights);
      assert intentionsInfo.errorFixesToShow == old(intentionsInfo.errorFixesToShow) + FixesFor(quickFixes, infoAtCursor, true);
      assert intentionsInfo.inspectionFixesToShow
          == old(intentionsInfo.inspectionFixesToShow) + FixesFor(quickFixes, infoAtCursor, false);
      if fileFilter.NullFilter? {
        return false;
      }
      if fileFilter.AcceptOnly? {
        intentionsInfo.FilterActions(fileFilter.accept);
      }
      if intentionsInfo.IsEmpty() {
        return false;
      }
      indexNotReady := DecideBulb(showLightBulb, lastHint);
    }
  }

  /** With no gutter entries and no bulb-enabled fix, only an available bulb-enabled intention shows the bulb. */
  lemma BulbNeedsAReason(intentions: seq<Descriptor>, errorFixes: seq<Descriptor>, inspectionFixes: seq<Descriptor>,
                         gutters: seq<Descriptor>, showLightBulb: Action -> bool)
    requires BulbDecision(intentions, errorFixes, inspectionFixes, gutters, showLightBulb) == Found
    ensures |gutters| > 0 || SomeBulbEnabled(errorFixes + inspectionFixes, showLightBulb)
      || exists k :: 0 <= k < |intentions| && showLightBulb(intentions[k].action) && InFileAvailability(intentions[k].action) == Available
  {
    if !(|gutters| > 0 || SomeBulbEnabled(errorFixes + inspectionFixes, showLightBulb)) {
      ScanIntentionsFinds(intentions, 0, showLightBulb);
    }
  }
}
