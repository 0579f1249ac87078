/**
 * LanguageConsoleImpl: a console made of an input editor and a read-only
 * history viewer. Printing appends text to the history document and
 * highlights it; moving the current input into the history appends the
 * prompt, the input text and a line break, and copies the input's lexer
 * highlighting and, optionally, its markup, clipped to the input range and
 * shifted to where the text landed in the history.
 *
 * Documents are strings and markup models sequences of range highlighters.
 * The input editor's lexer highlighting is given as a sequence of tokens.
 */
module LanguageConsole {
  import opened Wrappers

  datatype Layer = Syntax | OtherLayer(n: int)

  datatype TargetArea = ExactRange | LinesInRange

  /** Text attributes: those of USER_INPUT, or any other set identified by number. */
  datatype Attributes = UserInput | Attrs(id: int)

  datatype Highlighter = Highlighter(
    start: int, end: int, layer: Layer, attributes: Attributes, targetArea: TargetArea, afterEndOfLine: bool)

  /** One lexer token of the input editor's highlighter. */
  datatype Token = Token(start: int, end: int, attributes: Attributes)

  const DefaultPrompt: string := "> "

  /** StringUtil.convertLineSeparators: "\r\n" and a lone "\r" become "\n". */
  function ConvertLineSeparators(s: string): string
    decreases |s|
  {
    if |s| == 0 then ""
    else if s[0] == '\r' then
      "\n" + (if |s| > 1 && s[1] == '\n' then ConvertLineSeparators(s[2..]) else ConvertLineSeparators(s[1..]))
    else [s[0]] + ConvertLineSeparators(s[1..])
  }

  /** The converted text has no carriage return left. */
  lemma {:induction false} ConvertedHasNoCarriageReturn(s: string)
    ensures '\r' !in ConvertLineSeparators(s)
    decreases |s|
  {
    if |s| > 0 {
      if s[0] == '\r' && |s| > 1 && s[1] == '\n' {
        ConvertedHasNoCarriageReturn(s[2..]);
      } else {
        ConvertedHasNoCarriageReturn(s[1..]);
      }
    }
  }

  /** Text without carriage returns is left as it is, so converting twice is converting once. */
  lemma {:induction false} ConvertKeepsTextWithoutCarriageReturn(s: string)
    requires '\r' !in s
    ensures ConvertLineSeparators(s) == s
    decreases |s|
  {
    if |s| > 0 {
      assert s[0] in s;
      assert forall c :: c in s[1..] ==> c in s;
      ConvertKeepsTextWithoutCarriageReturn(s[1..]);
      assert [s[0]] + s[1..] == s;
    }
  }

  lemma ConvertIsIdempotent(s: string)
    ensures ConvertLineSeparators(ConvertLineSeparators(s)) == ConvertLineSeparators(s)
  {
    ConvertedHasNoCarriageReturn(s);
    ConvertKeepsTextWithoutCarriageReturn(ConvertLineSeparators(s));
  }

  function Max(a: int, b: int): int {
    if a >= b then a else b
  }

  function Min(a: int, b: int): int {
    if a <= b then a else b
  }

  predicate EndsWithNewLine(s: string) {
    |s| > 0 && s[|s| - 1] == '\n'
  }

  /** The history after one input entry: the prompt, the text, and a line break unless the text ends with one. */
  function HistoryAfterEntry(history: string, prompt: string, text: string): string {
    history + prompt + text + (if EndsWithNewLine(text) then "" else "\n")
  }

  /**
   * After an entry the history ends with a line break, keeps what it had, and holds the prompt
   * and then the text right after it.
   */
  lemma EntryLayout(history: string, prompt: string, text: string)
    ensures var h := HistoryAfterEntry(history, prompt, text);
            var p := |history|;
            var t := p + |prompt|;
            EndsWithNewLine(h) && h[..p] == history && h[p..t] == prompt
            && t + |text| <= |h| && h[t..t + |text|] == text
            && |h| == t + |text| + (if EndsWithNewLine(text) then 0 else 1)
  {
    var h := HistoryAfterEntry(history, prompt, text);
    assert h == history + prompt + text + (if EndsWithNewLine(text) then "" else "\n");
    var p := |history|;
    var t := p + |prompt|;
    assert h[p..t] == prompt;
    assert h[t..t + |text|] == text;
  }

  /**
   * The highlighters the lexer loop adds, from token i on: each token that ends at or after the
   * range start is clipped to the range and shifted by `offset - rangeStart`; the loop stops at the
   * first token that starts after the range end.
   */
  function TokenHighlights(tokens: seq<Token>, i: nat, rangeStart: int, rangeEnd: int, offset: int): seq<Highlighter>
    requires i <= |tokens|
    decreases |tokens| - i
  {
    if i == |tokens| || tokens[i].start > rangeEnd then []
    else
      var t := tokens[i];
      var rest := TokenHighlights(tokens, i + 1, rangeStart, rangeEnd, offset);
      if t.end >= rangeStart then
        [Highlighter(Max(t.start, rangeStart) - rangeStart + offset, Min(t.end, rangeEnd) - rangeStart + offset,
                     Syntax, t.attributes, ExactRange, false)] + rest
      else rest
  }

  /** Every token highlighter lies within where the text landed and is not inverted. */
  lemma {:induction false} TokenHighlightsInsideText(tokens: seq<Token>, i: nat, rangeStart: int, rangeEnd: int, offset: int)
    requires i <= |tokens| && rangeStart <= rangeEnd
    requires forall k :: i <= k < |tokens| ==> tokens[k].start <= tokens[k].end
    ensures forall h :: h in TokenHighlights(tokens, i, rangeStart, rangeEnd, offset) ==>
      offset <= h.start <= h.end <= offset + (rangeEnd - rangeStart) && h.layer == Syntax && h.targetArea == ExactRange
    decreases |tokens| - i
  {
    if i < |tokens| && tokens[i].start <= rangeEnd {
      TokenHighlightsInsideText(tokens, i + 1, rangeStart, rangeEnd, offset);
    }
  }

  /** Tokens ending before the range add nothing; the first token starting after the range ends the loop. */
  lemma TokenHighlightsSkipAndStop(tokens: seq<Token>, i: nat, rangeStart: int, rangeEnd: int, offset: int)
    requires i < |tokens|
    ensures tokens[i].start > rangeEnd ==> TokenHighlights(tokens, i, rangeStart, rangeEnd, offset) == []
    ensures tokens[i].start <= rangeEnd && tokens[i].end < rangeStart ==>
      TokenHighlights(tokens, i, rangeStart, rangeEnd, offset) == TokenHighlights(tokens, i + 1, rangeStart, rangeEnd, offset)
  {
  }

  /**
   * duplicateHighlighters for one highlighter: clipped to the range and shifted by offset, keeping
   * its layer, attributes, target area and after-end-of-line flag; None when the clipped start
   * exceeds the clipped end.
   */
  function Duplicate(h: Highlighter, rangeStart: int, rangeEnd: int, offset: int): Option<Highlighter> {
    var start := Max(h.start, rangeStart) - rangeStart;
    var end := Min(h.end, rangeEnd) - rangeStart;
    if start > end then None
    else Some(Highlighter(start + offset, end + offset, h.layer, h.attributes, h.targetArea, h.afterEndOfLine))
  }

  /** A highlighter is copied exactly when it overlaps or touches the range, and its copy lies within the shifted range. */
  lemma DuplicateClipsToRange(h: Highlighter, rangeStart: int, rangeEnd: int, offset: int)
    requires h.start <= h.end && rangeStart <= rangeEnd
    ensures Duplicate(h, rangeStart, rangeEnd, offset).Some? <==> h.start <= rangeEnd && h.end >= rangeStart
    ensures Duplicate(h, rangeStart, rangeEnd, offset).Some? ==>
      var d := Duplicate(h, rangeStart, rangeEnd, offset).value;
      offset <= d.start <= d.end <= offset + (rangeEnd - rangeStart)
      && d.layer == h.layer && d.attributes == h.attributes && d.targetArea == h.targetArea
      && d.afterEndOfLine == h.afterEndOfLine
  {
  }

  /** A highlighter inside the range keeps its extent, shifted by offset - rangeStart. */
  lemma DuplicateInsideRangeShifts(h: Highlighter, rangeStart: int, rangeEnd: int, offset: int)
    requires rangeStart <= h.start <= h.end <= rangeEnd
    ensures Duplicate(h, rangeStart, rangeEnd, offset)
      == Some(h.(start := h.start - rangeStart + offset, end := h.end - rangeStart + offset))
  {
  }

  /** The copies duplicateHighlighters adds, in the order of the source markup model. */
  function Duplicates(from: seq<Highlighter>, rangeStart: int, rangeEnd: int, offset: int): seq<Highlighter>
  {
    if |from| == 0 then []
    else
      var d := Duplicate(from[|from| - 1], rangeStart, rangeEnd, offset);
      Duplicates(from[..|from| - 1], rangeStart, rangeEnd, offset) + (if d.Some? then [d.value] else [])
  }

  /** Every copy lies within where the text landed, and no more copies are made than there are highlighters. */
  lemma {:induction false} DuplicatesInsideText(from: seq<Highlighter>, rangeStart: int, rangeEnd: int, offset: int)
    requires rangeStart <= rangeEnd
    requires forall k :: 0 <= k < |from| ==> from[k].start <= from[k].end
    ensures |Duplicates(from, rangeStart, rangeEnd, offset)| <= |from|
    ensures forall d :: d in Duplicates(from, rangeStart, rangeEnd, offset) ==>
      offset <= d.start <= d.end <= offset + (rangeEnd - rangeStart)
    decreases |from|
  {
    if |from| > 0 {
      DuplicatesInsideText(from[..|from| - 1], rangeStart, rangeEnd, offset);
      DuplicateClipsToRange(from[|from| - 1], rangeStart, rangeEnd, offset);
    }
  }

  class LanguageConsole {
    /** The history viewer's document and markup model, and its caret offset. */
    var history: string
    var historyMarkup: seq<Highlighter>
    var historyCaret: int
    /** The input editor's document, its document markup model and its editor markup model. */
    var consoleText: string
    var consoleDocumentMarkup: seq<Highlighter>
    var consoleEditorMarkup: seq<Highlighter>
    var prompt: string
    /** The prefix text the input editor shows before the input. */
    var inputPrefix: string
    /** The UI update runnable, identified by number. */
    var uiUpdateRunnable: Option<int>
    /** Whether a full editor is open (myFullEditor != null), and the history's horizontal scroll bar. */
    var fullEditorOpen: bool
    var historyHorizontalScrollbar: bool
    /** myForceScrollToEnd, and whether a UI update is waiting in the merging queue. */
    var forceScrollToEnd: bool
    var updateQueued: bool

    constructor ()
      ensures history == "" && historyMarkup == [] && historyCaret == 0
      ensures consoleText == "" && consoleDocumentMarkup == [] && consoleEditorMarkup == []
      ensures prompt == DefaultPrompt && inputPrefix == DefaultPrompt && uiUpdateRunnable == None && !fullEditorOpen && !historyHorizontalScrollbar
      ensures !forceScrollToEnd && !updateQueued
    {
      history := "";
      historyMarkup := [];
      historyCaret := 0;
      consoleText := "";
      consoleDocumentMarkup := [];
      consoleEditorMarkup := [];
      prompt := DefaultPrompt;
      inputPrefix := DefaultPrompt;
      uiUpdateRunnable := None;
      fullEditorOpen := false;
      historyHorizontalScrollbar := false;
      forceScrollToEnd := false;
      updateQueued := false;
    }

    /** shouldScrollHistoryToEnd: the history caret is at the end of the history. */
    predicate ShouldScrollHistoryToEnd()
      reads this
    {
      historyCaret == |history|
    }

    /** setPrompt: the next history entries start with the new prompt, which the input editor also shows as its prefix. */
    method SetPrompt(p: string)
      modifies this
      ensures prompt == p && inputPrefix == p
      ensures history == old(history) && historyMarkup == old(historyMarkup) && consoleText == old(consoleText)
    {
      prompt := p;
      inputPrefix := p;
    }

    /** setUiUpdateRunnable: the runnable can be set only once; a second call fails its assertion. */
    method SetUiUpdateRunnable(r: int) returns (assertionFailed: bool)
      modifies this
      ensures assertionFailed <==> old(uiUpdateRunnable).Some?
      ensures uiUpdateRunnable == if assertionFailed then old(uiUpdateRunnable) else Some(r)
    {
      if uiUpdateRunnable.Some? {
        return true;
      }
      uiUpdateRunnable := Some(r);
      return false;
    }

    /**
     * setFullEditorMode: nothing happens when the console is already in the requested mode. Otherwise
     * leaving closes the full editor, and entering opens one (`editorReturned` says whether the file editor
     * manager returned an editor); the history's horizontal scroll bar shows in full editor mode.
     */
    method SetFullEditorMode(fullEditorMode: bool, editorReturned: bool)
      modifies this
      ensures old(fullEditorOpen) == fullEditorMode ==>
        fullEditorOpen == old(fullEditorOpen) && historyHorizontalScrollbar == old(historyHorizontalScrollbar)
      ensures old(fullEditorOpen) != fullEditorMode ==>
        fullEditorOpen == (fullEditorMode && editorReturned) && historyHorizontalScrollbar == fullEditorMode
      ensures history == old(history) && historyMarkup == old(historyMarkup) && consoleText == old(consoleText)
    {
      if fullEditorOpen == fullEditorMode {
        return;
      }
      if !fullEditorMode {
        fullEditorOpen := false;
        historyHorizontalScrollbar := false;
      } else {
        fullEditorOpen := editorReturned;
        historyHorizontalScrollbar := true;
      }
    }

    /** queueUiUpdate: a forced scroll stays requested until the queued update consumes it. */
    method QueueUiUpdate(force: bool)
      modifies this
      ensures forceScrollToEnd == (old(forceScrollToEnd) || force) && updateQueued
      ensures history == old(history) && historyMarkup == old(historyMarkup) && historyCaret == old(historyCaret)
      ensures consoleText == old(consoleText) && prompt == old(prompt) && uiUpdateRunnable == old(uiUpdateRunnable)
      ensures consoleDocumentMarkup == old(consoleDocumentMarkup) && consoleEditorMarkup == old(consoleEditorMarkup)
      ensures fullEditorOpen == old(fullEditorOpen) && historyHorizontalScrollbar == old(historyHorizontalScrollbar)
    {
      if !forceScrollToEnd {
        forceScrollToEnd := force;
      }
      updateQueued := true;
    }

    /**
     * The queued update when it runs: nothing once the console is disposed; otherwise it takes and
     * clears the forced-scroll flag for updateSizes and hands back the UI update runnable to run.
     */
    method RunQueuedUpdate(disposed: bool) returns (scrollToEnd: bool, run: Option<int>)
      requires updateQueued
      modifies this
      ensures !updateQueued
      ensures disposed ==> !scrollToEnd && run == None && forceScrollToEnd == old(forceScrollToEnd)
      ensures !disposed ==> scrollToEnd == old(forceScrollToEnd) && !forceScrollToEnd && run == uiUpdateRunnable
      ensures uiUpdateRunnable == old(uiUpdateRunnable) && history == old(history) && historyMarkup == old(historyMarkup)
    {
      updateQueued := false;
      if disposed {
        return false, None;
      }
      scrollToEnd := forceScrollToEnd;
      forceScrollToEnd := false;
      run := uiUpdateRunnable;
    }

    /**
     * printToHistory: appends the text, with its line separators converted, at the end of the history
     * and highlights exactly the appended span; the update asks to scroll when the caret was at the end.
     */
    method PrintToHistory(text: string, attributes: Attributes)
      modifies this
      ensures var t := ConvertLineSeparators(text);
              history == old(history) + t
              && historyMarkup == old(historyMarkup) + [Highlighter(|old(history)|, |history|, Syntax, attributes, ExactRange, false)]
      ensures forceScrollToEnd == (old(forceScrollToEnd) || old(historyCaret) == |old(history)|) && updateQueued
      ensures consoleText == old(consoleText) && prompt == old(prompt) && historyCaret == old(historyCaret)
    {
      var converted := ConvertLineSeparators(text);
      var scrollToEnd := ShouldScrollHistoryToEnd();
      var offset := |history|;
      history := history + converted;
      historyMarkup := historyMarkup + [Highlighter(offset, |history|, Syntax, attributes, ExactRange, false)];
      QueueUiUpdate(scrollToEnd);
    }

    /** The lexer loop of addTextRangeToHistory, from the token the highlighter's iterator starts at. */
    method AddTokenHighlights(tokens: seq<Token>, startToken: nat, rangeStart: int, rangeEnd: int, offset: int)
      requires startToken <= |tokens|
      modifies this
      ensures historyMarkup == old(historyMarkup) + TokenHighlights(tokens, startToken, rangeStart, rangeEnd, offset)
      ensures history == old(history) && historyCaret == old(historyCaret) && consoleText == old(consoleText)
      ensures consoleDocumentMarkup == old(consoleDocumentMarkup) && consoleEditorMarkup == old(consoleEditorMarkup)
      ensures prompt == old(prompt) && forceScrollToEnd == old(forceScrollToEnd) && updateQueued == old(updateQueued)
    {
      var i := startToken;
      while i < |tokens|
        invariant startToken <= i <= |tokens|
        invariant old(historyMarkup) + TokenHighlights(tokens, startToken, rangeStart, rangeEnd, offset)
                  == historyMarkup + TokenHighlights(tokens, i, rangeStart, rangeEnd, offset)
        invariant history == old(history) && historyCaret == old(historyCaret) && consoleText == old(consoleText)
        invariant consoleDocumentMarkup == old(consoleDocumentMarkup) && consoleEditorMarkup == old(consoleEditorMarkup)
        invariant prompt == old(prompt) && forceScrollToEnd == old(forceScrollToEnd) && updateQueued == old(updateQueued)
      {
        var itStart := tokens[i].start;
        if itStart > rangeEnd {
          break;
        }
        var itEnd := tokens[i].end;
        if itEnd >= rangeStart {
          var start := Max(itStart, rangeStart) - rangeStart + offset;
          var end := Min(itEnd, rangeEnd) - rangeStart + offset;
          var h := Highlighter(start, end, Syntax, tokens[i].attributes, ExactRange, false);
          assert TokenHighlights(tokens, i, rangeStart, rangeEnd, offset)
              == [h] + TokenHighlights(tokens, i + 1, rangeStart, rangeEnd, offset);
          historyMarkup := historyMarkup + [h];
        }
        i := i + 1;
      }
    }

    /** duplicateHighlighters: copies the overlapping highlighters of `from` into the history markup. */
    method DuplicateHighlighters(from: seq<Highlighter>, offset: int, rangeStart: int, rangeEnd: int)
      modifies this
      ensures historyMarkup == old(historyMarkup) + Duplicates(from, rangeStart, rangeEnd, offset)
      ensures history == old(history) && historyCaret == old(historyCaret) && consoleText == old(consoleText)
      ensures consoleDocumentMarkup == old(consoleDocumentMarkup) && consoleEditorMarkup == old(consoleEditorMarkup)
      ensures prompt == old(prompt) && forceScrollToEnd == old(forceScrollToEnd) && updateQueued == old(updateQueued)
    {
      var i := 0;
      while i < |from|
        invariant 0 <= i <= |from|
        invariant historyMarkup == old(historyMarkup) + Duplicates(from[..i], rangeStart, rangeEnd, offset)
        invariant history == old(history) && historyCaret == old(historyCaret) && consoleText == old(consoleText)
        invariant consoleDocumentMarkup == old(consoleDocumentMarkup) && consoleEditorMarkup == old(consoleEditorMarkup)
        invariant prompt == old(prompt) && forceScrollToEnd == old(forceScrollToEnd) && updateQueued == old(updateQueued)
      {
        var h := from[i];
        var start := Max(h.start, rangeStart) - rangeStart;
        var end := Min(h.end, rangeEnd) - rangeStart;
        assert from[..i + 1][..i] == from[..i];
        if start <= end {
          historyMarkup := historyMarkup + [Highlighter(start + offset, end + offset, h.layer, h.attributes, h.targetArea, h.afterEndOfLine)];
        }
        i := i + 1;
      }
      assert from[..i] == from;
    }

    /**
     * addTextRangeToHistory: appends the prompt (highlighted as user input over exactly its span), the
     * text of the range, the range's lexer highlighting and, with preserveMarkup, its document and
     * editor markup shifted to where the text landed, and a line break unless the text ends with one.
     */
    method AddTextRangeToHistory(rangeStart: int, rangeEnd: int, tokens: seq<Token>, startToken: nat, preserveMarkup: bool)
      returns (text: string)
      requires 0 <= rangeStart <= rangeEnd <= |consoleText| && startToken <= |tokens|
      modifies this
      ensures text == old(consoleText)[rangeStart..rangeEnd]
      ensures history == HistoryAfterEntry(old(history), prompt, text)
      ensures var p := |old(history)|;
              var offset := p + |prompt|;
              historyMarkup == old(historyMarkup)
                + [Highlighter(p, offset, Syntax, UserInput, ExactRange, false)]
                + TokenHighlights(tokens, startToken, rangeStart, rangeEnd, offset)
                + (if preserveMarkup
                   then Duplicates(consoleDocumentMarkup, rangeStart, rangeEnd, offset)
                        + Duplicates(consoleEditorMarkup, rangeStart, rangeEnd, offset)
                   else [])
      ensures consoleText == old(consoleText) && prompt == old(prompt) && historyCaret == old(historyCaret)
      ensures consoleDocumentMarkup == old(consoleDocumentMarkup) && consoleEditorMarkup == old(consoleEditorMarkup)
      ensures forceScrollToEnd == old(forceScrollToEnd) && updateQueued == old(updateQueued)
    {
      history := history + prompt;
      historyMarkup := historyMarkup + [Highlighter(|history| - |prompt|, |history|, Syntax, UserInput, ExactRange, false)];
      text := consoleText[rangeStart..rangeEnd];
      history := history + text;
      var offset := |history| - |text|;
      AddTokenHighlights(tokens, startToken, rangeStart, rangeEnd, offset);
      if preserveMarkup {
        DuplicateHighlighters(consoleDocumentMarkup, offset, rangeStart, rangeEnd);
        DuplicateHighlighters(consoleEditorMarkup, offset, rangeStart, rangeEnd);
      }
      if !EndsWithNewLine(text) {
        history := history + "\n";
      }
    }

    /**
     * addCurrentToHistory: moves the range's text into the history, deleting exactly that range from
     * the input document when `erase` is set, and queues an update that scrolls when the history caret
     * was at the end before.
     */
    method AddCurrentToHistory(rangeStart: int, rangeEnd: int, erase: bool, preserveMarkup: bool, tokens: seq<Token>, startToken: nat)
      returns (text: string)
      requires 0 <= rangeStart <= rangeEnd <= |consoleText| && startToken <= |tokens|
      modifies this
      ensures text == old(consoleText)[rangeStart..rangeEnd]
      ensures history == HistoryAfterEntry(old(history), old(prompt), text)
      ensures erase ==> consoleText == old(consoleText)[..rangeStart] + old(consoleText)[rangeEnd..]
      ensures !erase ==> consoleText == old(consoleText)
      ensures forceScrollToEnd == (old(forceScrollToEnd) || old(historyCaret) == |old(history)|) && updateQueued
    {
      var scrollToEnd := ShouldScrollHistoryToEnd();
      text := AddTextRangeToHistory(rangeStart, rangeEnd, tokens, startToken, preserveMarkup);
      if erase {
        consoleText := consoleText[..rangeStart] + consoleText[rangeEnd..];
      }
      QueueUiUpdate(scrollToEnd);
    }
  }

  /**
   * Erasing after moving to the history puts back together: the input before the range, the text
   * moved into the history, and the input after it make up the old input.
   */
  lemma EraseRemovesExactlyTheRange(consoleText: string, rangeStart: int, rangeEnd: int)
    requires 0 <= rangeStart <= rangeEnd <= |consoleText|
    ensures var rest := consoleText[..rangeStart] + consoleText[rangeEnd..];
            |rest| == |consoleText| - (rangeEnd - rangeStart)
            && rest[..rangeStart] + consoleText[rangeStart..rangeEnd] + rest[rangeStart..] == consoleText
  {
    var rest := consoleText[..rangeStart] + consoleText[rangeEnd..];
    assert rest[..rangeStart] == consoleText[..rangeStart];
    assert rest[rangeStart..] == consoleText[rangeEnd..];
  }
}
