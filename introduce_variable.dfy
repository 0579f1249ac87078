/**
 * IntroduceVariableBase: the decision rules of the Introduce Variable
 * refactoring. The caret offset is corrected to point into the expression the
 * user means; the enclosing expressions are collected innermost first; a
 * selection inside a string literal is turned into a complete literal with the
 * quotes and concatenations it needs; the replacement text around the new
 * variable's reference is assembled; the dialog's choice becomes the settings;
 * and an occurrence in a loop condition is checked against variables the loop
 * modifies.
 *
 * Character.isJavaIdentifierPart, Integer.parseInt and
 * StringUtil.stripQuotesAroundValue(..).trim() being empty are parameters.
 */
module IntroduceVariable {
  import opened Wrappers

  /** CharSequence.charAt outside the text. */
  datatype IndexOutOfBounds = StringIndexOutOfBounds(index: int)

  /** The character at `i` is read within the text. */
  predicate InText(text: string, i: int) {
    0 <= i < |text|
  }

  /**
   * The caret offset correction of collectExpressions as written: an offset at the end moves to the
   * last character, a non-identifier character steps back one, a negative result reverts; then a ';'
   * steps back one more and anything but ')' reverts. Err when a character outside the text is read.
   */
  function CorrectOffsetAsWritten(text: string, offset: int, isIdentifierPart: char -> bool): Result<int, IndexOutOfBounds>
    requires 0 <= offset <= |text|
  {
    var c := if offset >= |text| then |text| - 1 else if !isIdentifierPart(text[offset]) then offset - 1 else offset;
    if c < 0 then Ok(offset)
    else if !isIdentifierPart(text[c]) then
      var c2 := if text[c] == ';' then c - 1 else c;
      if !InText(text, c2) then Err(StringIndexOutOfBounds(c2))
      else if text[c2] != ')' then Ok(offset)
      else Ok(c2)
    else Ok(c)
  }

  /** A document ";" with the caret at its end: the ';' step reads the character at -1. */
  lemma CorrectOffsetAsWrittenFailsAfterLeadingSemicolon(isIdentifierPart: char -> bool)
    requires !isIdentifierPart(';')
    ensures CorrectOffsetAsWritten(";", 1, isIdentifierPart) == Err(StringIndexOutOfBounds(-1))
    ensures CorrectOffsetAsWritten(";;", 1, isIdentifierPart) == Err(StringIndexOutOfBounds(-1))
  {
  }

  /**
   * The corrected offset correction: as written, but a ';' at the start of the text reverts to the
   * original offset, as a negative offset does after the first step. The result is the original
   * offset or points at an identifier part or at ')'.
   */
  function CorrectOffset(text: string, offset: int, isIdentifierPart: char -> bool): (r: int)
    requires 0 <= offset <= |text|
    ensures r == offset || (InText(text, r) && (isIdentifierPart(text[r]) || text[r] == ')'))
  {
    var c := if offset >= |text| then |text| - 1 else if !isIdentifierPart(text[offset]) then offset - 1 else offset;
    if c < 0 then offset
    else if !isIdentifierPart(text[c]) then
      var c2 := if text[c] == ';' then c - 1 else c;
      if c2 < 0 || text[c2] != ')' then offset
      else c2
    else c
  }

  /** The corrected offset agrees with the code as written wherever that reads only within the text. */
  lemma CorrectOffsetAgreesWhereDefined(text: string, offset: int, isIdentifierPart: char -> bool)
    requires 0 <= offset <= |text|
    requires CorrectOffsetAsWritten(text, offset, isIdentifierPart).Ok?
    ensures CorrectOffsetAsWritten(text, offset, isIdentifierPart).value == CorrectOffset(text, offset, isIdentifierPart)
  {
  }

  /** A caret right after an identifier, or right after `)` followed by ';', lands on that character. */
  lemma CorrectOffsetSteps(text: string, offset: int, isIdentifierPart: char -> bool)
    requires 0 < offset <= |text|
    ensures offset < |text| && !isIdentifierPart(text[offset]) && isIdentifierPart(text[offset - 1]) ==>
      CorrectOffset(text, offset, isIdentifierPart) == offset - 1
    ensures offset == |text| && isIdentifierPart(text[offset - 1]) ==> CorrectOffset(text, offset, isIdentifierPart) == offset - 1
    ensures offset >= 2 && offset == |text| && text[offset - 1] == ';' && text[offset - 2] == ')' && !isIdentifierPart(';') ==>
      CorrectOffset(text, offset, isIdentifierPart) == offset - 2
  {
  }

  datatype ExprKind =
    | Parenthesized
    | SuperExpr
    | Assignment
    | Reference(parentIsMethodCall: bool, resolvesToClass: bool)
    | OtherExpression

  /** A PSI expression: its identity, its kind, and whether its type is void. */
  datatype Expr = Expr(id: int, kind: ExprKind, isVoid: bool)

  /** Whether collectExpressions offers an expression. */
  predicate Offered(e: Expr) {
    !e.kind.Parenthesized? && !e.kind.SuperExpr? && !e.isVoid && !e.kind.Assignment?
    && !(e.kind.Reference? && (e.kind.parentIsMethodCall || e.kind.resolvesToClass))
  }

  /** The expressions offered from an ancestor chain, innermost first, each once. */
  function Collected(chain: seq<Expr>): seq<Expr> {
    if |chain| == 0 then []
    else
      var acc := Collected(chain[..|chain| - 1]);
      var e := chain[|chain| - 1];
      if e !in acc && Offered(e) then acc + [e] else acc
  }

  predicate NoDuplicates(es: seq<Expr>) {
    forall i, j :: 0 <= i < j < |es| ==> es[i] != es[j]
  }

  /** Exactly the offered ancestors are collected, and none twice. */
  lemma {:induction false} CollectedMembers(chain: seq<Expr>)
    ensures forall e :: e in Collected(chain) <==> e in chain && Offered(e)
    ensures NoDuplicates(Collected(chain))
    decreases |chain|
  {
    if |chain| > 0 {
      var init := chain[..|chain| - 1];
      CollectedMembers(init);
      assert chain == init + [chain[|chain| - 1]];
    }
  }

  /**
   * What the walk collects up to an ancestor is what it collects from the whole chain up to that
   * point, so inner expressions come before the expressions enclosing them.
   */
  lemma {:induction false} CollectedInChainOrder(chain: seq<Expr>, k: nat)
    requires k <= |chain|
    ensures Collected(chain[..k]) <= Collected(chain)
    decreases |chain| - k
  {
    if k < |chain| {
      CollectedInChainOrder(chain, k + 1);
      assert chain[..k + 1][..k] == chain[..k];
    } else {
      assert chain[..k] == chain;
    }
  }

  /**
   * collectExpressions: corrects the caret offset step by step and walks the expression ancestors of
   * the element there, from the innermost, keeping each offered expression once.
   */
  method CollectExpressions(text: string, offset: int, isIdentifierPart: char -> bool, ancestorsAt: int -> seq<Expr>)
    returns (correctedOffset: int, expressions: seq<Expr>)
    requires 0 <= offset <= |text|
    ensures correctedOffset == CorrectOffset(text, offset, isIdentifierPart)
    ensures expressions == Collected(ancestorsAt(correctedOffset))
  {
    correctedOffset := offset;
    var textLength := |text|;
    if offset >= textLength {
      correctedOffset := textLength - 1;
    } else if !isIdentifierPart(text[offset]) {
      correctedOffset := correctedOffset - 1;
    }
    if correctedOffset < 0 {
      correctedOffset := offset;
    } else if !isIdentifierPart(text[correctedOffset]) {
      if text[correctedOffset] == ';' {
        correctedOffset := correctedOffset - 1;
      }
      if correctedOffset < 0 || text[correctedOffset] != ')' {
        correctedOffset := offset;
      }
    }
    var chain := ancestorsAt(correctedOffset);
    expressions := [];
    var i := 0;
    while i < |chain|
      invariant 0 <= i <= |chain|
      invariant expressions == Collected(chain[..i])
    {
      assert chain[..i + 1][..i] == chain[..i];
      var expression := chain[i];
      if expression !in expressions && Offered(expression) {
        expressions := expressions + [expression];
      }
      i := i + 1;
    }
    assert chain[..i] == chain;
  }

  /** The text getSelectedExpression parses, with the prefix and suffix the replacement needs. */
  datatype Selected = Selected(text: string, prefix: Option<string>, suffix: Option<string>, stripped: string)

  predicate StartsWithQuote(s: string) {
    |s| > 0 && (s[0] == '"' || s[0] == '\'')
  }

  predicate EndsWithQuote(s: string) {
    |s| > 0 && (s[|s| - 1] == '"' || s[|s| - 1] == '\'')
  }

  /**
   * The quote fix-ups and the primitive check of getSelectedExpression. `startLiteral` is the start
   * offset of the literal around the selection's start, `endLiteral` the end offset of the literal
   * around its end; None when the selection is empty.
   */
  method SelectedText(fileText: string, startOffset: int, endOffset: int, startLiteral: Option<int>, endLiteral: Option<int>,
                      parsesAsInt: string -> bool)
    returns (r: Option<Selected>)
    requires 0 <= startOffset && endOffset <= |fileText|
    ensures endOffset <= startOffset <==> r.None?
    ensures r.Some? ==>
      var selection := fileText[startOffset..endOffset];
      var stripStart := startLiteral.Some? && startOffset == startLiteral.value && StartsWithQuote(selection);
      var afterStart := if stripStart then selection[1..] else selection;
      var stripEnd := endLiteral.Some? && endOffset == endLiteral.value && EndsWithQuote(afterStart);
      var stripped := if stripEnd then afterStart[..|afterStart| - 1] else afterStart;
      var quoteBefore := startLiteral.Some? && startOffset > startLiteral.value;
      var quoteAfter := endLiteral.Some? && endOffset < endLiteral.value;
      var primitive := stripped == "true" || stripped == "false" || parsesAsInt(stripped);
      r.value.stripped == stripped
      && r.value.text == (if primitive then stripped
                          else (if quoteBefore then "\"" else "") + selection + (if quoteAfter then "\"" else ""))
      && r.value.prefix == (if startLiteral.Some? && startOffset > startLiteral.value + 1 then Some("\" + ") else None)
      && r.value.suffix == (if endLiteral.Some? && endOffset < endLiteral.value - 1 then Some(" + \"") else None)
  {
    if endOffset <= startOffset {
      return None;
    }
    var text := fileText[startOffset..endOffset];
    var prefix: Option<string> := None;
    var suffix: Option<string> := None;
    var stripped := text;
    if startLiteral.Some? {
      var startExpressionOffset := startLiteral.value;
      if startOffset == startExpressionOffset {
        if StartsWithQuote(text) {
          stripped := text[1..];
        }
      } else if startOffset == startExpressionOffset + 1 {
        text := "\"" + text;
      } else if startOffset > startExpressionOffset + 1 {
        prefix := Some("\" + ");
        text := "\"" + text;
      }
    }
    if endLiteral.Some? {
      var endExpressionOffset := endLiteral.value;
      if endOffset == endExpressionOffset {
        if EndsWithQuote(stripped) {
          stripped := stripped[..|stripped| - 1];
        }
      } else if endOffset == endExpressionOffset - 1 {
        text := text + "\"";
      } else if endOffset < endExpressionOffset - 1 {
        suffix := Some(" + \"");
        text := text + "\"";
      }
    }
    var primitive := false;
    if stripped == "true" || stripped == "false" {
      primitive := true;
    } else if parsesAsInt(stripped) {
      primitive := true;
    }
    if primitive {
      text := stripped;
    }
    return Some(Selected(text, prefix, suffix, stripped));
  }

  /**
   * The text createReplacement builds around the reference, and where the reference starts in it.
   * The parent's text before and after the range is dropped when it is blank once its quotes are
   * stripped and no prefix (suffix) is needed.
   */
  function ReplacementText(allText: string, parentStart: int, parentEnd: int, rangeStart: int, rangeEnd: int,
                           refText: string, prefix: Option<string>, suffix: Option<string>,
                           blankWithoutQuotes: string -> bool): (r: (string, int))
    requires 0 <= parentStart <= rangeStart <= rangeEnd <= parentEnd <= |allText|
    ensures 0 <= r.1 <= |r.0| - |refText| && r.0[r.1..r.1 + |refText|] == refText
  {
    var beg0 := allText[parentStart..rangeStart];
    var beg := if blankWithoutQuotes(beg0) && prefix.None? then "" else beg0;
    var end0 := allText[rangeEnd..parentEnd];
    var end := if blankWithoutQuotes(end0) && suffix.None? then "" else end0;
    var start := beg + (if prefix.Some? then prefix.value else "");
    var text := start + refText + (if suffix.Some? then suffix.value else "") + end;
    assert text[|start|..|start| + |refText|] == refText;
    (text, |start|)
  }

  /**
   * createReplacement: with a parent, the text around the range is kept and refIdx[0] is set to where
   * the reference starts; without one, the text is the reference alone and refIdx is untouched.
   */
  method CreateReplacement(refText: string, prefix: Option<string>, suffix: Option<string>, allText: string,
                           parentRange: Option<(int, int)>, rangeStart: int, rangeEnd: int,
                           blankWithoutQuotes: string -> bool, refIdx: array<int>)
    returns (text: string)
    requires refIdx.Length >= 1
    requires parentRange.Some? ==> 0 <= parentRange.value.0 <= rangeStart <= rangeEnd <= parentRange.value.1 <= |allText|
    modifies refIdx
    ensures parentRange.None? ==> text == refText && refIdx[..] == old(refIdx[..])
    ensures parentRange.Some? ==>
      var r := ReplacementText(allText, parentRange.value.0, parentRange.value.1, rangeStart, rangeEnd,
                               refText, prefix, suffix, blankWithoutQuotes);
      text == r.0 && refIdx[..] == old(refIdx[..])[0 := r.1]
  {
    text := refText;
    if parentRange.Some? {
      var beg := allText[parentRange.value.0..rangeStart];
      if blankWithoutQuotes(beg) && prefix.None? {
        beg := "";
      }
      var end := allText[rangeEnd..parentRange.value.1];
      if blankWithoutQuotes(end) && suffix.None? {
        end := "";
      }
      var start := beg + (if prefix.Some? then prefix.value else "");
      refIdx[0] := |start|;
      text := start + refText + (if suffix.Some? then suffix.value else "") + end;
    }
  }

  /**
   * A selection strictly inside a string literal splits it: the literal before the selection, the
   * reference, and the literal after it, joined with concatenations.
   */
  lemma SplitLiteralReplacement(before: string, selection: string, after: string, refText: string,
                                blankWithoutQuotes: string -> bool)
    requires !blankWithoutQuotes("\"" + before) && !blankWithoutQuotes(after + "\"")
    ensures var allText := "\"" + before + selection + after + "\"";
            var rangeStart := 1 + |before|;
            var rangeEnd := rangeStart + |selection|;
            ReplacementText(allText, 0, |allText|, rangeStart, rangeEnd, refText, Some("\" + "), Some(" + \""), blankWithoutQuotes).0
              == "\"" + before + "\" + " + refText + " + \"" + after + "\""
  {
    var allText := "\"" + before + selection + after + "\"";
    var rangeStart := 1 + |before|;
    var rangeEnd := rangeStart + |selection|;
    assert allText[0..rangeStart] == "\"" + before;
    assert allText[rangeEnd..|allText|] == after + "\"";
  }

  /** The same literal's selection gets the prefix and the suffix of the split. */
  lemma SplitLiteralSelection(before: string, selection: string, after: string)
    requires |before| > 0 && |after| > 0
    ensures var literalStart := 0;
            var literalEnd := |"\"" + before + selection + after + "\""|;
            var startOffset := 1 + |before|;
            var endOffset := startOffset + |selection|;
            startOffset > literalStart + 1 && endOffset < literalEnd - 1
  {
  }

  datatype ReplaceChoice = No | NoWrite | All

  datatype Settings = Settings(enteredName: string, replaceAll: bool, declareFinal: bool, replaceWrite: bool)

  /** createFinals: the refactoring's own setting when set, else the code style's. */
  function CreateFinals(introduceLocalCreateFinals: Option<bool>, generateFinalLocals: bool): bool {
    if introduceLocalCreateFinals.Some? then introduceLocalCreateFinals.value else generateFinalLocals
  }

  /** getSettings: the name is the first suggestion; the booleans follow from the choice. */
  function GetSettings(suggestedNames: seq<string>, declareFinalIfAll: bool, anyAssignmentLHS: bool,
                       replaceChoice: ReplaceChoice, createFinals: bool): Settings
    requires |suggestedNames| > 0
  {
    var replaceAll := replaceChoice == All || replaceChoice == NoWrite;
    Settings(suggestedNames[0], replaceAll,
             !anyAssignmentLHS && ((replaceAll && declareFinalIfAll) || createFinals),
             anyAssignmentLHS && replaceChoice == All)
  }

  /**
   * The settings never declare the variable final when write occurrences are replaced; replacing all
   * means ALL or NO_WRITE; writes are replaced only for ALL with an assignment target; an assignment
   * target rules out final.
   */
  lemma SettingsAreConsistent(suggestedNames: seq<string>, declareFinalIfAll: bool, anyAssignmentLHS: bool,
                              replaceChoice: ReplaceChoice, createFinals: bool)
    requires |suggestedNames| > 0
    ensures var s := GetSettings(suggestedNames, declareFinalIfAll, anyAssignmentLHS, replaceChoice, createFinals);
            !(s.declareFinal && s.replaceWrite)
            && (s.replaceAll <==> replaceChoice in {All, NoWrite})
            && (s.replaceWrite <==> anyAssignmentLHS && replaceChoice == All)
            && (anyAssignmentLHS ==> !s.declareFinal)
            && (!anyAssignmentLHS && createFinals ==> s.declareFinal)
            && s.enteredName == suggestedNames[0]
  {
  }

  datatype StatementKind = LoopStatement | IfStatement | OtherStatement

  /** isLoopOrIf. */
  predicate IsLoopOrIf(k: StatementKind) {
    k == LoopStatement || k == IfStatement
  }

  /** Keys of the conflicts multimap: variables and occurrences. */
  datatype Element = Variable(v: int) | Occurrence(o: int)

  datatype Conflict = ModifiedInLoopBody(variable: int) | MayBreakCodeLogic

  /** A MultiMap<PsiElement, String> of conflicts: putValue appends to the key's list. */
  class Conflicts {
    var values: map<Element, seq<Conflict>>

    constructor ()
      ensures values == map[]
    {
      values := map[];
    }

    function Get(k: Element): seq<Conflict>
      reads this
    {
      if k in values then values[k] else []
    }

    method PutValue(k: Element, c: Conflict)
      modifies this
      ensures values == old(values)[k := old(Get(k)) + [c]]
    {
      values := values[k := Get(k) + [c]];
    }
  }

  /** The map after putting the pairs in order. */
  function PutAll(m: map<Element, seq<Conflict>>, pairs: seq<(Element, Conflict)>): map<Element, seq<Conflict>> {
    if |pairs| == 0 then m
    else
      var m0 := PutAll(m, pairs[..|pairs| - 1]);
      var k := pairs[|pairs| - 1].0;
      m0[k := (if k in m0 then m0[k] else []) + [pairs[|pairs| - 1].1]]
  }

  /** The conflicts put for a key, in order. */
  function ConflictsFor(pairs: seq<(Element, Conflict)>, k: Element): seq<Conflict> {
    if |pairs| == 0 then []
    else ConflictsFor(pairs[..|pairs| - 1], k) + (if pairs[|pairs| - 1].0 == k then [pairs[|pairs| - 1].1] else [])
  }

  /** Putting pairs appends to each key exactly the conflicts paired with it, and touches no other key. */
  lemma {:induction false} PutAllAppends(m: map<Element, seq<Conflict>>, pairs: seq<(Element, Conflict)>, k: Element)
    ensures var r := PutAll(m, pairs);
            (k in r <==> k in m || ConflictsFor(pairs, k) != [])
            && (if k in r then r[k] else []) == (if k in m then m[k] else []) + ConflictsFor(pairs, k)
    decreases |pairs|
  {
    if |pairs| > 0 {
      PutAllAppends(m, pairs[..|pairs| - 1], k);
    }
  }

  /** The variables the loop modifies, in the order they are referenced. */
  function ModifiedIn(referenced: seq<int>, loop: int, isModifiedInScope: (int, int) -> bool): seq<int> {
    if |referenced| == 0 then []
    else ModifiedIn(referenced[..|referenced| - 1], loop, isModifiedInScope)
         + (if isModifiedInScope(referenced[|referenced| - 1], loop) then [referenced[|referenced| - 1]] else [])
  }

  /** The conflicts checkInLoopCondition puts: one per modified variable, then one for the occurrence. */
  function LoopConflicts(occurrence: int, modified: seq<int>): seq<(Element, Conflict)> {
    if |modified| == 0 then []
    else seq(|modified|, i requires 0 <= i < |modified| => (Variable(modified[i]), ModifiedInLoopBody(modified[i])))
         + [(Occurrence(occurrence), MayBreakCodeLogic)]
  }

  /** The occurrence gets exactly one conflict when some referenced variable is modified, none otherwise. */
  lemma {:induction false} OccurrenceConflicts(occurrence: int, modified: seq<int>)
    ensures ConflictsFor(LoopConflicts(occurrence, modified), Occurrence(occurrence))
      == (if |modified| == 0 then [] else [MayBreakCodeLogic])
  {
    if |modified| > 0 {
      var vs := LoopConflicts(occurrence, modified)[..|modified|];
      NoOccurrenceInVariables(vs, occurrence);
    }
  }

  lemma {:induction false} NoOccurrenceInVariables(pairs: seq<(Element, Conflict)>, occurrence: int)
    requires forall i :: 0 <= i < |pairs| ==> pairs[i].0.Variable?
    ensures ConflictsFor(pairs, Occurrence(occurrence)) == []
    decreases |pairs|
  {
    if |pairs| > 0 {
      NoOccurrenceInVariables(pairs[..|pairs| - 1], occurrence);
    }
  }

  /** A variable the loop does not modify gets no conflict. */
  lemma {:induction false} UnmodifiedVariableNoConflict(occurrence: int, modified: seq<int>, v: int)
    requires v !in modified
    ensures ConflictsFor(LoopConflicts(occurrence, modified), Variable(v)) == []
  {
    if |modified| > 0 {
      var ps := LoopConflicts(occurrence, modified);
      NotKeyNoConflict(ps, Variable(v));
    }
  }

  lemma {:induction false} NotKeyNoConflict(pairs: seq<(Element, Conflict)>, k: Element)
    requires forall i :: 0 <= i < |pairs| ==> pairs[i].0 != k
    ensures ConflictsFor(pairs, k) == []
    decreases |pairs|
  {
    if |pairs| > 0 {
      NotKeyNoConflict(pairs[..|pairs| - 1], k);
    }
  }

  /**
   * checkInLoopCondition: nothing outside a loop condition; otherwise the referenced variables the loop
   * modifies each get a conflict, and then the occurrence one.
   */
  method CheckInLoopCondition(occurrence: int, loopForLoopCondition: Option<int>, referencedVariables: seq<int>,
                              isModifiedInScope: (int, int) -> bool, conflicts: Conflicts)
    modifies conflicts
    ensures loopForLoopCondition.None? ==> conflicts.values == old(conflicts.values)
    ensures loopForLoopCondition.Some? ==>
      conflicts.values == PutAll(old(conflicts.values),
                                 LoopConflicts(occurrence, ModifiedIn(referencedVariables, loopForLoopCondition.value, isModifiedInScope)))
  {
    if loopForLoopCondition.None? {
      return;
    }
    var loop := loopForLoopCondition.value;
    var modifiedInBody := [];
    var i := 0;
    while i < |referencedVariables|
      invariant 0 <= i <= |referencedVariables|
      invariant modifiedInBody == ModifiedIn(referencedVariables[..i], loop, isModifiedInScope)
    {
      assert referencedVariables[..i + 1][..i] == referencedVariables[..i];
      if isModifiedInScope(referencedVariables[i], loop) {
        modifiedInBody := modifiedInBody + [referencedVariables[i]];
      }
      i := i + 1;
    }
    assert referencedVariables[..i] == referencedVariables;
    if modifiedInBody != [] {
      ghost var pairs := LoopConflicts(occurrence, modifiedInBody);
      var j := 0;
      while j < |modifiedInBody|
        invariant 0 <= j <= |modifiedInBody|
        invariant conflicts.values == PutAll(old(conflicts.values), pairs[..j])
      {
        assert pairs[..j + 1][..j] == pairs[..j];
        conflicts.PutValue(Variable(modifiedInBody[j]), ModifiedInLoopBody(modifiedInBody[j]));
        j := j + 1;
      }
      assert pairs[..j + 1][..j] == pairs[..j];
      conflicts.PutValue(Occurrence(occurrence), MayBreakCodeLogic);
      assert pairs[..j + 1] == pairs;
    }
  }
}
