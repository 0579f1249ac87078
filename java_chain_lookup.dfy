/**
 * JavaChainLookupElement: a completion item `qualifier.main` built from two
 * lookup elements. Its lookup string and presentation join the qualifier's and
 * the main element's texts with a dot, adding "()" after a method qualifier and
 * parentheses around a casting qualifier; equality ignores a casting decorator
 * on the qualifier; inserting it writes the qualifier, parenthesized when the
 * surrounding expression needs it, then a dot, then the main element.
 */
module JavaChainLookup {
  import opened Wrappers
  import JavaLang

  /**
   * A lookup element as far as chaining looks at it. `castingDelegate` is the
   * element a casting decorator wraps, when the element is one.
   */
  datatype LookupElement = LookupElement(
    id: int,
    lookupString: string,
    allLookupStrings: set<string>,
    objectIsMethod: bool,
    itemText: string,
    castingDelegate: Option<LookupElement>)

  datatype ChainElement = ChainElement(qualifier: LookupElement, main: LookupElement)

  /** maybeAddParentheses: "()" after the text of a method qualifier. */
  function MaybeAddParentheses(c: ChainElement, s: string): (r: string)
    ensures c.qualifier.objectIsMethod ==> r == s + "()"
    ensures !c.qualifier.objectIsMethod ==> r == s
  {
    if c.qualifier.objectIsMethod then s + "()" else s
  }

  /** getLookupString */
  function LookupString(c: ChainElement): string {
    MaybeAddParentheses(c, c.qualifier.lookupString) + "." + c.main.lookupString
  }

  /** The lookup string splits at the dot after the qualifier part into the qualifier's and the main element's strings. */
  lemma LookupStringParts(c: ChainElement)
    ensures var q := MaybeAddParentheses(c, c.qualifier.lookupString);
            var r := LookupString(c);
            |r| == |q| + 1 + |c.main.lookupString|
            && r[..|q|] == q && r[|q|] == '.' && r[|q| + 1..] == c.main.lookupString
            && JavaLang.StartsWith(r, c.qualifier.lookupString)
            && JavaLang.EndsWith(r, "." + c.main.lookupString)
  {
    var q := MaybeAddParentheses(c, c.qualifier.lookupString);
    var r := LookupString(c);
    assert r[..|c.qualifier.lookupString|] == q[..|c.qualifier.lookupString|];
    assert r[|r| - |"." + c.main.lookupString|..] == "." + c.main.lookupString;
  }

  /** Two chains with the same qualifier kind and main string differ in lookup string exactly when their qualifiers' strings do. */
  lemma LookupStringDeterminesQualifier(a: ChainElement, b: ChainElement)
    requires a.qualifier.objectIsMethod == b.qualifier.objectIsMethod
    requires a.main.lookupString == b.main.lookupString
    ensures LookupString(a) == LookupString(b) <==> a.qualifier.lookupString == b.qualifier.lookupString
  {
    if LookupString(a) == LookupString(b) {
      LookupStringParts(a);
      LookupStringParts(b);
      var qa := MaybeAddParentheses(a, a.qualifier.lookupString);
      assert LookupString(a)[..|qa|] == qa;
      assert a.qualifier.objectIsMethod ==> qa[..|a.qualifier.lookupString|] == a.qualifier.lookupString;
      var qb := MaybeAddParentheses(b, b.qualifier.lookupString);
      assert b.qualifier.objectIsMethod ==> qb[..|b.qualifier.lookupString|] == b.qualifier.lookupString;
    }
  }

  /** getAllLookupStrings: the main element's strings and the chain's own. */
  function AllLookupStrings(c: ChainElement): (r: set<string>)
    ensures forall s :: s in r <==> s in c.main.allLookupStrings || s == LookupString(c)
  {
    c.main.allLookupStrings + {LookupString(c)}
  }

  /** The qualifier part of the presentation: parenthesized when the qualifier is a casting decorator. */
  function QualifierText(c: ChainElement): string {
    var name := MaybeAddParentheses(c, c.qualifier.itemText);
    if c.qualifier.castingDelegate.Some? then "(" + name + ")" else name
  }

  /** The visagiste's item text: the qualifier's rendering, a dot, then the base presentation's text. */
  function PresentedItemText(c: ChainElement, baseItemText: string): string {
    QualifierText(c) + "." + baseItemText
  }

  /** The presentation ends with the base text after a dot, and a casting qualifier is enclosed in parentheses. */
  lemma PresentedItemTextParts(c: ChainElement, baseItemText: string)
    ensures var r := PresentedItemText(c, baseItemText);
            var name := MaybeAddParentheses(c, c.qualifier.itemText);
            JavaLang.EndsWith(r, "." + baseItemText)
            && (c.qualifier.castingDelegate.Some? ==>
                  r[0] == '(' && r[1..|name| + 1] == name && r[|name| + 1] == ')')
            && (c.qualifier.castingDelegate.None? ==> JavaLang.StartsWith(r, name))
  {
    var r := PresentedItemText(c, baseItemText);
    assert r[|r| - |"." + baseItemText|..] == "." + baseItemText;
    var name := MaybeAddParentheses(c, c.qualifier.itemText);
    if c.qualifier.castingDelegate.Some? {
      assert r == "(" + name + ")" + "." + baseItemText;
      assert r[1..|name| + 1] == name;
    } else {
      assert r[..|name|] == name;
    }
  }

  /** getComparableQualifier: the qualifier with a casting decorator stripped. */
  function ComparableQualifier(c: ChainElement): (r: LookupElement)
    ensures c.qualifier.castingDelegate.None? ==> r == c.qualifier
    ensures c.qualifier.castingDelegate.Some? ==> r == c.qualifier.castingDelegate.value
  {
    match c.qualifier.castingDelegate
    case Some(d) => d
    case None => c.qualifier
  }

  /** equals: the decorated main elements are equal and so are the comparable qualifiers. */
  predicate ChainEquals(a: ChainElement, b: ChainElement) {
    a.main == b.main && ComparableQualifier(a) == ComparableQualifier(b)
  }

  /** hashCode: 31 * the decorator's hash + the comparable qualifier's hash, in int arithmetic. */
  function ChainHashCode(c: ChainElement, hash: LookupElement -> int): int {
    JavaLang.Mul31Add(hash(c.main), hash(ComparableQualifier(c)))
  }

  /** equals is an equivalence and hashCode agrees with it, for any hash of the elements. */
  lemma EqualsIsAnEquivalence(a: ChainElement, b: ChainElement, c: ChainElement, hash: LookupElement -> int)
    ensures ChainEquals(a, a)
    ensures ChainEquals(a, b) ==> ChainEquals(b, a)
    ensures ChainEquals(a, b) && ChainEquals(b, c) ==> ChainEquals(a, c)
    ensures ChainEquals(a, b) ==> ChainHashCode(a, hash) == ChainHashCode(b, hash)
  {
  }

  /** A chain whose qualifier is a cast of another plain qualifier equals the chain without the cast. */
  lemma CastingIsIgnoredByEquals(q: LookupElement, castQ: LookupElement, main: LookupElement)
    requires q.castingDelegate.None?
    requires castQ.castingDelegate == Some(q)
    ensures ChainEquals(ChainElement(castQ, main), ChainElement(q, main))
    ensures castQ != q
  {
  }

  /** The kind of a PSI expression as shouldParenthesizeQualifier tells them apart. */
  datatype ExpressionKind = ReferenceExpression | MethodCallExpression | OtherExpression

  /** A PSI element: its text range and, for an expression, its kind. */
  datatype PsiNode = PsiNode(startOffset: int, endOffset: int, expression: Option<ExpressionKind>)

  predicate Fits(n: PsiNode, startOffset: int, endOffset: int) {
    n.startOffset >= startOffset && n.endOffset <= endOffset
  }

  /** How many elements, from the one at the start offset upward, lie inside the range. */
  function FittingCount(ancestors: seq<PsiNode>, startOffset: int, endOffset: int): (k: nat)
    ensures k <= |ancestors|
    ensures forall i :: 0 <= i < k ==> Fits(ancestors[i], startOffset, endOffset)
    ensures k < |ancestors| ==> !Fits(ancestors[k], startOffset, endOffset)
  {
    if |ancestors| == 0 || !Fits(ancestors[0], startOffset, endOffset) then 0
    else 1 + FittingCount(ancestors[1..], startOffset, endOffset)
  }

  /** PsiTreeUtil.getParentOfType(_, PsiExpression, false): the first expression from index i upward. */
  function FirstExpressionFrom(ancestors: seq<PsiNode>, i: nat): (r: Option<nat>)
    requires i <= |ancestors|
    ensures r.Some? ==> i <= r.value < |ancestors| && ancestors[r.value].expression.Some?
                        && forall j :: i <= j < r.value ==> ancestors[j].expression.None?
    ensures r.None? ==> forall j :: i <= j < |ancestors| ==> ancestors[j].expression.None?
    decreases |ancestors| - i
  {
    if i == |ancestors| then None
    else if ancestors[i].expression.Some? then Some(i)
    else FirstExpressionFrom(ancestors, i + 1)
  }

  /**
   * What shouldParenthesizeQualifier decides: `ancestors` is the element at the start offset
   * followed by its parents (empty when there is none). The last element inside the range
   * is the topmost fitting one, or the first element when none fits.
   */
  function ParenthesizeDecision(ancestors: seq<PsiNode>, startOffset: int, endOffset: int): bool {
    if |ancestors| == 0 then false
    else
      var k := FittingCount(ancestors, startOffset, endOffset);
      var last := if k == 0 then 0 else k - 1;
      var expr := FirstExpressionFrom(ancestors, last);
      if expr.None? || ancestors[expr.value].endOffset > endOffset then true
      else ancestors[expr.value].expression.value == OtherExpression
  }

  /**
   * No parentheses exactly when there is no element, or the expression around the qualifier
   * lies inside the range and is a reference or a method call.
   */
  lemma ParenthesizeDecisionCases(ancestors: seq<PsiNode>, startOffset: int, endOffset: int)
    requires |ancestors| > 0
    ensures var k := FittingCount(ancestors, startOffset, endOffset);
            var expr := FirstExpressionFrom(ancestors, if k == 0 then 0 else k - 1);
            !ParenthesizeDecision(ancestors, startOffset, endOffset) <==>
              expr.Some? && ancestors[expr.value].endOffset <= endOffset
              && ancestors[expr.value].expression.value in {ReferenceExpression, MethodCallExpression}
  {
  }

  /** A qualifier that is a whole reference or call inside the range needs no parentheses. */
  lemma {:induction false} FittingReferenceNeedsNoParentheses(ancestors: seq<PsiNode>, startOffset: int, endOffset: int)
    requires |ancestors| > 0 && Fits(ancestors[0], startOffset, endOffset)
    requires ancestors[0].expression == Some(ReferenceExpression)
    requires |ancestors| == 1 || !Fits(ancestors[1], startOffset, endOffset)
    ensures !ParenthesizeDecision(ancestors, startOffset, endOffset)
  {
    assert FittingCount(ancestors, startOffset, endOffset) == 1;
    assert FirstExpressionFrom(ancestors, 0) == Some(0);
  }

  /** shouldParenthesizeQualifier: the climb to the topmost element inside the range, then the expression test. */
  method ShouldParenthesizeQualifier(ancestors: seq<PsiNode>, startOffset: int, endOffset: int) returns (b: bool)
    ensures b == ParenthesizeDecision(ancestors, startOffset, endOffset)
  {
    if |ancestors| == 0 {
      return false;
    }
    var last := 0;
    var i := 0;
    while i < |ancestors| && ancestors[i].startOffset >= startOffset && ancestors[i].endOffset <= endOffset
      invariant 0 <= i <= FittingCount(ancestors, startOffset, endOffset)
      invariant last == (if i == 0 then 0 else i - 1)
    {
      last := i;
      i := i + 1;
    }
    assert i == FittingCount(ancestors, startOffset, endOffset);
    var j := last;
    while j < |ancestors| && ancestors[j].expression.None?
      invariant last <= j <= |ancestors|
      invariant FirstExpressionFrom(ancestors, j) == FirstExpressionFrom(ancestors, last)
    {
      j := j + 1;
    }
    if j == |ancestors| || ancestors[j].endOffset > endOffset {
      return true;
    }
    if ancestors[j].expression.value == ReferenceExpression || ancestors[j].expression.value == MethodCallExpression {
      return false;
    }
    return true;
  }

  /** The document being completed in. */
  class Document {
    var text: string

    constructor(text: string)
      ensures this.text == text
    {
      this.text := text;
    }

    method ReplaceString(startOffset: int, endOffset: int, s: string)
      requires 0 <= startOffset <= endOffset <= |text|
      modifies this
      ensures text == old(text)[..startOffset] + s + old(text)[endOffset..]
    {
      text := text[..startOffset] + s + text[endOffset..];
    }

    method InsertString(offset: int, s: string)
      requires 0 <= offset <= |text|
      modifies this
      ensures text == old(text)[..offset] + s + old(text)[offset..]
    {
      text := text[..offset] + s + text[offset..];
    }
  }

  /** The text inserted for the qualifier: parenthesized, with the optional inner spaces, when needed. */
  function QualifierInsertion(qualifierText: string, parenthesize: bool, spaceWithinParentheses: bool): string {
    var space := if spaceWithinParentheses then " " else "";
    if parenthesize then "(" + space + qualifierText + space + ")" else qualifierText
  }

  /**
   * The qualifier's insertion at the start offset, then the parentheses around it when needed:
   * "(" + space at the start, space + ")" at the qualifier's tail.
   */
  method InsertQualifier(document: Document, startOffset: int, qualifierText: string,
                         parenthesize: bool, spaceWithinParentheses: bool)
    requires 0 <= startOffset <= |document.text|
    modifies document
    ensures document.text == old(document.text)[..startOffset]
                             + QualifierInsertion(qualifierText, parenthesize, spaceWithinParentheses)
                             + old(document.text)[startOffset..]
  {
    ghost var before := document.text[..startOffset];
    ghost var after := document.text[startOffset..];
    Splice(before, "", after, qualifierText, document.text);
    document.InsertString(startOffset, qualifierText);
    if parenthesize {
      Parenthesize(document, startOffset, startOffset + |qualifierText|, if spaceWithinParentheses then " " else "");
    }
  }

  /** "(" + space at the start and space + ")" at the end of the text between them. */
  method Parenthesize(document: Document, startOffset: int, endOffset: int, space: string)
    requires 0 <= startOffset <= endOffset <= |document.text|
    modifies document
    ensures document.text == old(document.text)[..startOffset] + "(" + space
                             + old(document.text)[startOffset..endOffset] + space + ")" + old(document.text)[endOffset..]
  {
    ghost var before := document.text[..startOffset];
    ghost var middle := document.text[startOffset..endOffset];
    ghost var after := document.text[endOffset..];
    assert document.text == before + middle + after;
    Splice(before, "", middle + after, "(" + space, document.text);
    document.InsertString(startOffset, "(" + space);
    Splice(before + "(" + space + middle, "", after, space + ")", document.text);
    document.InsertString(endOffset + |"(" + space|, space + ")");
  }

  /**
   * handleInsert: [start, tail) becomes ";", the qualifier is inserted before it (and parenthesized
   * when needed), the ';' before the tail becomes '.', and the main element is inserted at the tail.
   * The qualifier's and the main element's own insertions are taken as inserting their text.
   * Returns the final tail offset.
   */
  method HandleInsert(document: Document, startOffset: int, tailOffset: int, qualifierText: string,
                      parenthesize: bool, spaceWithinParentheses: bool, mainText: string)
    returns (newTail: int)
    requires 0 <= startOffset <= tailOffset <= |document.text|
    modifies document
    ensures document.text == old(document.text)[..startOffset]
                             + QualifierInsertion(qualifierText, parenthesize, spaceWithinParentheses)
                             + "." + mainText + old(document.text)[tailOffset..]
    ensures newTail == startOffset + |QualifierInsertion(qualifierText, parenthesize, spaceWithinParentheses)| + 1 + |mainText|
  {
    ghost var before := document.text[..startOffset];
    ghost var after := document.text[tailOffset..];
    Splice(before, document.text[startOffset..tailOffset], after, ";", document.text);
    document.ReplaceString(startOffset, tailOffset, ";");
    Splice(before, "", ";" + after, "", document.text);
    InsertQualifier(document, startOffset, qualifierText, parenthesize, spaceWithinParentheses);
    var inserted := QualifierInsertion(qualifierText, parenthesize, spaceWithinParentheses);
    var tail := startOffset + |inserted| + 1;
    assert document.text == before + inserted + ";" + after;
    var atTail := document.text[tail - 1];
    assert atTail == ';';
    Splice(before + inserted, ";", after, ".", document.text);
    document.ReplaceString(tail - 1, tail, ".");
    Splice(before + inserted + ".", "", after, mainText, document.text);
    document.InsertString(tail, mainText);
    newTail := tail + |mainText|;
  }

  /** Replacing the middle part of a text: the shape every document edit above has. */
  lemma Splice(a: string, x: string, b: string, y: string, text: string)
    requires text == a + x + b
    ensures text[..|a|] == a && text[|a| + |x|..] == b
    ensures text[..|a|] + y + text[|a| + |x|..] == a + y + b
  {
    assert text[..|a|] == a;
    assert text[|a| + |x|..] == b;
  }
}
