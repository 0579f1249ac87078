/**
 * TypeParameterListElement: the syntax-tree node of a type parameter list
 * `<A, B extends C>` (TypeParameters in section 8.1.2 of the Java Language
 * Specification). Adding a type parameter creates the angle brackets when
 * they are missing and inserts the comma that separates it from a
 * neighbouring parameter; deleting one removes an adjacent comma and, when
 * the list becomes `<>`, the brackets too.
 *
 * The children are a sequence of nodes; a child is identified by its index.
 */
module TypeParameterList {
  import opened Wrappers

  datatype Kind = TypeParameter | Comma | LessThan | GreaterThan | WhiteSpace | Comment | OtherKind(id: int)

  datatype Node = Node(kind: Kind, text: string)

  datatype Role = TypeParameterInList | CommaRole | LtInTypeList | GtInTypeList | NoRole

  const LtNode: Node := Node(LessThan, "<")
  const GtNode: Node := Node(GreaterThan, ">")
  const CommaNode: Node := Node(Comma, ",")

  /** getChildRole. */
  function ChildRole(child: Node): (r: Role)
    ensures r == NoRole <==> child.kind !in {TypeParameter, Comma, LessThan, GreaterThan}
    ensures child.kind == TypeParameter <==> r == TypeParameterInList
    ensures child.kind == Comma <==> r == CommaRole
    ensures child.kind == LessThan <==> r == LtInTypeList
    ensures child.kind == GreaterThan <==> r == GtInTypeList
  {
    match child.kind
    case TypeParameter => TypeParameterInList
    case Comma => CommaRole
    case LessThan => LtInTypeList
    case GreaterThan => GtInTypeList
    case _ => NoRole
  }

  /** findChildByRole for the bracket roles: the first child of that kind. */
  function FirstOfKind(cs: seq<Node>, k: Kind): (r: Option<nat>)
    ensures r.Some? ==> r.value < |cs| && cs[r.value].kind == k && forall j :: 0 <= j < r.value ==> cs[j].kind != k
    ensures r.None? ==> forall j :: 0 <= j < |cs| ==> cs[j].kind != k
  {
    if |cs| == 0 then None
    else if cs[0].kind == k then Some(0)
    else match FirstOfKind(cs[1..], k)
      case None => None
      case Some(i) => Some(i + 1)
  }

  predicate IsSeparatorSearchStop(n: Node) {
    n.kind == Comma || n.kind == TypeParameter
  }

  /** The first comma or type parameter at or after `from`. */
  function ScanForward(cs: seq<Node>, from: nat): (r: Option<nat>)
    requires from <= |cs|
    ensures r.Some? ==> from <= r.value < |cs| && IsSeparatorSearchStop(cs[r.value])
    ensures r.Some? ==> forall j :: from <= j < r.value ==> !IsSeparatorSearchStop(cs[j])
    ensures r.None? ==> forall j :: from <= j < |cs| ==> !IsSeparatorSearchStop(cs[j])
    decreases |cs| - from
  {
    if from == |cs| then None
    else if IsSeparatorSearchStop(cs[from]) then Some(from)
    else ScanForward(cs, from + 1)
  }

  /** The last comma or type parameter before index `upTo`. */
  function ScanBack(cs: seq<Node>, upTo: nat): (r: Option<nat>)
    requires upTo <= |cs|
    ensures r.Some? ==> r.value < upTo && IsSeparatorSearchStop(cs[r.value])
    ensures r.Some? ==> forall j :: r.value < j < upTo ==> !IsSeparatorSearchStop(cs[j])
    ensures r.None? ==> forall j :: 0 <= j < upTo ==> !IsSeparatorSearchStop(cs[j])
  {
    if upTo == 0 then None
    else if IsSeparatorSearchStop(cs[upTo - 1]) then Some(upTo - 1)
    else ScanBack(cs, upTo - 1)
  }

  predicate IsWhiteSpaceOrComment(n: Node) {
    n.kind == WhiteSpace || n.kind == Comment
  }

  /** TreeUtil.skipElements: the first child at or after `from` that is not white space or a comment. */
  function SkipForward(cs: seq<Node>, from: nat): (r: Option<nat>)
    requires from <= |cs|
    ensures r.Some? ==> from <= r.value < |cs| && !IsWhiteSpaceOrComment(cs[r.value])
    ensures r.Some? ==> forall j :: from <= j < r.value ==> IsWhiteSpaceOrComment(cs[j])
    ensures r.None? ==> forall j :: from <= j < |cs| ==> IsWhiteSpaceOrComment(cs[j])
    decreases |cs| - from
  {
    if from == |cs| then None
    else if !IsWhiteSpaceOrComment(cs[from]) then Some(from)
    else SkipForward(cs, from + 1)
  }

  /** TreeUtil.skipElementsBack: the last child before `upTo` that is not white space or a comment. */
  function SkipBack(cs: seq<Node>, upTo: nat): (r: Option<nat>)
    requires upTo <= |cs|
    ensures r.Some? ==> r.value < upTo && !IsWhiteSpaceOrComment(cs[r.value])
    ensures r.Some? ==> forall j :: r.value < j < upTo ==> IsWhiteSpaceOrComment(cs[j])
    ensures r.None? ==> forall j :: 0 <= j < upTo ==> IsWhiteSpaceOrComment(cs[j])
  {
    if upTo == 0 then None
    else if !IsWhiteSpaceOrComment(cs[upTo - 1]) then Some(upTo - 1)
    else SkipBack(cs, upTo - 1)
  }

  function Insert(cs: seq<Node>, pos: nat, added: seq<Node>): (r: seq<Node>)
    requires pos <= |cs|
    ensures |r| == |cs| + |added|
  {
    cs[..pos] + added + cs[pos..]
  }

  function Delete(cs: seq<Node>, i: nat): (r: seq<Node>)
    requires i < |cs|
    ensures |r| == |cs| - 1
  {
    cs[..i] + cs[i + 1..]
  }

  /** The children once missing brackets are added: `<` before the first child, `>` after the last. */
  function WithBrackets(cs: seq<Node>): (r: seq<Node>)
    ensures FirstOfKind(r, LessThan).Some? && FirstOfKind(r, GreaterThan).Some?
  {
    var c1 := if FirstOfKind(cs, LessThan).None? then [LtNode] + cs else cs;
    assert FirstOfKind(c1, LessThan).Some? by { if FirstOfKind(cs, LessThan).None? { assert c1[0].kind == LessThan; } else { assert cs[FirstOfKind(cs, LessThan).value].kind == LessThan; } }
    var c2 := if FirstOfKind(c1, GreaterThan).None? then c1 + [GtNode] else c1;
    assert c2[FirstOfKind(c1, LessThan).value].kind == LessThan;
    assert FirstOfKind(c2, GreaterThan).Some? by {
      if FirstOfKind(c1, GreaterThan).None? { assert c2[|c2| - 1].kind == GreaterThan; }
      else { assert c2[FirstOfKind(c1, GreaterThan).value].kind == GreaterThan; }
    }
    c2
  }

  /** Where addInternal puts the new children in the bracketed list, before the comma fix-ups. */
  function InsertPosition(cs: seq<Node>, anchor: Option<nat>, before: Option<bool>): (pos: nat)
    requires anchor.Some? ==> anchor.value < |cs| && before.Some?
    ensures pos <= |WithBrackets(cs)|
  {
    var b := WithBrackets(cs);
    var shift := if FirstOfKind(cs, LessThan).None? then 1 else 0;
    if anchor.None? then
      if before.None? || before.value then FirstOfKind(b, GreaterThan).value
      else FirstOfKind(b, LessThan).value + 1
    else
      assert |b| >= |cs| + shift;
      if before.value then anchor.value + shift else anchor.value + shift + 1
  }

  /** A single added type parameter gets a comma after it when a type parameter follows before any comma. */
  function CommaAfterAdded(cs: seq<Node>, pos: nat): (r: seq<Node>)
    requires pos < |cs|
    ensures |r| == |cs| || (|r| == |cs| + 1 && r[pos + 1] == CommaNode)
    ensures r[..pos + 1] == cs[..pos + 1]
  {
    var fwd := ScanForward(cs, pos + 1);
    if fwd.Some? && cs[fwd.value].kind == TypeParameter then Insert(cs, pos + 1, [CommaNode]) else cs
  }

  /**
   * The type parameter reached first going back from the added one, before any comma, gets a comma
   * after it; the flag says whether the added node moved one place to the right.
   */
  function CommaBeforeAdded(cs: seq<Node>, pos: nat): (r: (seq<Node>, bool))
    requires pos < |cs|
  {
    var back := ScanBack(cs, pos);
    if back.Some? && cs[back.value].kind == TypeParameter then (Insert(cs, back.value + 1, [CommaNode]), true)
    else (cs, false)
  }

  /** addInternal as a function: the new children and the index of the first added node. */
  function AddResult(cs: seq<Node>, added: seq<Node>, anchor: Option<nat>, before: Option<bool>): (r: (seq<Node>, nat))
    requires |added| > 0
    requires anchor.Some? ==> anchor.value < |cs| && before.Some?
    ensures r.1 < |r.0|
  {
    InsertAndFix(WithBrackets(cs), InsertPosition(cs, anchor, before), added)
  }

  /**
   * The second half of addInternal, on the bracketed children: the raw insertion at pos and, for one
   * added type parameter, the comma after it and the comma before it. At most two commas are added.
   */
  function InsertAndFix(b: seq<Node>, pos: nat, added: seq<Node>): (r: (seq<Node>, nat))
    requires pos <= |b| && |added| > 0
    ensures r.1 < |r.0|
    ensures |b| + |added| <= |r.0| <= |b| + |added| + 2
  {
    var c3 := Insert(b, pos, added);
    if |added| == 1 && added[0].kind == TypeParameter then
      var c4 := CommaAfterAdded(c3, pos);
      var c5 := CommaBeforeAdded(c4, pos);
      (c5.0, if c5.1 then pos + 1 else pos)
    else (c3, pos)
  }

  /** InsertPosition without an anchor, from the brackets' indices once they exist. */
  lemma InsertPositionAtBracket(cs: seq<Node>, before: Option<bool>, lt: nat, gt: nat)
    requires Some(lt) == FirstOfKind(WithBrackets(cs), LessThan) && Some(gt) == FirstOfKind(WithBrackets(cs), GreaterThan)
    ensures InsertPosition(cs, None, before) == if before.None? || before.value then gt else lt + 1
  {
  }

  /** InsertPosition next to an anchor, shifted by the `<` that had to be created. */
  lemma InsertPositionAtAnchor(cs: seq<Node>, anchor: nat, before: bool, shift: nat)
    requires anchor < |cs|
    requires shift == if FirstOfKind(cs, LessThan).None? then 1 else 0
    ensures InsertPosition(cs, Some(anchor), Some(before)) == if before then anchor + shift else anchor + shift + 1
  {
  }

  /** Deleting a type parameter also deletes the next comma, or failing that the previous one. */
  function DeleteWithSeparator(cs: seq<Node>, child: nat): (r: seq<Node>)
    requires child < |cs|
  {
    var next := SkipForward(cs, child + 1);
    var prev := SkipBack(cs, child);
    if next.Some? && cs[next.value].kind == Comma then Delete(Delete(cs, next.value), child)
    else if prev.Some? && cs[prev.value].kind == Comma then Delete(Delete(cs, prev.value), child - 1)
    else Delete(cs, child)
  }

  /** After deleting a type parameter: `<` directly followed by `>` goes, both; no `<` at all throws. */
  function DropEmptyBrackets(cs: seq<Node>): (r: (seq<Node>, bool))
  {
    var lt := FirstOfKind(cs, LessThan);
    if lt.None? then (cs, true)
    else
      var after := SkipForward(cs, lt.value + 1);
      if after.Some? && cs[after.value].kind == GreaterThan then (Delete(Delete(cs, lt.value), after.value - 1), false)
      else (cs, false)
  }

  /**
   * deleteChildInternal as a function: the new children, and whether looking up `<` after
   * deleting a type parameter threw (a list without `<`).
   */
  function DeleteResult(cs: seq<Node>, child: nat): (r: (seq<Node>, bool))
    requires child < |cs|
  {
    if cs[child].kind != TypeParameter then (Delete(cs, child), false)
    else DropEmptyBrackets(DeleteWithSeparator(cs, child))
  }

  /** The type parameter nodes, in order. */
  function Params(cs: seq<Node>): seq<Node> {
    ParamsTo(cs, |cs|)
  }

  /** The type parameter nodes among the first n children, in order. */
  function ParamsTo(cs: seq<Node>, n: nat): seq<Node>
    requires n <= |cs|
  {
    if n == 0 then [] else ParamsTo(cs, n - 1) + (if cs[n - 1].kind == TypeParameter then [cs[n - 1]] else [])
  }

  /** Inside the brackets, odd positions hold type parameters and even ones commas. */
  predicate SlotOk(cs: seq<Node>, i: nat)
    requires i < |cs|
  {
    cs[i].kind == (if i % 2 == 1 then TypeParameter else Comma)
  }

  /** `< T (, T)* >`, or no children at all. */
  predicate WellFormed(cs: seq<Node>) {
    |cs| == 0 ||
    (|cs| >= 3 && |cs| % 2 == 1 && cs[0].kind == LessThan && cs[|cs| - 1].kind == GreaterThan
     && forall i :: 1 <= i < |cs| - 1 ==> SlotOk(cs, i))
  }

  lemma {:induction false} ParamsToOfLeft(a: seq<Node>, b: seq<Node>, n: nat)
    requires n <= |a|
    ensures ParamsTo(a + b, n) == ParamsTo(a, n)
  {
    if n > 0 {
      ParamsToOfLeft(a, b, n - 1);
      assert (a + b)[n - 1] == a[n - 1];
    }
  }

  lemma {:induction false} ParamsToOfRight(a: seq<Node>, b: seq<Node>, k: nat)
    requires k <= |b|
    ensures ParamsTo(a + b, |a| + k) == Params(a) + ParamsTo(b, k)
  {
    if k == 0 {
      ParamsToOfLeft(a, b, |a|);
    } else {
      ParamsToOfRight(a, b, k - 1);
      assert (a + b)[|a| + k - 1] == b[k - 1];
      var keep := if b[k - 1].kind == TypeParameter then [b[k - 1]] else [];
      assert Params(a) + ParamsTo(b, k - 1) + keep == Params(a) + (ParamsTo(b, k - 1) + keep);
    }
  }

  lemma ParamsAppend(a: seq<Node>, b: seq<Node>)
    ensures Params(a + b) == Params(a) + Params(b)
  {
    ParamsToOfRight(a, b, |b|);
  }

  lemma ParamsOfOne(n: Node)
    ensures Params([n]) == if n.kind == TypeParameter then [n] else []
  {
    assert ParamsTo([n], 0) == [];
  }

  /** In a well-formed non-empty list `<` is the first child and `>` the last. */
  lemma BracketsOfWellFormed(cs: seq<Node>)
    requires WellFormed(cs) && |cs| > 0
    ensures FirstOfKind(cs, LessThan) == Some(0)
    ensures FirstOfKind(cs, GreaterThan) == Some(|cs| - 1)
    ensures WithBrackets(cs) == cs
  {
    forall j | 1 <= j < |cs| - 1
      ensures cs[j].kind != GreaterThan
    {
      assert SlotOk(cs, j);
    }
  }

  lemma BracketsOfEmpty()
    ensures WithBrackets([]) == [LtNode, GtNode]
    ensures FirstOfKind([LtNode, GtNode], LessThan) == Some(0)
    ensures FirstOfKind([LtNode, GtNode], GreaterThan) == Some(1)
  {
    assert FirstOfKind([], LessThan) == None;
    assert [LtNode] + [] == [LtNode];
    assert FirstOfKind([LtNode][1..], GreaterThan) == None;
    assert FirstOfKind([LtNode], GreaterThan) == None;
    assert [LtNode] + [GtNode] == [LtNode, GtNode];
    assert [LtNode, GtNode][1..] == [GtNode];
  }

  /** A type parameter inserted just before another one gets a comma after it and nothing before it. */
  lemma InsertBeforeParameter(cs: seq<Node>, pos: nat, p: Node)
    requires 1 <= pos < |cs| && p.kind == TypeParameter && cs[pos].kind == TypeParameter
    requires (pos == 1 && cs[0].kind == LessThan) || cs[pos - 1].kind == Comma
    ensures CommaBeforeAdded(CommaAfterAdded(Insert(cs, pos, [p]), pos), pos) == (cs[..pos] + [p, CommaNode] + cs[pos..], false)
  {
    var c3 := Insert(cs, pos, [p]);
    assert c3[pos + 1] == cs[pos];
    assert ScanForward(c3, pos + 1) == Some(pos + 1);
    var c4 := Insert(c3, pos + 1, [CommaNode]);
    assert c3[..pos + 1] == cs[..pos] + [p];
    assert c3[pos + 1..] == cs[pos..];
    assert c4 == cs[..pos] + [p, CommaNode] + cs[pos..];
    assert c4[pos - 1] == cs[pos - 1];
    if cs[pos - 1].kind != Comma {
      assert ScanBack(c4, pos) == ScanBack(c4, 0);
    }
  }

  /** A type parameter inserted just after another one, before a comma or the closing `>`, gets a comma before it. */
  lemma InsertAfterParameter(cs: seq<Node>, pos: nat, p: Node)
    requires 1 <= pos < |cs| && p.kind == TypeParameter && cs[pos - 1].kind == TypeParameter
    requires cs[pos].kind == Comma || (pos == |cs| - 1 && cs[pos].kind == GreaterThan)
    ensures CommaBeforeAdded(CommaAfterAdded(Insert(cs, pos, [p]), pos), pos) == (cs[..pos] + [CommaNode, p] + cs[pos..], true)
  {
    var c3 := Insert(cs, pos, [p]);
    assert c3[pos + 1] == cs[pos];
    if cs[pos].kind != Comma {
      assert ScanForward(c3, pos + 1) == ScanForward(c3, pos + 2);
    }
    assert CommaAfterAdded(c3, pos) == c3;
    assert c3[pos - 1] == cs[pos - 1];
    assert ScanBack(c3, pos) == Some(pos - 1);
    assert c3[..pos] == cs[..pos];
    assert c3[pos..] == [p] + cs[pos..];
    assert Insert(c3, pos, [CommaNode]) == cs[..pos] + [CommaNode, p] + cs[pos..];
  }

  lemma WellFormedAfterInsert(cs: seq<Node>, pos: nat, x: seq<Node>)
    requires WellFormed(cs) && |cs| > 0 && 1 <= pos <= |cs| - 1 && |x| == 2
    requires pos % 2 == 1 ==> x[0].kind == TypeParameter && x[1].kind == Comma
    requires pos % 2 == 0 ==> x[0].kind == Comma && x[1].kind == TypeParameter
    ensures WellFormed(cs[..pos] + x + cs[pos..])
  {
    var r := cs[..pos] + x + cs[pos..];
    forall i | 1 <= i < |r| - 1
      ensures SlotOk(r, i)
    {
      if i >= pos + 2 {
        assert r[i] == cs[i - 2] && SlotOk(cs, i - 2);
      } else if i < pos {
        assert r[i] == cs[i] && SlotOk(cs, i);
      }
    }
  }

  lemma ParamsAroundPair(a: seq<Node>, x: Node, y: Node, b: seq<Node>)
    ensures Params(a + [x, y] + b) == Params(a) + Params([x]) + Params([y]) + Params(b)
  {
    ParamsAppend(a + [x, y], b);
    ParamsAppend(a, [x, y]);
    assert [x, y] == [x] + [y];
    ParamsAppend([x], [y]);
  }

  /** Adding one type parameter to a list without children gives `< p >`. */
  lemma AddToEmptyList(p: Node, before: Option<bool>)
    requires p.kind == TypeParameter
    ensures AddResult([], [p], None, before) == ([LtNode, p, GtNode], 1)
    ensures InsertPosition([], None, before) == 1
  {
    BracketsOfEmpty();
    assert InsertPosition([], None, before) == 1;
    var c3 := Insert([LtNode, GtNode], 1, [p]);
    assert c3 == [LtNode, p, GtNode];
    assert ScanForward(c3, 2) == ScanForward(c3, 3);
    assert CommaAfterAdded(c3, 1) == c3;
    assert ScanBack(c3, 1) == ScanBack(c3, 0);
  }

  /** The list with a parameter and a comma inserted before an existing parameter. */
  lemma BeforeParameterCase(cs: seq<Node>, pos: nat, p: Node)
    requires WellFormed(cs) && |cs| > 0 && 1 <= pos <= |cs| - 1 && p.kind == TypeParameter && pos % 2 == 1
    ensures var c := cs[..pos] + [p, CommaNode] + cs[pos..];
            WellFormed(c) && c[pos] == p && Params(c) == Params(cs[..pos]) + [p] + Params(cs[pos..])
  {
    WellFormedAfterInsert(cs, pos, [p, CommaNode]);
    ParamsWithParameterThenComma(cs[..pos], p, cs[pos..]);
  }

  lemma ParamsWithParameterThenComma(a: seq<Node>, p: Node, b: seq<Node>)
    requires p.kind == TypeParameter
    ensures var c := a + [p, CommaNode] + b;
            c[|a|] == p && Params(c) == Params(a) + [p] + Params(b)
  {
    ParamsOfOne(p);
    ParamsOfOne(CommaNode);
    ParamsAroundPair(a, p, CommaNode, b);
    assert Params(a) + [p] + [] + Params(b) == Params(a) + [p] + Params(b);
  }

  /** The list with a comma and a parameter inserted after an existing parameter. */
  lemma AfterParameterCase(cs: seq<Node>, pos: nat, p: Node)
    requires WellFormed(cs) && |cs| > 0 && 1 <= pos <= |cs| - 1 && p.kind == TypeParameter && pos % 2 == 0
    ensures var c := cs[..pos] + [CommaNode, p] + cs[pos..];
            WellFormed(c) && c[pos + 1] == p && Params(c) == Params(cs[..pos]) + [p] + Params(cs[pos..])
  {
    WellFormedAfterInsert(cs, pos, [CommaNode, p]);
    ParamsWithCommaThenParameter(cs[..pos], p, cs[pos..]);
  }

  lemma ParamsWithCommaThenParameter(a: seq<Node>, p: Node, b: seq<Node>)
    requires p.kind == TypeParameter
    ensures var c := a + [CommaNode, p] + b;
            c[|a| + 1] == p && Params(c) == Params(a) + [p] + Params(b)
  {
    ParamsOfOne(p);
    ParamsOfOne(CommaNode);
    ParamsAroundPair(a, CommaNode, p, b);
    assert Params(a) + [] + [p] + Params(b) == Params(a) + [p] + Params(b);
  }

  /** Inside a well-formed list, the comma fix-ups of one added type parameter keep it well-formed. */
  lemma AddInsideKeepsWellFormed(cs: seq<Node>, pos: nat, p: Node)
    requires WellFormed(cs) && |cs| > 0 && 1 <= pos <= |cs| - 1 && p.kind == TypeParameter
    ensures var r := InsertAndFix(cs, pos, [p]);
            WellFormed(r.0) && r.0[r.1] == p && Params(r.0) == Params(cs[..pos]) + [p] + Params(cs[pos..])
  {
    assert SlotOk(cs, pos) || pos == |cs| - 1;
    assert SlotOk(cs, pos - 1) || pos == 1;
    if pos % 2 == 1 {
      InsertBeforeParameter(cs, pos, p);
      BeforeParameterCase(cs, pos, p);
    } else {
      InsertAfterParameter(cs, pos, p);
      AfterParameterCase(cs, pos, p);
    }
  }

  /** `< p >` is well-formed and its only parameter is p. */
  lemma SingletonList(p: Node)
    requires p.kind == TypeParameter
    ensures WellFormed([LtNode, p, GtNode])
    ensures Params([LtNode, p, GtNode]) == Params([LtNode]) + [p] + Params([GtNode])
  {
    ParamsOfOne(LtNode);
    ParamsOfOne(GtNode);
    ParamsAroundPair([], LtNode, p, [GtNode]);
    ParamsOfOne(p);
    assert [] + [LtNode, p] + [GtNode] == [LtNode, p, GtNode];
    assert SlotOk([LtNode, p, GtNode], 1);
  }

  lemma WellFormedAfterDeletePair(cs: seq<Node>, i: nat)
    requires WellFormed(cs) && 1 <= i && i + 2 < |cs|
    ensures WellFormed(cs[..i] + cs[i + 2..])
  {
    var r := cs[..i] + cs[i + 2..];
    forall j | 1 <= j < |r| - 1
      ensures SlotOk(r, j)
    {
      if j >= i {
        assert r[j] == cs[j + 2] && SlotOk(cs, j + 2);
      } else {
        assert r[j] == cs[j] && SlotOk(cs, j);
      }
    }
  }

  /** Removing two adjacent children of which one is a comma removes the parameters of the other. */
  lemma ParamsAfterDeletePair(cs: seq<Node>, i: nat)
    requires i + 2 <= |cs|
    ensures Params(cs) == Params(cs[..i]) + Params([cs[i]]) + Params([cs[i + 1]]) + Params(cs[i + 2..])
  {
    SplitPair(cs, i);
    ParamsAroundPair(cs[..i], cs[i], cs[i + 1], cs[i + 2..]);
  }

  lemma SplitPair(cs: seq<Node>, i: nat)
    requires i + 2 <= |cs|
    ensures cs == cs[..i] + [cs[i], cs[i + 1]] + cs[i + 2..]
  {
  }

  /** Dropping empty brackets leaves a well-formed non-empty list as it is. */
  lemma KeepsBracketsIfNotEmpty(cs: seq<Node>)
    requires WellFormed(cs) && |cs| > 0
    ensures DropEmptyBrackets(cs) == (cs, false)
  {
    BracketsOfWellFormed(cs);
    assert SlotOk(cs, 1);
    assert SkipForward(cs, 1) == Some(1);
  }

  /** Removing a child that is not a type parameter along with its neighbour keeps the neighbour's parameters out. */
  lemma ParamsWithoutPair(cs: seq<Node>, i: nat)
    requires i + 2 <= |cs| && cs[i + 1].kind != TypeParameter
    ensures Params(cs[..i] + cs[i + 2..]) == Params(cs[..i]) + Params(cs[i + 1..])
  {
    ParamsAppend(cs[..i], cs[i + 2..]);
    assert cs[i + 1..] == [cs[i + 1]] + cs[i + 2..];
    ParamsAppend([cs[i + 1]], cs[i + 2..]);
    ParamsOfOne(cs[i + 1]);
  }

  /** Params of a list with a type parameter at i and another at j. */
  lemma TwoParams(cs: seq<Node>, i: nat, j: nat)
    requires i < j < |cs| && cs[i].kind == TypeParameter && cs[j].kind == TypeParameter
    ensures |Params(cs)| >= 2
  {
    assert cs == cs[..i] + [cs[i]] + cs[i + 1..];
    ParamsAppend(cs[..i] + [cs[i]], cs[i + 1..]);
    ParamsAppend(cs[..i], [cs[i]]);
    ParamsOfOne(cs[i]);
    var rest := cs[i + 1..];
    assert rest == rest[..j - i - 1] + [cs[j]] + rest[j - i..];
    ParamsAppend(rest[..j - i - 1] + [cs[j]], rest[j - i..]);
    ParamsAppend(rest[..j - i - 1], [cs[j]]);
    ParamsOfOne(cs[j]);
  }

  /** Deleting two neighbours one after the other, in either order, leaves the children around them. */
  lemma DeleteAdjacent(cs: seq<Node>, i: nat)
    requires i + 1 < |cs|
    ensures Delete(Delete(cs, i + 1), i) == cs[..i] + cs[i + 2..]
    ensures Delete(Delete(cs, i), i) == cs[..i] + cs[i + 2..]
  {
    var r := cs[..i] + cs[i + 2..];
    var d1 := Delete(Delete(cs, i + 1), i);
    var d2 := Delete(Delete(cs, i), i);
    forall k | 0 <= k < |r| ensures d1[k] == r[k] && d2[k] == r[k] {
      if k >= i {
        assert r[k] == cs[k + 2];
      }
    }
  }

  lemma SeparatorAfter(cs: seq<Node>, child: nat)
    requires child + 1 < |cs| && cs[child + 1].kind == Comma
    ensures DeleteWithSeparator(cs, child) == cs[..child] + cs[child + 2..]
  {
    assert SkipForward(cs, child + 1) == Some(child + 1);
    DeleteAdjacent(cs, child);
  }

  lemma SeparatorBefore(cs: seq<Node>, child: nat)
    requires 0 < child && child + 1 < |cs| && cs[child + 1].kind == GreaterThan && cs[child - 1].kind == Comma
    ensures DeleteWithSeparator(cs, child) == cs[..child - 1] + cs[child + 1..]
  {
    assert SkipForward(cs, child + 1) == Some(child + 1);
    assert SkipBack(cs, child) == Some(child - 1);
    DeleteAdjacent(cs, child - 1);
  }

  /** Deleting a parameter followed by a comma deletes both. */
  lemma DeleteBeforeComma(cs: seq<Node>, child: nat)
    requires WellFormed(cs) && child < |cs| && cs[child].kind == TypeParameter && cs[child + 1].kind == Comma
    ensures DeleteResult(cs, child) == (cs[..child] + cs[child + 2..], false)
  {
    SeparatorAfter(cs, child);
    WellFormedAfterDeletePair(cs, child);
    KeepsBracketsIfNotEmpty(cs[..child] + cs[child + 2..]);
  }

  /** Deleting the last of several parameters deletes the comma before it. */
  lemma DeleteLastOfSeveral(cs: seq<Node>, child: nat)
    requires WellFormed(cs) && child == |cs| - 2 && child > 1
    ensures DeleteResult(cs, child) == (cs[..child - 1] + cs[child + 1..], false)
  {
    assert SlotOk(cs, child) && SlotOk(cs, child - 1);
    SeparatorBefore(cs, child);
    WellFormedAfterDeletePair(cs, child - 1);
    KeepsBracketsIfNotEmpty(cs[..child - 1] + cs[child + 1..]);
  }

  /** Removing a comma and the parameter after it removes exactly that parameter. */
  lemma ParamsWithoutCommaBefore(cs: seq<Node>, child: nat)
    requires 1 <= child < |cs| && cs[child - 1].kind == Comma
    ensures Params(cs[..child - 1] + cs[child + 1..]) == Params(cs[..child]) + Params(cs[child + 1..])
  {
    ParamsAppend(cs[..child - 1], cs[child + 1..]);
    assert cs[..child] == cs[..child - 1] + [cs[child - 1]];
    ParamsAppend(cs[..child - 1], [cs[child - 1]]);
    ParamsOfOne(cs[child - 1]);
  }

  /** The children left once a parameter and the comma after it are removed. */
  lemma CommaAfterCase(cs: seq<Node>, child: nat)
    requires WellFormed(cs) && child < |cs| && cs[child].kind == TypeParameter && cs[child + 1].kind == Comma
    ensures var c := cs[..child] + cs[child + 2..];
            WellFormed(c) && c != [] && Params(c) == Params(cs[..child]) + Params(cs[child + 1..])
    ensures |Params(cs)| >= 2
  {
    CommaAfterShape(cs, child);
    ParamsWithoutPair(cs, child);
    TwoParams(cs, child, child + 2);
  }

  lemma CommaAfterShape(cs: seq<Node>, child: nat)
    requires WellFormed(cs) && child < |cs| && cs[child].kind == TypeParameter && cs[child + 1].kind == Comma
    ensures 1 <= child && child + 2 < |cs| && cs[child + 1].kind != TypeParameter && cs[child + 2].kind == TypeParameter
    ensures WellFormed(cs[..child] + cs[child + 2..]) && cs[..child] + cs[child + 2..] != []
  {
    assert SlotOk(cs, child) && SlotOk(cs, child + 1);
    assert SlotOk(cs, child + 2);
    WellFormedAfterDeletePair(cs, child);
  }

  /** The children left once the last parameter and the comma before it are removed. */
  lemma CommaBeforeCase(cs: seq<Node>, child: nat)
    requires WellFormed(cs) && child == |cs| - 2 && child > 1
    ensures var c := cs[..child - 1] + cs[child + 1..];
            WellFormed(c) && c != [] && Params(c) == Params(cs[..child]) + Params(cs[child + 1..])
    ensures |Params(cs)| >= 2
  {
    CommaBeforeShape(cs, child);
    ParamsWithoutCommaBefore(cs, child);
    TwoParams(cs, child - 2, child);
  }

  lemma CommaBeforeShape(cs: seq<Node>, child: nat)
    requires WellFormed(cs) && child == |cs| - 2 && child > 1
    ensures cs[child - 1].kind == Comma && cs[child - 2].kind == TypeParameter && cs[child].kind == TypeParameter
    ensures WellFormed(cs[..child - 1] + cs[child + 1..]) && cs[..child - 1] + cs[child + 1..] != []
  {
    assert SlotOk(cs, child) && SlotOk(cs, child - 1) && SlotOk(cs, child - 2);
    WellFormedAfterDeletePair(cs, child - 1);
  }

  /** Deleting the only parameter of `< T >` leaves no children. */
  lemma DeleteOnlyParameter(cs: seq<Node>)
    requires WellFormed(cs) && |cs| == 3
    ensures DeleteResult(cs, 1) == ([], false)
    ensures Params(cs) == [cs[1]]
    ensures Params(cs[..1]) + Params(cs[2..]) == []
  {
    assert SlotOk(cs, 1);
    assert DeleteResult(cs, 1) == ([], false) by {
      assert SkipForward(cs, 2) == Some(2);
      assert SkipBack(cs, 1) == Some(0);
      var c1 := cs[..1] + cs[2..];
      assert DeleteWithSeparator(cs, 1) == c1;
      assert c1 == [cs[0], cs[2]];
      assert SkipForward(c1, 1) == Some(1);
    }
    assert ParamsTo(cs, 1) == [];
    assert Params(cs) == [cs[1]] by {
      assert ParamsTo(cs, 2) == [cs[1]];
    }
    assert Params(cs[..1]) + Params(cs[2..]) == [] by {
      assert cs[..1] == [cs[0]] && cs[2..] == [cs[2]];
      ParamsOfOne(cs[0]);
      ParamsOfOne(cs[2]);
    }
  }

  /**
   * On a list without white space or comments: deleting a type parameter from a well-formed list keeps
   * it well-formed, never throws, and removes exactly that parameter; deleting the only one leaves no
   * children at all.
   */
  lemma DeleteInSignificantList(cs: seq<Node>, child: nat)
    requires WellFormed(cs) && child < |cs| && cs[child].kind == TypeParameter
    ensures var r := DeleteResult(cs, child);
            WellFormed(r.0) && !r.1
            && Params(r.0) == Params(cs[..child]) + Params(cs[child + 1..])
    ensures Params(cs) == [cs[child]] <==> DeleteResult(cs, child).0 == []
  {
    assert 1 <= child < |cs| - 1;
    assert SlotOk(cs, child);
    assert SlotOk(cs, child + 1) || child + 1 == |cs| - 1;
    if cs[child + 1].kind == Comma {
      DeleteBeforeComma(cs, child);
      CommaAfterCase(cs, child);
    } else if child > 1 {
      DeleteLastOfSeveral(cs, child);
      CommaBeforeCase(cs, child);
    } else {
      DeleteOnlyParameter(cs);
    }
  }

  /** The children other than white space and comments, in order: the list as the parser reads it. */
  function Significant(cs: seq<Node>): seq<Node> {
    SignificantTo(cs, |cs|)
  }

  /** The significant children among the first n. */
  function SignificantTo(cs: seq<Node>, n: nat): seq<Node>
    requires n <= |cs|
  {
    if n == 0 then [] else SignificantTo(cs, n - 1) + (if IsWhiteSpaceOrComment(cs[n - 1]) then [] else [cs[n - 1]])
  }

  // Facts about slicing the children.

  lemma SplitAt(c: seq<Node>, q: nat)
    requires q <= |c|
    ensures c == c[..q] + c[q..]
  {
  }

  lemma SplitAround(c: seq<Node>, i: nat)
    requires i < |c|
    ensures c == c[..i] + [c[i]] + c[i + 1..]
    ensures Delete(c, i) == c[..i] + c[i + 1..]
  {
  }

  lemma InsertMiddle(a: seq<Node>, d: seq<Node>, x: seq<Node>)
    ensures Insert(a + d, |a|, x) == a + x + d
  {
    assert (a + d)[..|a|] == a;
    assert (a + d)[|a|..] == d;
  }

  lemma DeleteMiddle(a: seq<Node>, n: Node, d: seq<Node>)
    ensures Delete(a + [n] + d, |a|) == a + d
  {
    assert (a + [n] + d)[..|a|] == a;
    assert (a + [n] + d)[|a| + 1..] == d;
  }

  lemma SlicesAfterDelete(c: seq<Node>, i: nat, m: nat)
    requires i < m <= |c|
    ensures Delete(c, i)[..m - 1] == c[..i] + c[i + 1..m]
    ensures c[..m] == c[..i] + [c[i]] + c[i + 1..m]
  {
  }

  /** Deleting two children one after the other: the later one first, or the earlier one first. */
  lemma DeleteInEitherOrder(c: seq<Node>, i: nat, j: nat)
    requires i < j < |c|
    ensures Delete(Delete(c, i), j - 1) == Delete(Delete(c, j), i)
  {
    var x, y := Delete(Delete(c, i), j - 1), Delete(Delete(c, j), i);
    forall t | 0 <= t < |x| ensures x[t] == y[t] {
      if t < i {
      } else if t < j - 1 {
        assert x[t] == c[t + 1] && y[t] == c[t + 1];
      } else {
        assert x[t] == c[t + 2] && y[t] == c[t + 2];
      }
    }
  }

  // The significant children of joined and sliced lists.

  lemma {:induction false} SignificantToAgree(c: seq<Node>, d: seq<Node>, n: nat)
    requires n <= |c| && n <= |d| && forall i :: 0 <= i < n ==> c[i] == d[i]
    ensures SignificantTo(c, n) == SignificantTo(d, n)
  {
    if n > 0 {
      SignificantToAgree(c, d, n - 1);
    }
  }

  lemma SignificantOfPrefix(c: seq<Node>, n: nat)
    requires n <= |c|
    ensures SignificantTo(c, n) == Significant(c[..n])
  {
    SignificantToAgree(c, c[..n], n);
  }

  lemma {:induction false} SignificantToOfRight(a: seq<Node>, b: seq<Node>, k: nat)
    requires k <= |b|
    ensures SignificantTo(a + b, |a| + k) == Significant(a) + SignificantTo(b, k)
  {
    if k == 0 {
      SignificantToAgree(a + b, a, |a|);
    } else {
      SignificantToOfRight(a, b, k - 1);
      assert (a + b)[|a| + k - 1] == b[k - 1];
      var keep := if IsWhiteSpaceOrComment(b[k - 1]) then [] else [b[k - 1]];
      assert Significant(a) + SignificantTo(b, k - 1) + keep == Significant(a) + (SignificantTo(b, k - 1) + keep);
    }
  }

  lemma SignificantAppend(a: seq<Node>, b: seq<Node>)
    ensures Significant(a + b) == Significant(a) + Significant(b)
  {
    SignificantToOfRight(a, b, |b|);
  }

  lemma SignificantOfOne(n: Node)
    ensures Significant([n]) == if IsWhiteSpaceOrComment(n) then [] else [n]
  {
    assert SignificantTo([n], 0) == [];
  }

  lemma SignificantOfThree(a: seq<Node>, x: seq<Node>, d: seq<Node>)
    ensures Significant(a + x + d) == Significant(a) + Significant(x) + Significant(d)
  {
    SignificantAppend(a + x, d);
    SignificantAppend(a, x);
  }

  lemma SignificantAround(a: seq<Node>, n: Node, d: seq<Node>)
    requires !IsWhiteSpaceOrComment(n)
    ensures Significant(a + [n] + d) == Significant(a) + [n] + Significant(d)
  {
    SignificantOfThree(a, [n], d);
    SignificantOfOne(n);
  }

  /** The significant children of the first n come first among all the significant children. */
  lemma SignificantPrefix(c: seq<Node>, n: nat)
    requires n <= |c|
    ensures |SignificantTo(c, n)| <= |Significant(c)|
    ensures forall i :: 0 <= i < |SignificantTo(c, n)| ==> Significant(c)[i] == SignificantTo(c, n)[i]
  {
    SplitAt(c, n);
    SignificantAppend(c[..n], c[n..]);
    SignificantOfPrefix(c, n);
  }

  lemma {:induction false} SignificantToMonotone(c: seq<Node>, n: nat, m: nat)
    requires n <= m <= |c|
    ensures |SignificantTo(c, n)| <= |SignificantTo(c, m)|
    decreases m
  {
    if n < m {
      SignificantToMonotone(c, n, m - 1);
    }
  }

  /** A significant child sits in the significant children at the index that counts those before it. */
  lemma SignificantAt(c: seq<Node>, i: nat)
    requires i < |c| && !IsWhiteSpaceOrComment(c[i])
    ensures |SignificantTo(c, i + 1)| == |SignificantTo(c, i)| + 1
    ensures |SignificantTo(c, i)| < |Significant(c)| && Significant(c)[|SignificantTo(c, i)|] == c[i]
  {
    SignificantPrefix(c, i + 1);
  }

  lemma {:induction false} SignificantToHasNoLayout(c: seq<Node>, n: nat)
    requires n <= |c|
    ensures forall i :: 0 <= i < |SignificantTo(c, n)| ==> !IsWhiteSpaceOrComment(SignificantTo(c, n)[i])
  {
    if n > 0 {
      SignificantToHasNoLayout(c, n - 1);
    }
  }

  /** In a list without white space and comments, skipping them stops at once. */
  lemma SkipInSignificant(s: seq<Node>, i: nat)
    requires i <= |s| && forall j :: 0 <= j < |s| ==> !IsWhiteSpaceOrComment(s[j])
    ensures SkipForward(s, i) == if i < |s| then Some(i) else None
    ensures SkipBack(s, i) == if i > 0 then Some(i - 1) else None
  {
  }

  lemma {:induction false} ParamsToOfSignificant(c: seq<Node>, n: nat)
    requires n <= |c|
    ensures Params(SignificantTo(c, n)) == ParamsTo(c, n)
  {
    if n > 0 {
      ParamsToOfSignificant(c, n - 1);
      var keep := if IsWhiteSpaceOrComment(c[n - 1]) then [] else [c[n - 1]];
      ParamsAppend(SignificantTo(c, n - 1), keep);
      if keep == [] {
        assert Params(keep) == [];
      } else {
        ParamsOfOne(c[n - 1]);
      }
    }
  }

  /** White space and comments hold no type parameters. */
  lemma ParamsOfSignificant(c: seq<Node>)
    ensures Params(Significant(c)) == Params(c)
  {
    ParamsToOfSignificant(c, |c|);
  }

  lemma {:induction false} NoKindInSignificantTo(c: seq<Node>, n: nat, k: Kind)
    requires n <= |c| && forall j :: 0 <= j < n ==> c[j].kind != k
    ensures forall i :: 0 <= i < |SignificantTo(c, n)| ==> SignificantTo(c, n)[i].kind != k
  {
    if n > 0 {
      NoKindInSignificantTo(c, n - 1, k);
    }
  }

  // The searches of the fix-ups, on the children and on the significant children.

  /** findChildByRole for a bracket finds the same node among the significant children. */
  lemma FirstOfKindSignificant(c: seq<Node>, k: Kind)
    requires k != WhiteSpace && k != Comment
    ensures FirstOfKind(Significant(c), k)
            == if FirstOfKind(c, k).None? then None else Some(|SignificantTo(c, FirstOfKind(c, k).value)|)
  {
    match FirstOfKind(c, k)
    case None =>
      NoKindInSignificantTo(c, |c|, k);
    case Some(j) =>
      SignificantAt(c, j);
      NoKindInSignificantTo(c, j, k);
      SignificantPrefix(c, j);
  }

  lemma {:induction false} ScanForwardSignificant(c: seq<Node>, from: nat)
    requires from <= |c|
    ensures var s := Significant(c);
            var k := |SignificantTo(c, from)|;
            k <= |s| && (ScanForward(c, from).Some? <==> ScanForward(s, k).Some?)
            && (ScanForward(c, from).Some? ==> c[ScanForward(c, from).value] == s[ScanForward(s, k).value])
    decreases |c| - from
  {
    SignificantToMonotone(c, from, |c|);
    if from < |c| {
      ScanForwardSignificant(c, from + 1);
      if !IsWhiteSpaceOrComment(c[from]) {
        SignificantAt(c, from);
      }
    }
  }

  lemma {:induction false} ScanBackSignificant(c: seq<Node>, upTo: nat)
    requires upTo <= |c|
    ensures var s := Significant(c);
            var k := |SignificantTo(c, upTo)|;
            k <= |s| && (ScanBack(c, upTo).Some? <==> ScanBack(s, k).Some?)
            && (ScanBack(c, upTo).Some? ==> ScanBack(s, k).value == |SignificantTo(c, ScanBack(c, upTo).value)|)
  {
    SignificantToMonotone(c, upTo, |c|);
    if upTo > 0 {
      ScanBackSignificant(c, upTo - 1);
      if !IsWhiteSpaceOrComment(c[upTo - 1]) {
        SignificantAt(c, upTo - 1);
      }
    }
  }

  lemma {:induction false} SkipForwardSignificant(c: seq<Node>, from: nat)
    requires from <= |c|
    ensures var k := |SignificantTo(c, from)|;
            (SkipForward(c, from).Some? <==> k < |Significant(c)|)
            && (SkipForward(c, from).Some? ==> |SignificantTo(c, SkipForward(c, from).value)| == k)
    decreases |c| - from
  {
    if from < |c| {
      if IsWhiteSpaceOrComment(c[from]) {
        SkipForwardSignificant(c, from + 1);
      } else {
        SignificantAt(c, from);
      }
    }
  }

  lemma {:induction false} SkipBackSignificant(c: seq<Node>, upTo: nat)
    requires upTo <= |c|
    ensures var k := |SignificantTo(c, upTo)|;
            (SkipBack(c, upTo).Some? <==> k > 0)
            && (SkipBack(c, upTo).Some? ==> |SignificantTo(c, SkipBack(c, upTo).value)| == k - 1)
  {
    if upTo > 0 {
      if IsWhiteSpaceOrComment(c[upTo - 1]) {
        SkipBackSignificant(c, upTo - 1);
      } else {
        SignificantAt(c, upTo - 1);
      }
    }
  }

  /** Going back from a significant child finds the same stop among the significant children. */
  lemma ScanBackFromSignificant(c: seq<Node>, pos: nat)
    requires pos < |c| && !IsWhiteSpaceOrComment(c[pos])
    ensures |SignificantTo(c, pos)| < |Significant(c)|
    ensures var k := |SignificantTo(c, pos)|;
            match ScanBack(c, pos)
            case None => ScanBack(Significant(c), k).None?
            case Some(j) => ScanBack(Significant(c), k) == Some(|SignificantTo(c, j)|) && Significant(c)[|SignificantTo(c, j)|] == c[j]
  {
    SignificantAt(c, pos);
    ScanBackSignificant(c, pos);
    if ScanBack(c, pos).Some? {
      SignificantAt(c, ScanBack(c, pos).value);
    }
  }

  // Inserting and deleting children, seen on the significant children.

  /** Inserting nodes inserts their significant ones among the significant children. */
  lemma SignificantOfInsert(b: seq<Node>, q: nat, x: seq<Node>)
    requires q <= |b|
    ensures |SignificantTo(b, q)| <= |Significant(b)|
    ensures Significant(Insert(b, q, x)) == Insert(Significant(b), |SignificantTo(b, q)|, Significant(x))
  {
    SplitAt(b, q);
    SignificantAppend(b[..q], b[q..]);
    SignificantOfThree(b[..q], x, b[q..]);
    SignificantOfPrefix(b, q);
    InsertMiddle(Significant(b[..q]), Significant(b[q..]), Significant(x));
  }

  /** Deleting a significant child deletes it among the significant children. */
  lemma SignificantOfDelete(c: seq<Node>, i: nat)
    requires i < |c| && !IsWhiteSpaceOrComment(c[i])
    ensures |SignificantTo(c, i)| < |Significant(c)|
    ensures Significant(Delete(c, i)) == Delete(Significant(c), |SignificantTo(c, i)|)
  {
    SplitAround(c, i);
    SignificantAround(c[..i], c[i], c[i + 1..]);
    SignificantAppend(c[..i], c[i + 1..]);
    SignificantOfPrefix(c, i);
    DeleteMiddle(Significant(c[..i]), c[i], Significant(c[i + 1..]));
  }

  /** Deleting a child leaves the significant children before it as they were. */
  lemma SignificantToBeforeDelete(c: seq<Node>, i: nat, m: nat)
    requires i < |c| && m <= i
    ensures SignificantTo(Delete(c, i), m) == SignificantTo(c, m)
  {
    SignificantToAgree(Delete(c, i), c, m);
  }

  /** Deleting a significant child makes one fewer significant child before any later index. */
  lemma SignificantToAfterDelete(c: seq<Node>, i: nat, m: nat)
    requires i < m <= |c| && !IsWhiteSpaceOrComment(c[i])
    ensures |SignificantTo(Delete(c, i), m - 1)| + 1 == |SignificantTo(c, m)|
  {
    SlicesAfterDelete(c, i, m);
    SignificantOfPrefix(Delete(c, i), m - 1);
    SignificantOfPrefix(c, m);
    SignificantAppend(c[..i], c[i + 1..m]);
    SignificantAround(c[..i], c[i], c[i + 1..m]);
  }

  /** Deleting two significant children with only white space and comments between them. */
  lemma SignificantOfDeletePair(cs: seq<Node>, i: nat, j: nat)
    requires i < j < |cs| && !IsWhiteSpaceOrComment(cs[i]) && !IsWhiteSpaceOrComment(cs[j])
    requires |SignificantTo(cs, j)| == |SignificantTo(cs, i)| + 1
    ensures |SignificantTo(cs, i)| + 1 < |Significant(cs)|
    ensures Significant(Delete(Delete(cs, j), i))
            == Delete(Delete(Significant(cs), |SignificantTo(cs, i)| + 1), |SignificantTo(cs, i)|)
  {
    SignificantOfDelete(cs, j);
    var d := Delete(cs, j);
    assert d[i] == cs[i];
    SignificantToBeforeDelete(cs, j, i);
    SignificantOfDelete(d, i);
  }

  // addInternal's comma fix-ups, seen on the significant children.

  /** A comma inserted after a significant child goes after it among the significant children. */
  lemma SignificantOfCommaAt(c: seq<Node>, j: nat)
    requires j < |c| && !IsWhiteSpaceOrComment(c[j])
    ensures |SignificantTo(c, j)| < |Significant(c)|
    ensures Significant(Insert(c, j + 1, [CommaNode])) == Insert(Significant(c), |SignificantTo(c, j)| + 1, [CommaNode])
  {
    SignificantAt(c, j);
    SignificantOfInsert(c, j + 1, [CommaNode]);
    SignificantOfOne(CommaNode);
  }

  /** The comma after an added type parameter goes where it goes among the significant children. */
  lemma SignificantOfCommaAfter(c: seq<Node>, pos: nat)
    requires pos < |c| && !IsWhiteSpaceOrComment(c[pos])
    ensures |SignificantTo(c, pos)| < |Significant(c)|
    ensures Significant(CommaAfterAdded(c, pos)) == CommaAfterAdded(Significant(c), |SignificantTo(c, pos)|)
  {
    SignificantAt(c, pos);
    ScanForwardSignificant(c, pos + 1);
    SignificantOfCommaAt(c, pos);
  }

  /** The comma before an added type parameter goes where it goes among the significant children. */
  lemma SignificantOfCommaBefore(c: seq<Node>, pos: nat)
    requires pos < |c| && !IsWhiteSpaceOrComment(c[pos])
    ensures |SignificantTo(c, pos)| < |Significant(c)|
    ensures var k := |SignificantTo(c, pos)|;
            Significant(CommaBeforeAdded(c, pos).0) == CommaBeforeAdded(Significant(c), k).0
            && CommaBeforeAdded(c, pos).1 == CommaBeforeAdded(Significant(c), k).1
  {
    if ScanBack(c, pos).Some? && c[ScanBack(c, pos).value].kind == TypeParameter {
      CommaBeforeWithComma(c, pos, ScanBack(c, pos).value);
    } else {
      CommaBeforeWithoutComma(c, pos);
    }
  }

  lemma CommaBeforeWithComma(c: seq<Node>, pos: nat, j: nat)
    requires pos < |c| && !IsWhiteSpaceOrComment(c[pos]) && ScanBack(c, pos) == Some(j) && c[j].kind == TypeParameter
    ensures |SignificantTo(c, pos)| < |Significant(c)|
    ensures var k := |SignificantTo(c, pos)|;
            Significant(CommaBeforeAdded(c, pos).0) == CommaBeforeAdded(Significant(c), k).0
            && CommaBeforeAdded(c, pos).1 == CommaBeforeAdded(Significant(c), k).1
  {
    ScanBackFromSignificant(c, pos);
    CommaBeforeAtParameter(c, pos, j);
    CommaBeforeAtParameter(Significant(c), |SignificantTo(c, pos)|, |SignificantTo(c, j)|);
    SignificantOfCommaAt(c, j);
  }

  lemma CommaBeforeWithoutComma(c: seq<Node>, pos: nat)
    requires pos < |c| && !IsWhiteSpaceOrComment(c[pos])
    requires !(ScanBack(c, pos).Some? && c[ScanBack(c, pos).value].kind == TypeParameter)
    ensures |SignificantTo(c, pos)| < |Significant(c)|
    ensures var k := |SignificantTo(c, pos)|;
            CommaBeforeAdded(c, pos) == (c, false) && CommaBeforeAdded(Significant(c), k) == (Significant(c), false)
  {
    ScanBackFromSignificant(c, pos);
  }

  /** Where the comma before the added node goes when going back reaches a type parameter. */
  lemma CommaBeforeAtParameter(c: seq<Node>, pos: nat, j: nat)
    requires pos < |c| && ScanBack(c, pos) == Some(j) && c[j].kind == TypeParameter
    ensures CommaBeforeAdded(c, pos) == (Insert(c, j + 1, [CommaNode]), true)
  {
  }

  /** addInternal's fix-ups for one added type parameter, step by step. */
  lemma InsertAndFixOfParameter(b: seq<Node>, pos: nat, p: Node)
    requires pos <= |b| && p.kind == TypeParameter
    ensures var c4 := CommaAfterAdded(Insert(b, pos, [p]), pos);
            pos < |c4| && InsertAndFix(b, pos, [p]) == (CommaBeforeAdded(c4, pos).0, if CommaBeforeAdded(c4, pos).1 then pos + 1 else pos)
  {
  }

  lemma SignificantOfInsertStep(b: seq<Node>, pos: nat, p: Node)
    requires pos <= |b| && !IsWhiteSpaceOrComment(p)
    ensures |SignificantTo(b, pos)| <= |Significant(b)|
    ensures Significant(Insert(b, pos, [p])) == Insert(Significant(b), |SignificantTo(b, pos)|, [p])
    ensures Insert(b, pos, [p])[pos] == p
    ensures SignificantTo(Insert(b, pos, [p]), pos) == SignificantTo(b, pos)
  {
    SignificantOfInsert(b, pos, [p]);
    SignificantOfOne(p);
    SignificantToAgree(Insert(b, pos, [p]), b, pos);
  }

  lemma SignificantOfCommaAfterStep(c: seq<Node>, pos: nat)
    requires pos < |c| && !IsWhiteSpaceOrComment(c[pos])
    ensures |SignificantTo(c, pos)| < |Significant(c)|
    ensures Significant(CommaAfterAdded(c, pos)) == CommaAfterAdded(Significant(c), |SignificantTo(c, pos)|)
    ensures pos < |CommaAfterAdded(c, pos)| && CommaAfterAdded(c, pos)[pos] == c[pos]
    ensures SignificantTo(CommaAfterAdded(c, pos), pos) == SignificantTo(c, pos)
  {
    SignificantOfCommaAfter(c, pos);
    var c4 := CommaAfterAdded(c, pos);
    forall i | 0 <= i <= pos ensures c4[i] == c[i] {
      assert c4[..pos + 1][i] == c[..pos + 1][i];
    }
    SignificantToAgree(c4, c, pos);
  }

  /**
   * White space and comments do not change addInternal's fix-ups: adding one type parameter, then
   * removing white space and comments, is adding it to the significant children at the matching index.
   */
  lemma SignificantOfInsertAndFix(b: seq<Node>, pos: nat, p: Node)
    requires pos <= |b| && p.kind == TypeParameter
    ensures |SignificantTo(b, pos)| <= |Significant(b)|
    ensures Significant(InsertAndFix(b, pos, [p]).0) == InsertAndFix(Significant(b), |SignificantTo(b, pos)|, [p]).0
  {
    var c3 := Insert(b, pos, [p]);
    SignificantOfInsertStep(b, pos, p);
    SignificantOfCommaAfterStep(c3, pos);
    SignificantOfCommaBefore(CommaAfterAdded(c3, pos), pos);
    InsertAndFixOfParameter(b, pos, p);
    InsertAndFixOfParameter(Significant(b), |SignificantTo(b, pos)|, p);
  }

  /** Inserting a comma changes no type parameter. */
  lemma ParamsOfCommaInsert(x: seq<Node>, q: nat)
    requires q <= |x|
    ensures Params(Insert(x, q, [CommaNode])) == Params(x)
  {
    ParamsAppend(x[..q] + [CommaNode], x[q..]);
    ParamsAppend(x[..q], [CommaNode]);
    ParamsOfOne(CommaNode);
    SplitAt(x, q);
    ParamsAppend(x[..q], x[q..]);
  }

  /** addInternal's fix-ups add exactly the one type parameter to the parameters, wherever it goes. */
  lemma ParamsOfInsertAndFix(b: seq<Node>, pos: nat, p: Node)
    requires pos <= |b| && p.kind == TypeParameter
    ensures Params(InsertAndFix(b, pos, [p]).0) == Params(b[..pos]) + [p] + Params(b[pos..])
  {
    var c3 := Insert(b, pos, [p]);
    ParamsAppend(b[..pos] + [p], b[pos..]);
    ParamsAppend(b[..pos], [p]);
    ParamsOfOne(p);
    var c4 := CommaAfterAdded(c3, pos);
    if c4 != c3 {
      ParamsOfCommaInsert(c3, pos + 1);
    }
    var back := ScanBack(c4, pos);
    if back.Some? && c4[back.value].kind == TypeParameter {
      ParamsOfCommaInsert(c4, back.value + 1);
    }
  }

  /** The index addInternal returns is that of the added node, wherever the commas go. */
  lemma AddedLandsAtIndex(b: seq<Node>, pos: nat, p: Node)
    requires pos <= |b|
    ensures InsertAndFix(b, pos, [p]).0[InsertAndFix(b, pos, [p]).1] == p
  {
    var c3 := Insert(b, pos, [p]);
    assert c3[pos] == p;
    if p.kind == TypeParameter {
      var c4 := CommaAfterAdded(c3, pos);
      assert c4[..pos + 1][pos] == c3[..pos + 1][pos];
      var back := ScanBack(c4, pos);
      if back.Some? && c4[back.value].kind == TypeParameter {
        assert Insert(c4, back.value + 1, [CommaNode])[pos + 1] == c4[pos];
      }
    }
  }

  // Adding to a list that may hold white space and comments.

  /** A list with no significant children has no brackets. */
  lemma NoBracketsInLayout(cs: seq<Node>)
    requires Significant(cs) == []
    ensures FirstOfKind(cs, LessThan).None? && FirstOfKind(cs, GreaterThan).None?
  {
    FirstOfKindSignificant(cs, LessThan);
    FirstOfKindSignificant(cs, GreaterThan);
  }

  /** With neither bracket, both are added around the children. */
  lemma WithBothBracketsAdded(cs: seq<Node>)
    requires FirstOfKind(cs, LessThan).None? && FirstOfKind(cs, GreaterThan).None?
    ensures WithBrackets(cs) == [LtNode] + cs + [GtNode]
    ensures FirstOfKind(WithBrackets(cs), LessThan) == Some(0)
    ensures FirstOfKind(WithBrackets(cs), GreaterThan) == Some(|cs| + 1)
  {
    NoGreaterThanAfterLessThan(cs);
    GreaterThanAtEnd([LtNode] + cs);
  }

  lemma NoGreaterThanAfterLessThan(cs: seq<Node>)
    requires FirstOfKind(cs, GreaterThan).None?
    ensures FirstOfKind([LtNode] + cs, GreaterThan).None?
  {
    var c1 := [LtNode] + cs;
    forall j | 0 <= j < |c1| ensures c1[j].kind != GreaterThan {
      if j > 0 {
        assert c1[j] == cs[j - 1];
      }
    }
  }

  lemma GreaterThanAtEnd(c: seq<Node>)
    requires FirstOfKind(c, GreaterThan).None?
    ensures FirstOfKind(c + [GtNode], GreaterThan) == Some(|c|)
  {
    var b := c + [GtNode];
    forall j | 0 <= j < |c| ensures b[j].kind != GreaterThan {
      assert b[j] == c[j];
    }
    assert b[|c|].kind == GreaterThan;
    var r := FirstOfKind(b, GreaterThan);
    assert r.Some?;
    assert !(r.value < |c|);
  }

  lemma SignificantOfBracketedLayout(cs: seq<Node>)
    requires Significant(cs) == []
    ensures Significant([LtNode] + cs + [GtNode]) == [LtNode, GtNode]
  {
    SignificantOfThree([LtNode], cs, [GtNode]);
    SignificantOfOne(LtNode);
    SignificantOfOne(GtNode);
  }

  /** Strictly between a significant first child and a significant last child. */
  lemma RankBetweenEnds(b: seq<Node>, pos: nat)
    requires 1 <= pos <= |b| - 1 && !IsWhiteSpaceOrComment(b[0]) && !IsWhiteSpaceOrComment(b[|b| - 1])
    ensures 1 <= |SignificantTo(b, pos)| <= |Significant(b)| - 1
  {
    SignificantToMonotone(b, 1, pos);
    SignificantToMonotone(b, pos, |b| - 1);
    assert SignificantTo(b, 1) == [b[0]];
    assert Significant(b) == SignificantTo(b, |b| - 1) + [b[|b| - 1]];
  }

  /** In a list of white space and comments only, addInternal inserts between the two new brackets. */
  lemma LayoutOnlyRank(cs: seq<Node>, anchor: Option<nat>, before: Option<bool>)
    requires Significant(cs) == []
    requires anchor.Some? ==> anchor.value < |cs| && before.Some?
    ensures Significant(WithBrackets(cs)) == [LtNode, GtNode]
    ensures |SignificantTo(WithBrackets(cs), InsertPosition(cs, anchor, before))| == 1
  {
    NoBracketsInLayout(cs);
    WithBothBracketsAdded(cs);
    SignificantOfBracketedLayout(cs);
    var b := WithBrackets(cs);
    var pos := InsertPosition(cs, anchor, before);
    if anchor.None? {
      InsertPositionAtBracket(cs, before, 0, |cs| + 1);
    } else {
      InsertPositionAtAnchor(cs, anchor.value, before.value, 1);
    }
    RankBetweenEnds(b, pos);
  }

  /** addInternal of one type parameter between `<` and `>` with nothing between them. */
  lemma FixOfBracketPair(p: Node)
    requires p.kind == TypeParameter
    ensures InsertAndFix([LtNode, GtNode], 1, [p]).0 == [LtNode, p, GtNode]
  {
    AddToEmptyList(p, None);
    BracketsOfEmpty();
  }

  /** Adding one type parameter to a list of white space and comments only gives `< p >`, once they are removed. */
  lemma AddToLayoutOnly(cs: seq<Node>, p: Node, anchor: Option<nat>, before: Option<bool>)
    requires Significant(cs) == [] && p.kind == TypeParameter
    requires anchor.Some? ==> anchor.value < |cs| && before.Some?
    ensures Significant(AddResult(cs, [p], anchor, before).0) == [LtNode, p, GtNode]
  {
    var pos := InsertPosition(cs, anchor, before);
    LayoutOnlyRank(cs, anchor, before);
    SignificantOfInsertAndFix(WithBrackets(cs), pos, p);
    FixOfBracketPair(p);
  }

  /** A list that is well-formed once white space and comments are removed has both brackets. */
  lemma BracketsOfSignificantWellFormed(cs: seq<Node>)
    requires WellFormed(Significant(cs)) && Significant(cs) != []
    ensures FirstOfKind(cs, LessThan).Some? && FirstOfKind(cs, GreaterThan).Some?
    ensures WithBrackets(cs) == cs
    ensures |SignificantTo(cs, FirstOfKind(cs, LessThan).value)| == 0
    ensures |SignificantTo(cs, FirstOfKind(cs, GreaterThan).value)| == |Significant(cs)| - 1
  {
    BracketsOfWellFormed(Significant(cs));
    FirstOfKindSignificant(cs, LessThan);
    FirstOfKindSignificant(cs, GreaterThan);
  }

  /** Where addInternal inserts, anywhere between `<` and `>`, among the significant children. */
  lemma BracketedRank(cs: seq<Node>, anchor: Option<nat>, before: Option<bool>)
    requires WellFormed(Significant(cs)) && Significant(cs) != []
    requires anchor.Some? ==> anchor.value < |cs| && before.Some?
    requires anchor.Some? && before.value && FirstOfKind(cs, LessThan).Some? && FirstOfKind(cs, GreaterThan).Some?
             ==> FirstOfKind(cs, LessThan).value < anchor.value <= FirstOfKind(cs, GreaterThan).value
    requires anchor.Some? && !before.value && FirstOfKind(cs, LessThan).Some? && FirstOfKind(cs, GreaterThan).Some?
             ==> FirstOfKind(cs, LessThan).value <= anchor.value < FirstOfKind(cs, GreaterThan).value
    ensures WithBrackets(cs) == cs
    ensures 1 <= |SignificantTo(cs, InsertPosition(cs, anchor, before))| <= |Significant(cs)| - 1
  {
    BracketsOfSignificantWellFormed(cs);
    var lt, gt := FirstOfKind(cs, LessThan).value, FirstOfKind(cs, GreaterThan).value;
    SignificantAt(cs, lt);
    if gt <= lt {
      SignificantToMonotone(cs, gt, lt);
    }
    var pos := InsertPosition(cs, anchor, before);
    if anchor.None? {
      InsertPositionAtBracket(cs, before, lt, gt);
    } else {
      InsertPositionAtAnchor(cs, anchor.value, before.value, 0);
    }
    assert lt + 1 <= pos <= gt;
    SignificantToMonotone(cs, lt + 1, pos);
    SignificantToMonotone(cs, pos, gt);
  }

  /** Adding one type parameter between the brackets of a list that is well-formed up to white space and comments. */
  lemma AddToBracketed(cs: seq<Node>, p: Node, anchor: Option<nat>, before: Option<bool>)
    requires WellFormed(Significant(cs)) && Significant(cs) != [] && p.kind == TypeParameter
    requires anchor.Some? ==> anchor.value < |cs| && before.Some?
    requires anchor.Some? && before.value && FirstOfKind(cs, LessThan).Some? && FirstOfKind(cs, GreaterThan).Some?
             ==> FirstOfKind(cs, LessThan).value < anchor.value <= FirstOfKind(cs, GreaterThan).value
    requires anchor.Some? && !before.value && FirstOfKind(cs, LessThan).Some? && FirstOfKind(cs, GreaterThan).Some?
             ==> FirstOfKind(cs, LessThan).value <= anchor.value < FirstOfKind(cs, GreaterThan).value
    ensures WellFormed(Significant(AddResult(cs, [p], anchor, before).0))
  {
    var pos := InsertPosition(cs, anchor, before);
    BracketedRank(cs, anchor, before);
    SignificantOfInsertAndFix(cs, pos, p);
    AddInsideKeepsWellFormed(Significant(cs), |SignificantTo(cs, pos)|, p);
  }

  /**
   * Adding one type parameter to a list that is well-formed once white space and comments are
   * removed, anywhere between `<` and `>` (or with no anchor), keeps it so, puts the parameter at the
   * returned index and adds exactly it to the parameters.
   */
  lemma AddKeepsWellFormed(cs: seq<Node>, p: Node, anchor: Option<nat>, before: Option<bool>)
    requires WellFormed(Significant(cs)) && p.kind == TypeParameter
    requires anchor.Some? ==> anchor.value < |cs| && before.Some?
    requires anchor.Some? && before.value && FirstOfKind(cs, LessThan).Some? && FirstOfKind(cs, GreaterThan).Some?
             ==> FirstOfKind(cs, LessThan).value < anchor.value <= FirstOfKind(cs, GreaterThan).value
    requires anchor.Some? && !before.value && FirstOfKind(cs, LessThan).Some? && FirstOfKind(cs, GreaterThan).Some?
             ==> FirstOfKind(cs, LessThan).value <= anchor.value < FirstOfKind(cs, GreaterThan).value
    ensures var r := AddResult(cs, [p], anchor, before);
            var pos := InsertPosition(cs, anchor, before);
            var b := WithBrackets(cs);
            WellFormed(Significant(r.0)) && r.0[r.1] == p
            && Params(r.0) == Params(b[..pos]) + [p] + Params(b[pos..])
  {
    var b := WithBrackets(cs);
    var pos := InsertPosition(cs, anchor, before);
    AddedLandsAtIndex(b, pos, p);
    ParamsOfInsertAndFix(b, pos, p);
    if Significant(cs) == [] {
      AddToLayoutOnly(cs, p, anchor, before);
      SingletonList(p);
    } else {
      AddToBracketed(cs, p, anchor, before);
    }
  }

  // Deleting from a list that may hold white space and comments.

  lemma DeleteWithSeparatorAfter(c: seq<Node>, child: nat, j: nat)
    requires child < |c| && SkipForward(c, child + 1) == Some(j) && c[j].kind == Comma
    ensures DeleteWithSeparator(c, child) == Delete(Delete(c, j), child)
  {
  }

  lemma DeleteWithSeparatorBefore(c: seq<Node>, child: nat, j: nat)
    requires child < |c| && !(SkipForward(c, child + 1).Some? && c[SkipForward(c, child + 1).value].kind == Comma)
    requires SkipBack(c, child) == Some(j) && c[j].kind == Comma
    ensures DeleteWithSeparator(c, child) == Delete(Delete(c, j), child - 1)
  {
  }

  lemma DeleteWithSeparatorAlone(c: seq<Node>, child: nat)
    requires child < |c| && !(SkipForward(c, child + 1).Some? && c[SkipForward(c, child + 1).value].kind == Comma)
    requires !(SkipBack(c, child).Some? && c[SkipBack(c, child).value].kind == Comma)
    ensures DeleteWithSeparator(c, child) == Delete(c, child)
  {
  }

  /** The significant child after a significant one, if any. */
  lemma NextSignificant(cs: seq<Node>, child: nat)
    requires child < |cs| && !IsWhiteSpaceOrComment(cs[child])
    ensures var s, k := Significant(cs), |SignificantTo(cs, child)|;
            k < |s| && SkipForward(s, k + 1) == (if k + 1 < |s| then Some(k + 1) else None)
            && (SkipForward(cs, child + 1).Some? <==> k + 1 < |s|)
            && (SkipForward(cs, child + 1).Some?
                ==> (|SignificantTo(cs, SkipForward(cs, child + 1).value)| == k + 1 && s[k + 1] == cs[SkipForward(cs, child + 1).value]))
  {
    SignificantAt(cs, child);
    SkipForwardSignificant(cs, child + 1);
    if SkipForward(cs, child + 1).Some? {
      SignificantAt(cs, SkipForward(cs, child + 1).value);
    }
    SignificantToHasNoLayout(cs, |cs|);
    SkipInSignificant(Significant(cs), |SignificantTo(cs, child)| + 1);
  }

  /** The significant child before a significant one, if any. */
  lemma PreviousSignificant(cs: seq<Node>, child: nat)
    requires child < |cs| && !IsWhiteSpaceOrComment(cs[child])
    ensures var s, k := Significant(cs), |SignificantTo(cs, child)|;
            k < |s| && SkipBack(s, k) == (if k > 0 then Some(k - 1) else None)
            && (SkipBack(cs, child).Some? <==> k > 0)
            && (SkipBack(cs, child).Some?
                ==> (|SignificantTo(cs, SkipBack(cs, child).value)| + 1 == k && s[k - 1] == cs[SkipBack(cs, child).value]))
  {
    SignificantAt(cs, child);
    SkipBackSignificant(cs, child);
    if SkipBack(cs, child).Some? {
      SignificantAt(cs, SkipBack(cs, child).value);
    }
    SignificantToHasNoLayout(cs, |cs|);
    SkipInSignificant(Significant(cs), |SignificantTo(cs, child)|);
  }

  lemma SeparatorAfterCase(cs: seq<Node>, child: nat, j: nat)
    requires child < |cs| && !IsWhiteSpaceOrComment(cs[child])
    requires SkipForward(cs, child + 1) == Some(j) && cs[j].kind == Comma
    ensures |SignificantTo(cs, child)| < |Significant(cs)|
    ensures Significant(DeleteWithSeparator(cs, child)) == DeleteWithSeparator(Significant(cs), |SignificantTo(cs, child)|)
  {
    var s, k := Significant(cs), |SignificantTo(cs, child)|;
    NextSignificant(cs, child);
    DeleteWithSeparatorAfter(cs, child, j);
    DeleteWithSeparatorAfter(s, k, k + 1);
    SignificantOfDeletePair(cs, child, j);
  }

  lemma SeparatorBeforeCase(cs: seq<Node>, child: nat, j: nat)
    requires child < |cs| && !IsWhiteSpaceOrComment(cs[child])
    requires !(SkipForward(cs, child + 1).Some? && cs[SkipForward(cs, child + 1).value].kind == Comma)
    requires SkipBack(cs, child) == Some(j) && cs[j].kind == Comma
    ensures |SignificantTo(cs, child)| < |Significant(cs)|
    ensures Significant(DeleteWithSeparator(cs, child)) == DeleteWithSeparator(Significant(cs), |SignificantTo(cs, child)|)
  {
    var s, k := Significant(cs), |SignificantTo(cs, child)|;
    NextSignificant(cs, child);
    PreviousSignificant(cs, child);
    DeleteWithSeparatorBefore(cs, child, j);
    DeleteWithSeparatorBefore(s, k, k - 1);
    SignificantOfDeletePair(cs, j, child);
    DeleteInEitherOrder(cs, j, child);
    DeleteInEitherOrder(s, k - 1, k);
  }

  lemma NoSeparatorCase(cs: seq<Node>, child: nat)
    requires child < |cs| && !IsWhiteSpaceOrComment(cs[child])
    requires !(SkipForward(cs, child + 1).Some? && cs[SkipForward(cs, child + 1).value].kind == Comma)
    requires !(SkipBack(cs, child).Some? && cs[SkipBack(cs, child).value].kind == Comma)
    ensures |SignificantTo(cs, child)| < |Significant(cs)|
    ensures Significant(DeleteWithSeparator(cs, child)) == DeleteWithSeparator(Significant(cs), |SignificantTo(cs, child)|)
  {
    var s, k := Significant(cs), |SignificantTo(cs, child)|;
    NextSignificant(cs, child);
    PreviousSignificant(cs, child);
    DeleteWithSeparatorAlone(cs, child);
    DeleteWithSeparatorAlone(s, k);
    SignificantOfDelete(cs, child);
  }

  /** Removing a type parameter with its separator is the same on the significant children. */
  lemma SignificantOfDeleteWithSeparator(cs: seq<Node>, child: nat)
    requires child < |cs| && !IsWhiteSpaceOrComment(cs[child])
    ensures |SignificantTo(cs, child)| < |Significant(cs)|
    ensures Significant(DeleteWithSeparator(cs, child)) == DeleteWithSeparator(Significant(cs), |SignificantTo(cs, child)|)
  {
    var next := SkipForward(cs, child + 1);
    var prev := SkipBack(cs, child);
    if next.Some? && cs[next.value].kind == Comma {
      SeparatorAfterCase(cs, child, next.value);
    } else if prev.Some? && cs[prev.value].kind == Comma {
      SeparatorBeforeCase(cs, child, prev.value);
    } else {
      NoSeparatorCase(cs, child);
    }
  }

  lemma DropEmptyBracketsAt(c: seq<Node>, lt: nat, g: nat)
    requires FirstOfKind(c, LessThan) == Some(lt) && SkipForward(c, lt + 1) == Some(g) && c[g].kind == GreaterThan
    ensures DropEmptyBrackets(c) == (Delete(Delete(c, lt), g - 1), false)
  {
  }

  lemma DropBracketPair(c: seq<Node>, lt: nat, g: nat)
    requires FirstOfKind(c, LessThan) == Some(lt) && SkipForward(c, lt + 1) == Some(g) && c[g].kind == GreaterThan
    ensures Significant(DropEmptyBrackets(c).0) == DropEmptyBrackets(Significant(c)).0
    ensures DropEmptyBrackets(c).1 == DropEmptyBrackets(Significant(c)).1
  {
    var s, l := Significant(c), |SignificantTo(c, lt)|;
    FirstOfKindSignificant(c, LessThan);
    NextSignificant(c, lt);
    DropEmptyBracketsAt(c, lt, g);
    DropEmptyBracketsAt(s, l, l + 1);
    DeleteInEitherOrder(c, lt, g);
    DeleteInEitherOrder(s, l, l + 1);
    SignificantOfDeletePair(c, lt, g);
  }

  lemma KeepBrackets(c: seq<Node>, lt: nat)
    requires FirstOfKind(c, LessThan) == Some(lt)
    requires !(SkipForward(c, lt + 1).Some? && c[SkipForward(c, lt + 1).value].kind == GreaterThan)
    ensures DropEmptyBrackets(c) == (c, false) && DropEmptyBrackets(Significant(c)) == (Significant(c), false)
  {
    FirstOfKindSignificant(c, LessThan);
    NextSignificant(c, lt);
  }

  /** Removing an emptied `<>` is the same on the significant children. */
  lemma SignificantOfDropEmptyBrackets(c: seq<Node>)
    ensures Significant(DropEmptyBrackets(c).0) == DropEmptyBrackets(Significant(c)).0
    ensures DropEmptyBrackets(c).1 == DropEmptyBrackets(Significant(c)).1
  {
    FirstOfKindSignificant(c, LessThan);
    match FirstOfKind(c, LessThan)
    case None =>
    case Some(lt) =>
      var after := SkipForward(c, lt + 1);
      if after.Some? && c[after.value].kind == GreaterThan {
        DropBracketPair(c, lt, after.value);
      } else {
        KeepBrackets(c, lt);
      }
  }

  /** White space and comments do not change deleteChildInternal on a type parameter. */
  lemma SignificantOfDeleteResult(cs: seq<Node>, child: nat)
    requires child < |cs| && cs[child].kind == TypeParameter
    ensures var k := |SignificantTo(cs, child)|;
            k < |Significant(cs)| && Significant(cs)[k] == cs[child]
            && Significant(DeleteResult(cs, child).0) == DeleteResult(Significant(cs), k).0
            && DeleteResult(cs, child).1 == DeleteResult(Significant(cs), k).1
  {
    SignificantAt(cs, child);
    SignificantOfDeleteWithSeparator(cs, child);
    SignificantOfDropEmptyBrackets(DeleteWithSeparator(cs, child));
  }

  lemma DeleteKeepsSignificantWellFormed(cs: seq<Node>, child: nat)
    requires WellFormed(Significant(cs)) && child < |cs| && cs[child].kind == TypeParameter
    ensures WellFormed(Significant(DeleteResult(cs, child).0)) && !DeleteResult(cs, child).1
  {
    SignificantOfDeleteResult(cs, child);
    DeleteInSignificantList(Significant(cs), |SignificantTo(cs, child)|);
  }

  /** Deleting a type parameter removes exactly it from the parameters, whatever the other children are. */
  lemma DeleteRemovesExactlyParameter(cs: seq<Node>, child: nat)
    requires child < |cs| && cs[child].kind == TypeParameter
    ensures Params(DeleteResult(cs, child).0) == Params(cs[..child]) + Params(cs[child + 1..])
  {
    ParamsOfDeleteWithSeparator(cs, child);
    ParamsOfDropEmptyBrackets(DeleteWithSeparator(cs, child));
  }

  lemma ParamsOfDelete(c: seq<Node>, i: nat)
    requires i < |c|
    ensures Params(Delete(c, i)) == Params(c[..i]) + Params(c[i + 1..])
  {
    ParamsAppend(c[..i], c[i + 1..]);
  }

  /** Deleting a child that is not a type parameter keeps the parameters. */
  lemma ParamsOfDeleteOther(c: seq<Node>, i: nat)
    requires i < |c| && c[i].kind != TypeParameter
    ensures Params(Delete(c, i)) == Params(c)
  {
    ParamsOfDelete(c, i);
    assert c == c[..i] + [c[i]] + c[i + 1..];
    ParamsAppend(c[..i] + [c[i]], c[i + 1..]);
    ParamsAppend(c[..i], [c[i]]);
    ParamsOfOne(c[i]);
  }

  lemma ParamsOfDeleteWithSeparator(cs: seq<Node>, child: nat)
    requires child < |cs|
    ensures Params(DeleteWithSeparator(cs, child)) == Params(cs[..child]) + Params(cs[child + 1..])
  {
    var next, prev := SkipForward(cs, child + 1), SkipBack(cs, child);
    if next.Some? && cs[next.value].kind == Comma {
      ParamsOfDeleteTwo(cs, child, next.value);
    } else if prev.Some? && cs[prev.value].kind == Comma {
      ParamsOfDeleteTwo(cs, child, prev.value);
    } else {
      ParamsOfDelete(cs, child);
    }
  }

  /** Deleting a child together with another that is not a type parameter, in the order deleteChildInternal does. */
  lemma ParamsOfDeleteTwo(cs: seq<Node>, child: nat, j: nat)
    requires child < |cs| && j < |cs| && j != child && cs[j].kind != TypeParameter
    ensures child < j ==> Params(Delete(Delete(cs, j), child)) == Params(cs[..child]) + Params(cs[child + 1..])
    ensures j < child ==> Params(Delete(Delete(cs, j), child - 1)) == Params(cs[..child]) + Params(cs[child + 1..])
  {
    ParamsOfDelete(cs, child);
    if child < j {
      DeleteInEitherOrder(cs, child, j);
      ParamsOfDeleteOther(Delete(cs, child), j - 1);
    } else {
      DeleteInEitherOrder(cs, j, child);
      ParamsOfDeleteOther(Delete(cs, child), j);
    }
  }

  /** Dropping the brackets of an empty list keeps the parameters. */
  lemma ParamsOfDropEmptyBrackets(c: seq<Node>)
    ensures Params(DropEmptyBrackets(c).0) == Params(c)
  {
    var lt := FirstOfKind(c, LessThan);
    if lt.Some? {
      var after := SkipForward(c, lt.value + 1);
      if after.Some? && c[after.value].kind == GreaterThan {
        ParamsOfDeleteOther(c, lt.value);
        ParamsOfDeleteOther(Delete(c, lt.value), after.value - 1);
      }
    }
  }

  lemma DeleteOfOnlyParameter(cs: seq<Node>, child: nat)
    requires WellFormed(Significant(cs)) && child < |cs| && cs[child].kind == TypeParameter
    ensures Params(cs) == [cs[child]] <==> Significant(DeleteResult(cs, child).0) == []
  {
    SignificantOfDeleteResult(cs, child);
    DeleteInSignificantList(Significant(cs), |SignificantTo(cs, child)|);
    ParamsOfSignificant(cs);
  }

  /**
   * Deleting a type parameter from a list that is well-formed once white space and comments are
   * removed keeps it so, never throws, and removes exactly that parameter; deleting the only one
   * leaves no significant children at all.
   */
  lemma DeleteKeepsWellFormed(cs: seq<Node>, child: nat)
    requires WellFormed(Significant(cs)) && child < |cs| && cs[child].kind == TypeParameter
    ensures var r := DeleteResult(cs, child);
            WellFormed(Significant(r.0)) && !r.1
            && Params(r.0) == Params(cs[..child]) + Params(cs[child + 1..])
    ensures Params(cs) == [cs[child]] <==> Significant(DeleteResult(cs, child).0) == []
  {
    DeleteKeepsSignificantWellFormed(cs, child);
    DeleteRemovesExactlyParameter(cs, child);
    DeleteOfOnlyParameter(cs, child);
  }

  class TypeParameterListElement {
    var children: seq<Node>

    constructor ()
      ensures children == []
    {
      children := [];
    }

    /** super.addInternal: the raw insertion of `added` at index pos. */
    method RawInsert(pos: nat, added: seq<Node>)
      requires pos <= |children|
      modifies this
      ensures children == Insert(old(children), pos, added)
    {
      children := children[..pos] + added + children[pos..];
    }

    /** super.deleteChildInternal: the raw removal of the child at index i. */
    method RawDelete(i: nat)
      requires i < |children|
      modifies this
      ensures children == Delete(old(children), i)
    {
      children := children[..i] + children[i + 1..];
    }

    /** Creates `<` before the first child and `>` after the last when they are missing. */
    method AddBrackets() returns (lt: nat, gt: nat, shift: nat)
      modifies this
      ensures children == WithBrackets(old(children))
      ensures Some(lt) == FirstOfKind(children, LessThan) && Some(gt) == FirstOfKind(children, GreaterThan)
      ensures shift == if FirstOfKind(old(children), LessThan).None? then 1 else 0
    {
      ghost var cs := children;
      shift := 0;
      if FirstOfKind(children, LessThan).None? {
        RawInsert(0, [LtNode]);
        shift := 1;
      }
      if FirstOfKind(children, GreaterThan).None? {
        RawInsert(|children|, [GtNode]);
      }
      assert children == WithBrackets(cs);
      lt := FirstOfKind(children, LessThan).value;
      gt := FirstOfKind(children, GreaterThan).value;
    }

    /** The forward loop of addInternal. */
    method AddCommaAfter(pos: nat)
      requires pos < |children|
      modifies this
      ensures children == CommaAfterAdded(old(children), pos)
    {
      var child := pos + 1;
      while child < |children|
        invariant pos + 1 <= child <= |children|
        invariant children == old(children)
        invariant ScanForward(children, pos + 1) == ScanForward(children, child)
        decreases |children| - child
      {
        if children[child].kind == Comma {
          return;
        }
        if children[child].kind == TypeParameter {
          RawInsert(pos + 1, [CommaNode]);
          return;
        }
        child := child + 1;
      }
    }

    /** The backward loop of addInternal; true when it put a comma before the added node. */
    method AddCommaBefore(pos: nat) returns (inserted: bool)
      requires pos < |children|
      modifies this
      ensures (children, inserted) == CommaBeforeAdded(old(children), pos)
    {
      var prev := pos;
      while prev > 0
        invariant 0 <= prev <= pos
        invariant children == old(children)
        invariant ScanBack(children, pos) == ScanBack(children, prev)
      {
        if children[prev - 1].kind == Comma {
          return false;
        }
        if children[prev - 1].kind == TypeParameter {
          RawInsert(prev, [CommaNode]);
          return true;
        }
        prev := prev - 1;
      }
      return false;
    }

    /** addInternal: inserts `added` before or after the anchor (or by the brackets) and fixes brackets and commas. */
    method AddInternal(added: seq<Node>, anchor: Option<nat>, before: Option<bool>) returns (firstAdded: nat)
      requires |added| > 0
      requires anchor.Some? ==> anchor.value < |children| && before.Some?
      modifies this
      ensures (children, firstAdded) == AddResult(old(children), added, anchor, before)
    {
      ghost var cs := children;
      var lt, gt, shift := AddBrackets();
      var pos: nat;
      if anchor.None? {
        InsertPositionAtBracket(cs, before, lt, gt);
        if before.None? || before.value {
          pos := gt;
        } else {
          pos := lt + 1;
        }
      } else {
        InsertPositionAtAnchor(cs, anchor.value, before.value, shift);
        pos := if before.value then anchor.value + shift else anchor.value + shift + 1;
      }
      firstAdded := InsertAndFixCommas(pos, added);
    }

    /** The raw insertion of addInternal and, for one added type parameter, its two comma loops. */
    method InsertAndFixCommas(pos: nat, added: seq<Node>) returns (firstAdded: nat)
      requires pos <= |children| && |added| > 0
      modifies this
      ensures (children, firstAdded) == InsertAndFix(old(children), pos, added)
    {
      RawInsert(pos, added);
      firstAdded := pos;
      if |added| == 1 && added[0].kind == TypeParameter {
        AddCommaAfter(pos);
        var inserted := AddCommaBefore(pos);
        if inserted {
          firstAdded := pos + 1;
        }
      }
    }

    /** The first half of deleteChildInternal for a type parameter: the separator and the child. */
    method DeleteParameter(child: nat)
      requires child < |children|
      modifies this
      ensures children == DeleteWithSeparator(old(children), child)
    {
      var next := SkipForward(children, child + 1);
      var prev := SkipBack(children, child);
      if next.Some? && children[next.value].kind == Comma {
        RawDelete(next.value);
        RawDelete(child);
      } else if prev.Some? && children[prev.value].kind == Comma {
        RawDelete(prev.value);
        RawDelete(child - 1);
      } else {
        RawDelete(child);
      }
    }

    /** The second half: removes an emptied `<>`; true when there is no `<`. */
    method DeleteEmptyBrackets() returns (nullPointer: bool)
      modifies this
      ensures (children, nullPointer) == DropEmptyBrackets(old(children))
    {
      var lt := FirstOfKind(children, LessThan);
      if lt.None? {
        return true;
      }
      var after := SkipForward(children, lt.value + 1);
      if after.Some? && children[after.value].kind == GreaterThan {
        RawDelete(lt.value);
        RawDelete(after.value - 1);
      }
      return false;
    }

    /** deleteChildInternal: deletes the child, with the comma next to a type parameter and an emptied `<>`. */
    method DeleteChildInternal(child: nat) returns (nullPointer: bool)
      requires child < |children|
      modifies this
      ensures (children, nullPointer) == DeleteResult(old(children), child)
    {
      if children[child].kind != TypeParameter {
        RawDelete(child);
        return false;
      }
      DeleteParameter(child);
      nullPointer := DeleteEmptyBrackets();
    }
  }
}
