/**
 * EnumConstantElement: the syntax-tree node of an enum constant. It maps
 * child roles to children (the first child of the matching element type) and
 * children back to roles, and places its text offset at the constant's name.
 * A node's children are a sequence; a child is identified by its index.
 */
module EnumConstantElement {
  import opened Wrappers

  datatype ElementType =
    | Identifier | ExpressionList | EnumConstantInitializer | ModifierList
    | DocCommentToken | JavaDocComment | CStyleComment | EndOfLineComment
    | OtherType(id: int)

  datatype Role = NoneRole | DocComment | Name | ArgumentList | AnonymousClass | ModifierListRole | OtherRole(id: int)

  datatype Child = Child(elementType: ElementType, text: string)

  predicate IsDocComment(t: ElementType) {
    t == DocCommentToken || t == JavaDocComment
  }

  /** The first child at or after `from` whose type satisfies the test. */
  function FirstOfType(children: seq<Child>, isWanted: ElementType -> bool, from: nat): (r: Option<nat>)
    requires from <= |children|
    ensures r.Some? ==> from <= r.value < |children| && isWanted(children[r.value].elementType)
    ensures r.Some? ==> forall j :: from <= j < r.value ==> !isWanted(children[j].elementType)
    ensures r.None? ==> forall j :: from <= j < |children| ==> !isWanted(children[j].elementType)
    decreases |children| - from
  {
    if from == |children| then None
    else if isWanted(children[from].elementType) then Some(from)
    else FirstOfType(children, isWanted, from + 1)
  }

  /** The element type findChildByRole searches for; doc comments are found by their two token types. */
  function TypeForRole(role: Role): ElementType -> bool {
    match role
    case DocComment => IsDocComment
    case Name => (t: ElementType) => t == Identifier
    case ArgumentList => (t: ElementType) => t == ExpressionList
    case AnonymousClass => (t: ElementType) => t == EnumConstantInitializer
    case ModifierListRole => (t: ElementType) => t == ModifierList
    case _ => (t: ElementType) => false
  }

  predicate IsFindableRole(role: Role) {
    role in {DocComment, Name, ArgumentList, AnonymousClass, ModifierListRole}
  }

  /** findChildByRole: the first child of the role's type; None for any other role. */
  function FindChildByRole(children: seq<Child>, role: Role): (r: Option<nat>)
    ensures !IsFindableRole(role) ==> r == None
    ensures r.Some? ==> r.value < |children| && TypeForRole(role)(children[r.value].elementType)
    ensures r.Some? ==> forall j :: 0 <= j < r.value ==> !TypeForRole(role)(children[j].elementType)
    ensures IsFindableRole(role) && r.None? ==> forall j :: 0 <= j < |children| ==> !TypeForRole(role)(children[j].elementType)
  {
    if !IsFindableRole(role) then None else FirstOfType(children, TypeForRole(role), 0)
  }

  /** getChildRole(child, roleCandidate): the candidate when the child is the one that role finds. */
  function ChildRoleIfFound(children: seq<Child>, child: nat, roleCandidate: Role): Role {
    if FindChildByRole(children, roleCandidate) == Some(child) then roleCandidate else NoneRole
  }

  /** getChildRole: the role of the child at index `child`. */
  function GetChildRole(children: seq<Child>, child: nat): (r: Role)
    requires child < |children|
    ensures r != NoneRole ==> IsFindableRole(r) && TypeForRole(r)(children[child].elementType)
    ensures children[child].elementType in {CStyleComment, EndOfLineComment} ==> r == NoneRole
    ensures children[child].elementType == EnumConstantInitializer ==> r == AnonymousClass
    ensures children[child].elementType == ExpressionList ==> r == ArgumentList
    ensures children[child].elementType == ModifierList ==> r == ModifierListRole
    ensures children[child].elementType.OtherType? ==> r == NoneRole
  {
    var i := children[child].elementType;
    if IsDocComment(i) then ChildRoleIfFound(children, child, DocComment)
    else if i == CStyleComment || i == EndOfLineComment then NoneRole
    else if i == Identifier then ChildRoleIfFound(children, child, Name)
    else if i == EnumConstantInitializer then AnonymousClass
    else if i == ExpressionList then ArgumentList
    else if i == ModifierList then ModifierListRole
    else NoneRole
  }

  /** The child a role finds has that role. */
  lemma FoundChildHasRole(children: seq<Child>, role: Role)
    requires FindChildByRole(children, role).Some?
    ensures GetChildRole(children, FindChildByRole(children, role).value) == role
  {
  }

  /** A doc comment or name role belongs to a child exactly when that role finds it. */
  lemma UniqueRolesBothWays(children: seq<Child>, child: nat, role: Role)
    requires child < |children| && role in {DocComment, Name}
    ensures GetChildRole(children, child) == role <==> FindChildByRole(children, role) == Some(child)
  {
  }

  /** Only the first identifier child is the name: every later identifier child has no role. */
  lemma SecondIdentifierHasNoRole(children: seq<Child>, first: nat, later: nat)
    requires first < later < |children|
    requires children[first].elementType == Identifier && children[later].elementType == Identifier
    ensures GetChildRole(children, later) == NoneRole
  {
  }

  function TextLength(children: seq<Child>): nat {
    if |children| == 0 then 0 else TextLength(children[..|children| - 1]) + |children[|children| - 1].text|
  }

  function Text(children: seq<Child>): string {
    if |children| == 0 then "" else Text(children[..|children| - 1]) + children[|children| - 1].text
  }

  /** The start offset of the child at index `child` in a node starting at `start`. */
  function StartOffsetOf(start: int, children: seq<Child>, child: nat): int
    requires child <= |children|
  {
    start + TextLength(children[..child])
  }

  datatype NullPointer = NullPointer

  /** getTextOffset: the start offset of the NAME child; a constant without a name throws. */
  function GetTextOffset(start: int, children: seq<Child>): (r: Result<int, NullPointer>)
    ensures r.Err? <==> FindChildByRole(children, Name).None?
    ensures r.Ok? ==> r.value == StartOffsetOf(start, children, FindChildByRole(children, Name).value)
  {
    match FindChildByRole(children, Name)
    case None => Err(NullPointer)
    case Some(i) => Ok(StartOffsetOf(start, children, i))
  }

  lemma {:induction false} TextLengthIsLength(children: seq<Child>)
    ensures TextLength(children) == |Text(children)|
    decreases |children|
  {
    if |children| > 0 {
      TextLengthIsLength(children[..|children| - 1]);
    }
  }

  lemma {:induction false} TextOfPrefix(children: seq<Child>, k: nat)
    requires k < |children|
    ensures Text(children[..k + 1]) == Text(children[..k]) + children[k].text
    ensures |Text(children[..k])| + |children[k].text| <= |Text(children)|
    ensures Text(children)[|Text(children[..k])|..|Text(children[..k])| + |children[k].text|] == children[k].text
    decreases |children|
  {
    PrefixOfPrefix(children, k + 1, k);
    if k + 1 < |children| {
      var init := children[..|children| - 1];
      TextOfPrefix(init, k);
      PrefixOfPrefix(children, |children| - 1, k);
      PrefixOfPrefix(children, |children| - 1, k + 1);
    }
  }

  lemma PrefixOfPrefix(s: seq<Child>, m: nat, n: nat)
    requires n <= m <= |s|
    ensures s[..m][..n] == s[..n]
  {
    forall i | 0 <= i < n ensures s[..m][..n][i] == s[..n][i] {}
  }

  /** The node's text, read from its text offset, starts with the name. */
  lemma TextAtOffsetIsName(start: int, children: seq<Child>)
    requires GetTextOffset(start, children).Ok?
    ensures var i := FindChildByRole(children, Name).value;
            var off := GetTextOffset(start, children).value - start;
            0 <= off && off + |children[i].text| <= |Text(children)|
            && Text(children)[off..off + |children[i].text|] == children[i].text
  {
    var i := FindChildByRole(children, Name).value;
    var off := GetTextOffset(start, children).value - start;
    assert off == |Text(children[..i])| by {
      TextLengthIsLength(children[..i]);
    }
    TextSliceOfChild(children, i);
  }

  /** Child k's text sits in the node's text right after the text of the children before it. */
  lemma TextSliceOfChild(children: seq<Child>, k: nat)
    requires k < |children|
    ensures var p := |Text(children[..k])|;
            p + |children[k].text| <= |Text(children)| && Text(children)[p..p + |children[k].text|] == children[k].text
  {
    TextOfPrefix(children, k);
  }
}
