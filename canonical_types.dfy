/**
 * CanonicalTypes: a context-free copy of a Java type that a refactoring can
 * keep after the PSI it came from is gone. Each wrapper renders its own text
 * (array `[]`, varargs `...`, wildcards `?`, `? extends B`, `? super B` as in
 * section 4.5.1 of the Java Language Specification) and lists the qualified
 * names a code fragment must import to resolve it. The Creator visitor builds
 * a wrapper from a PSI type.
 */
module CanonicalTypes {
  import opened Wrappers

  /**
   * The wrapper classes. A class type keeps its substitutor, a map from type parameter name to a
   * type or null, as (name, type) pairs with distinct names, in the order the names were first put.
   */
  datatype CType =
    | Primitive(presentableText: string)
    | Array(componentType: CType)
    | Ellipsis(componentType: CType)
    | WildcardType(isExtending: bool, bound: Option<CType>)
    | WrongType(text: string)
    | ClassType(originalText: string, classQName: string, substitutor: seq<(string, Option<CType>)>)

  /** The PSI types the Creator visits. */
  datatype PsiType =
    | PsiPrimitiveType(primitiveText: string)
    | PsiArrayType(arrayComponent: PsiType)
    | PsiEllipsisType(ellipsisComponent: PsiType)
    | PsiWildcardType(isExtends: bool, wildcardBound: Option<PsiType>)
    | PsiClassType(resolveResult: ClassResolveResult)

  /**
   * What resolveGenerics gives for a class type: its presentable text, the class it resolves to,
   * and what the substitutor maps the class's i-th type parameter to (null past the end).
   */
  datatype ClassResolveResult = ClassResolveResult(text: string, element: ClassElement, substitution: seq<Option<PsiType>>)

  datatype ClassElement =
    | Unresolved
    | AnonymousClass(baseClassType: ClassResolveResult)
    | NamedClass(name: string, qualifiedName: Option<string>, typeParameters: seq<string>)

  /** getTypeText. */
  function TypeText(t: CType): (text: string) {
    match t
    case Primitive(text) => text
    case Array(c) => TypeText(c) + "[]"
    case Ellipsis(c) => TypeText(c) + "..."
    case WildcardType(isExtending, bound) =>
      if bound.None? then "?" else "? " + (if isExtending then "extends " else "super ") + TypeText(bound.value)
    case WrongType(text) => text
    case ClassType(originalText, _, _) => originalText
  }

  type Subst = seq<(string, Option<CType>)>

  /** Map.get on a substitutor: the entry for the name, when there is one. */
  function SubstGet(m: Subst, name: string): (r: Option<Option<CType>>)
    ensures r.Some? <==> exists i :: 0 <= i < |m| && m[i].0 == name
  {
    if |m| == 0 then None
    else if m[0].0 == name then Some(m[0].1)
    else
      var r := SubstGet(m[1..], name);
      assert forall i :: 1 <= i < |m| ==> m[i] == m[1..][i - 1];
      r
  }

  predicate DistinctNames(m: Subst) {
    forall i, j :: 0 <= i < j < |m| ==> m[i].0 != m[j].0
  }

  /** HashMap.put on a substitutor: an existing name gets the new type, a new name is added. */
  function SubstPut(m: Subst, name: string, v: Option<CType>): (r: Subst)
    ensures SubstGet(r, name) == Some(v)
    ensures forall k :: k != name ==> SubstGet(r, k) == SubstGet(m, k)
    ensures forall k :: SubstGet(r, k).Some? <==> SubstGet(m, k).Some? || k == name
    ensures DistinctNames(m) ==> DistinctNames(r)
  {
    if |m| == 0 then [(name, v)]
    else if m[0].0 == name then
      var r := [(name, v)] + m[1..];
      assert r[1..] == m[1..];
      assert forall i :: 1 <= i < |r| ==> r[i] == m[i];
      r
    else
      var rest := SubstPut(m[1..], name, v);
      var r := [m[0]] + rest;
      assert r[1..] == rest;
      assert forall i :: 1 <= i < |m| ==> m[i] == m[1..][i - 1];
      assert forall i :: 1 <= i < |r| ==> r[i] == rest[i - 1];
      assert DistinctNames(m) ==> SubstGet(m[1..], m[0].0).None? && SubstGet(rest, m[0].0).None?;
      r
  }

  /** The puts of the Creator's loop over the type parameters, left to right. */
  function SubstPutAll(m: Subst, entries: Subst): (r: Subst)
    ensures DistinctNames(m) ==> DistinctNames(r)
    decreases |entries|
  {
    if |entries| == 0 then m else SubstPutAll(SubstPut(m, entries[0].0, entries[0].1), entries[1..])
  }

  /** A name none of the entries carries keeps its entry, or its absence, through the puts. */
  lemma {:induction false} SubstPutAllKeepsOthers(m: Subst, entries: Subst, name: string)
    requires forall j :: 0 <= j < |entries| ==> entries[j].0 != name
    ensures SubstGet(SubstPutAll(m, entries), name) == SubstGet(m, name)
    decreases |entries|
  {
    if |entries| > 0 {
      SubstPutAllKeepsOthers(SubstPut(m, entries[0].0, entries[0].1), entries[1..], name);
    }
  }

  /** After the puts, a name maps to the type of the last entry that carries it. */
  lemma {:induction false} SubstPutAllLastWins(m: Subst, entries: Subst, i: nat)
    requires i < |entries|
    requires forall j :: i < j < |entries| ==> entries[j].0 != entries[i].0
    ensures SubstGet(SubstPutAll(m, entries), entries[i].0) == Some(entries[i].1)
    decreases |entries|
  {
    var next := SubstPut(m, entries[0].0, entries[0].1);
    if i == 0 {
      SubstPutAllKeepsOthers(next, entries[1..], entries[0].0);
    } else {
      assert entries[1..][i - 1] == entries[i];
      SubstPutAllLastWins(next, entries[1..], i - 1);
    }
  }

  /** After the puts, exactly the names already present or carried by an entry have an entry. */
  lemma {:induction false} SubstPutAllNames(m: Subst, entries: Subst, name: string)
    ensures SubstGet(SubstPutAll(m, entries), name).Some?
            <==> SubstGet(m, name).Some? || exists j :: 0 <= j < |entries| && entries[j].0 == name
    decreases |entries|
  {
    if |entries| > 0 {
      SubstPutAllNames(SubstPut(m, entries[0].0, entries[0].1), entries[1..], name);
      assert forall j :: 1 <= j < |entries| ==> entries[j] == entries[1..][j - 1];
    }
  }

  function Flatten(ss: seq<seq<string>>): seq<string> {
    if |ss| == 0 then [] else ss[0] + Flatten(ss[1..])
  }

  /** addImportsTo: the strings handed to the fragment's addImportsFromString, in call order. */
  function Imports(t: CType): (names: seq<string>) {
    match t
    case Primitive(_) => []
    case Array(c) => Imports(c)
    case Ellipsis(c) => Imports(c)
    case WildcardType(_, bound) => if bound.None? then [] else Imports(bound.value)
    case WrongType(_) => []
    case ClassType(_, qName, subst) =>
      [qName] + Flatten(seq(|subst|, i requires 0 <= i < |subst| =>
        if subst[i].1.Some? then Imports(subst[i].1.value) else []))
  }

  /** The type a substitutor gives the i-th type parameter. */
  function Substitute(r: ClassResolveResult, i: nat): Option<PsiType> {
    if i < |r.substitution| then r.substitution[i] else None
  }

  /** createTypeWrapper: the Creator visitor. */
  function Wrap(pt: PsiType): CType
    decreases pt
  {
    match pt
    case PsiPrimitiveType(text) => Primitive(text)
    case PsiEllipsisType(c) => Ellipsis(Wrap(c))
    case PsiArrayType(c) => Array(Wrap(c))
    case PsiWildcardType(isExtends, bound) => WildcardType(isExtends, if bound.None? then None else Some(Wrap(bound.value)))
    case PsiClassType(r) => WrapClass(r)
  }

  /** visitClassType: an anonymous class is wrapped as its base class type, an unresolved one as WrongType. */
  function WrapClass(r: ClassResolveResult): CType
    decreases r
  {
    match r.element
    case AnonymousClass(base) => WrapClass(base)
    case Unresolved => WrongType(r.text)
    case NamedClass(name, qualifiedName, tps) =>
      ClassType(r.text, if qualifiedName.Some? then qualifiedName.value else name,
        SubstPutAll([], seq(|tps|, i requires 0 <= i < |tps| =>
          (tps[i], if i < |r.substitution| && r.substitution[i].Some? then Some(Wrap(r.substitution[i].value)) else None))))
  }

  /** Java's presentable text of a PSI type. */
  function PresentableText(pt: PsiType): string {
    match pt
    case PsiPrimitiveType(text) => text
    case PsiArrayType(c) => PresentableText(c) + "[]"
    case PsiEllipsisType(c) => PresentableText(c) + "..."
    case PsiWildcardType(isExtends, bound) =>
      if bound.None? then "?" else (if isExtends then "? extends " else "? super ") + PresentableText(bound.value)
    case PsiClassType(r) => r.text
  }

  /** No anonymous class at the top of a class type of the tree (its arguments are not rendered). */
  predicate NoAnonymousClass(pt: PsiType) {
    match pt
    case PsiPrimitiveType(_) => true
    case PsiArrayType(c) => NoAnonymousClass(c)
    case PsiEllipsisType(c) => NoAnonymousClass(c)
    case PsiWildcardType(_, bound) => bound.None? || NoAnonymousClass(bound.value)
    case PsiClassType(r) => !r.element.AnonymousClass?
  }

  /** A wrapper renders the same text as the PSI type it was made from. */
  lemma {:induction false} WrappedTextIsPresentableText(pt: PsiType)
    requires NoAnonymousClass(pt)
    ensures TypeText(Wrap(pt)) == PresentableText(pt)
  {
    match pt
    case PsiPrimitiveType(_) =>
    case PsiArrayType(c) => WrappedTextIsPresentableText(c);
    case PsiEllipsisType(c) => WrappedTextIsPresentableText(c);
    case PsiWildcardType(isExtends, bound) =>
      if bound.Some? {
        WrappedTextIsPresentableText(bound.value);
        assert "? " + (if isExtends then "extends " else "super ") + PresentableText(bound.value)
            == (if isExtends then "? extends " else "? super ") + PresentableText(bound.value);
      }
    case PsiClassType(r) =>
  }

  /** An anonymous class's type renders as its base class type. */
  lemma AnonymousClassWrapsAsBase(text: string, base: ClassResolveResult, substitution: seq<Option<PsiType>>)
    ensures TypeText(Wrap(PsiClassType(ClassResolveResult(text, AnonymousClass(base), substitution)))) == TypeText(WrapClass(base))
  {
  }

  /**
   * A named class becomes a class type with its qualified name (its short name when it has none).
   * Its substitutor has one entry per distinct type parameter name. A name maps to what the last
   * parameter of that name is substituted with, wrapped, and to null when that one is unsubstituted.
   */
  lemma WrapNamedClass(r: ClassResolveResult)
    requires r.element.NamedClass?
    ensures var t := WrapClass(r);
            var tps := r.element.typeParameters;
            t.ClassType? && t.originalText == r.text
            && t.classQName == (if r.element.qualifiedName.Some? then r.element.qualifiedName.value else r.element.name)
            && DistinctNames(t.substitutor)
            && (forall name :: SubstGet(t.substitutor, name).Some? <==> name in tps)
            && (forall i :: 0 <= i < |tps| && (forall j :: i < j < |tps| ==> tps[j] != tps[i])
                  ==> SubstGet(t.substitutor, tps[i])
                      == Some(if Substitute(r, i).Some? then Some(Wrap(Substitute(r, i).value)) else None))
  {
    var tps := r.element.typeParameters;
    var entries := seq(|tps|, i requires 0 <= i < |tps| =>
      (tps[i], if i < |r.substitution| && r.substitution[i].Some? then Some(Wrap(r.substitution[i].value)) else None));
    assert WrapClass(r).substitutor == SubstPutAll([], entries);
    forall name
      ensures SubstGet(SubstPutAll([], entries), name).Some? <==> name in tps
    {
      SubstPutAllNames([], entries, name);
      if name in tps {
        var j :| 0 <= j < |tps| && tps[j] == name;
        assert entries[j].0 == name;
      }
    }
    forall i | 0 <= i < |tps| && (forall j :: i < j < |tps| ==> tps[j] != tps[i])
      ensures SubstGet(SubstPutAll([], entries), tps[i])
              == Some(if Substitute(r, i).Some? then Some(Wrap(Substitute(r, i).value)) else None)
    {
      SubstPutAllLastWins([], entries, i);
    }
  }

  /** An unresolved class type becomes a WrongType carrying its presentable text. */
  lemma WrapUnresolved(r: ClassResolveResult)
    requires r.element.Unresolved?
    ensures WrapClass(r) == WrongType(r.text) && TypeText(WrapClass(r)) == r.text && Imports(WrapClass(r)) == []
  {
  }

  /** The class names a wrapper mentions: class types and, inside them, their substitution types. */
  predicate Mentions(t: CType, name: string) {
    match t
    case Primitive(_) => false
    case Array(c) => Mentions(c, name)
    case Ellipsis(c) => Mentions(c, name)
    case WildcardType(_, bound) => bound.Some? && Mentions(bound.value, name)
    case WrongType(_) => false
    case ClassType(_, qName, subst) =>
      qName == name || exists i :: 0 <= i < |subst| && subst[i].1.Some? && Mentions(subst[i].1.value, name)
  }

  lemma {:induction false} InFlatten(ss: seq<seq<string>>, x: string)
    ensures x in Flatten(ss) <==> exists i :: 0 <= i < |ss| && x in ss[i]
    decreases |ss|
  {
    if |ss| > 0 {
      InFlatten(ss[1..], x);
      if x in Flatten(ss[1..]) {
        var i :| 0 <= i < |ss[1..]| && x in ss[1..][i];
        assert x in ss[i + 1];
      }
      if exists i :: 0 <= i < |ss| && x in ss[i] {
        var i :| 0 <= i < |ss| && x in ss[i];
        if i > 0 {
          assert x in ss[1..][i - 1];
        }
      }
    }
  }

  /** The imports of a wrapper are exactly the class names it mentions; primitives and wrong types need none. */
  lemma {:induction false} ImportsAreMentionedNames(t: CType, name: string)
    ensures name in Imports(t) <==> Mentions(t, name)
  {
    match t
    case Primitive(_) =>
    case Array(c) => ImportsAreMentionedNames(c, name);
    case Ellipsis(c) => ImportsAreMentionedNames(c, name);
    case WildcardType(_, bound) =>
      if bound.Some? {
        ImportsAreMentionedNames(bound.value, name);
      }
    case WrongType(_) =>
    case ClassType(_, qName, subst) =>
      var ss := seq(|subst|, i requires 0 <= i < |subst| =>
        if subst[i].1.Some? then Imports(subst[i].1.value) else []);
      InFlatten(ss, name);
      forall i | 0 <= i < |subst| && subst[i].1.Some?
        ensures name in ss[i] <==> Mentions(subst[i].1.value, name)
      {
        ImportsAreMentionedNames(subst[i].1.value, name);
      }
      if name in Flatten(ss) {
        var i :| 0 <= i < |ss| && name in ss[i];
        assert subst[i].1.Some? && Mentions(subst[i].1.value, name);
      }
      if exists i :: 0 <= i < |subst| && subst[i].1.Some? && Mentions(subst[i].1.value, name) {
        var i :| 0 <= i < |subst| && subst[i].1.Some? && Mentions(subst[i].1.value, name);
        assert name in ss[i];
      }
  }

  /** The first import of a class type is its own qualified name. */
  lemma ClassTypeImportsItselfFirst(originalText: string, qName: string, subst: seq<(string, Option<CType>)>)
    ensures |Imports(ClassType(originalText, qName, subst))| > 0
    ensures Imports(ClassType(originalText, qName, subst))[0] == qName
  {
  }

  /**
   * A bounded wildcard renders as `? extends B` or `? super B` and imports what its bound imports;
   * the unbounded one renders as `?` and imports nothing.
   */
  lemma WildcardTextAndImports(isExtending: bool, bound: Option<CType>)
    ensures bound.None? ==> TypeText(WildcardType(isExtending, bound)) == "?" && Imports(WildcardType(isExtending, bound)) == []
    ensures bound.Some? ==> TypeText(WildcardType(isExtending, bound))
                            == (if isExtending then "? extends " else "? super ") + TypeText(bound.value)
    ensures bound.Some? ==> Imports(WildcardType(isExtending, bound)) == Imports(bound.value)
  {
    if bound.Some? {
      assert "? " + (if isExtending then "extends " else "super ") + TypeText(bound.value)
          == (if isExtending then "? extends " else "? super ") + TypeText(bound.value);
    }
  }
}
