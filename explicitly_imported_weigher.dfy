/**
 * ExplicitlyImportedWeigher: a proximity weigher that ranks an element higher
 * when it lives in the same file as the completion position, is imported by
 * that file (by a single-type or an on-demand import), or is a member in the
 * position's own package and module. The weight is a Boolean, or null when
 * there is no position.
 */
module ExplicitlyImportedWeigher {
  import opened Wrappers
  import opened JavaLang

  datatype Weight = NullWeight | Weight(value: bool)

  /** An import statement: on-demand or single-type, with its qualified name (null when unresolvable). */
  datatype ImportStatement = ImportStatement(onDemand: bool, qualifiedName: Option<string>)

  /** The Java file around the position, with its import list when it has one. */
  datatype JavaFile = JavaFile(importList: Option<seq<ImportStatement>>)

  /** What the weigher reads about the completion position; files and modules are identified by number. */
  datatype Position = Position(
    originalFile: Option<int>,
    javaFile: Option<JavaFile>,
    placePackage: Option<string>,
    positionModule: Option<int>)

  /** What the weigher reads about the element being weighed. */
  datatype Element = Element(
    originalFile: Option<int>,
    isClass: bool,
    qualifiedName: Option<string>,
    isMember: bool,
    elementModule: Option<int>,
    elementPackage: Option<string>)

  /** Java string concatenation turns a null into "null". */
  function JavaText(s: Option<string>): string {
    if s.Some? then s.value else "null"
  }

  /** One import statement matches the class qualified name qname. */
  predicate ImportMatches(qname: string, i: ImportStatement) {
    (i.onDemand && StartsWith(qname, JavaText(i.qualifiedName) + "."))
    || (!i.onDemand && i.qualifiedName == Some(qname))
  }

  /** The import loop: true at the first matching statement at or after `from`. */
  function ImportedFrom(qname: string, imports: seq<ImportStatement>, from: nat): (r: bool)
    requires from <= |imports|
    ensures r <==> exists j :: from <= j < |imports| && ImportMatches(qname, imports[j])
    decreases |imports| - from
  {
    if from == |imports| then false
    else if ImportMatches(qname, imports[from]) then true
    else ImportedFrom(qname, imports, from + 1)
  }

  /** The element is a class with a qualified name that some import of the position's Java file matches. */
  predicate ExplicitlyImported(element: Element, p: Position) {
    element.isClass && element.qualifiedName.Some? && p.javaFile.Some? && p.javaFile.value.importList.Some?
    && exists j :: 0 <= j < |p.javaFile.value.importList.value|
         && ImportMatches(element.qualifiedName.value, p.javaFile.value.importList.value[j])
  }

  predicate SameOriginalFile(element: Element, p: Position) {
    p.originalFile.Some? && element.originalFile.Some? && p.originalFile == element.originalFile
  }

  /** A member in the position's package (which must exist) and in the position's module. */
  predicate SamePackageMember(element: Element, p: Position) {
    element.isMember && p.placePackage.Some? && p.positionModule == element.elementModule
    && Some(p.placePackage.value) == element.elementPackage
  }

  /** weigh: null without a position; otherwise true exactly for same-file, imported or same-package elements. */
  function Weigh(element: Element, position: Option<Position>): (r: Weight)
    ensures position.None? <==> r == NullWeight
    ensures position.Some? ==> (r == Weight(true) <==>
      SameOriginalFile(element, position.value) || ExplicitlyImported(element, position.value)
      || SamePackageMember(element, position.value))
  {
    if position.None? then NullWeight
    else
      var p := position.value;
      if p.originalFile.Some? && element.originalFile.Some? && p.originalFile.value == element.originalFile.value then Weight(true)
      else if element.isClass && element.qualifiedName.Some? && p.javaFile.Some? && p.javaFile.value.importList.Some?
              && ImportedFrom(element.qualifiedName.value, p.javaFile.value.importList.value, 0) then Weight(true)
      else if element.isMember then
        if p.placePackage.None? then Weight(false)
        else Weight(p.positionModule == element.elementModule && Some(p.placePackage.value) == element.elementPackage)
      else Weight(false)
  }

  /** An on-demand import of a package matches every class named inside it, nested classes and subpackages included. */
  lemma OnDemandImportMatchesSubpackage(pkg: string, rest: string)
    ensures ImportMatches(pkg + "." + rest, ImportStatement(true, Some(pkg)))
  {
    assert (pkg + "." + rest)[..|pkg + "."|] == pkg + ".";
  }

  /** An on-demand import matches exactly the names that start with its package and a dot. */
  lemma OnDemandImportMatchesOnlyItsPackage(qname: string, pkg: string)
    ensures ImportMatches(qname, ImportStatement(true, Some(pkg)))
      <==> exists rest :: qname == pkg + "." + rest
  {
    if ImportMatches(qname, ImportStatement(true, Some(pkg))) {
      var rest := qname[|pkg + "."|..];
      assert qname == qname[..|pkg + "."|] + rest;
    }
  }

  /**
   * An unresolved on-demand import reads as the package "null", so it matches
   * every class under a package of that name; an unresolved single-type
   * import matches nothing.
   */
  lemma NullOnDemandImportMatchesNullPackage(qname: string, rest: string)
    ensures ImportMatches("null." + rest, ImportStatement(true, None))
    ensures !ImportMatches(qname, ImportStatement(false, None))
  {
    assert ("null." + rest)[..|"null."|] == "null.";
  }
}
