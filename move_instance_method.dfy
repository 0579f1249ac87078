/**
 * MoveInstanceMethodHandler: decides whether an instance method can be moved
 * and to which variables. A constructor, a method of a generic class using its
 * type parameters, a method in an inheritance hierarchy or one referencing a
 * synthetic JSP class is refused with a message, in that order; otherwise the
 * method's parameters and then its class's fields are the candidates, and a
 * candidate is suitable when its type is a non-generic class type resolving to a
 * class (not a type parameter) in the project. With no suitable variable the
 * message names the first stage every candidate failed. The parameter names
 * suggested for the classes whose members the method uses skip a class reached
 * only through the target variable.
 *
 * PSI queries (super methods, overriders, the classes referenced through this,
 * name suggestions) are answered by the values handed in.
 */
module MoveInstanceMethod {
  import opened Wrappers

  datatype ResolvedClass = Unresolved | TypeParameterClass | ResolvedTo(classId: int, inProject: bool)

  datatype VariableType = ClassType(hasParameters: bool, resolved: ResolvedClass) | OtherType

  datatype Variable = Variable(id: int, varType: VariableType)

  datatype Method = Method(
    isConstructor: bool,
    classHasTypeParameters: bool,
    usesTypeParameters: bool,
    hasSuperMethods: bool,
    hasOverridingMethods: bool,
    /** For each class the method refers to through `this`, whether it is a synthetic JSP class, in iteration order. */
    thisClassesAreJsp: seq<bool>,
    parameters: seq<Variable>,
    fields: seq<Variable>)

  datatype Element = MethodElement(m: Method) | OtherElement

  datatype Message =
    | NotSupportedForConstructors
    | NotSupportedForGenericClasses
    | PartOfInheritanceHierarchy
    | JspClassReferenced
    | NoVariablesWithReferenceType
    | CandidatesHaveUnknownTypes
    | CandidateTypesNotInProject

  /** An error hint: the message as it is, or wrapped as "cannot perform refactoring". */
  datatype Hint = PlainHint(message: Message) | CannotRefactorHint(message: Message)

  datatype Outcome = Nothing | ErrorHints(hints: seq<Hint>) | OpenDialog(suitableVariables: seq<Variable>)

  /** The refusals checked before looking at variables, in order of precedence. */
  function PrecheckMessage(m: Method): Option<Message> {
    if m.isConstructor then Some(NotSupportedForConstructors)
    else if m.classHasTypeParameters && m.usesTypeParameters then Some(NotSupportedForGenericClasses)
    else if m.hasSuperMethods || m.hasOverridingMethods then Some(PartOfInheritanceHierarchy)
    else if true in m.thisClassesAreJsp then Some(JspClassReferenced)
    else None
  }

  predicate IsPlainClassType(v: Variable) {
    v.varType.ClassType? && !v.varType.hasParameters
  }

  predicate IsResolvableClass(v: Variable) {
    IsPlainClassType(v) && v.varType.resolved.ResolvedTo?
  }

  predicate IsSuitable(v: Variable) {
    IsResolvableClass(v) && v.varType.resolved.inProject
  }

  /** The candidates: the parameters, then the fields. */
  function Candidates(m: Method): seq<Variable> {
    m.parameters + m.fields
  }

  function SuitableVariables(vs: seq<Variable>): seq<Variable> {
    if |vs| == 0 then []
    else SuitableVariables(vs[..|vs| - 1]) + (if IsSuitable(vs[|vs| - 1]) then [vs[|vs| - 1]] else [])
  }

  /** The message when no candidate is suitable, naming the first stage all of them failed. */
  function CandidateMessage(vs: seq<Variable>): Option<Message> {
    if SuitableVariables(vs) != [] then None
    else if !(exists k :: 0 <= k < |vs| && IsPlainClassType(vs[k])) then Some(NoVariablesWithReferenceType)
    else if !(exists k :: 0 <= k < |vs| && IsResolvableClass(vs[k])) then Some(CandidatesHaveUnknownTypes)
    else if !(exists k :: 0 <= k < |vs| && IsSuitable(vs[k])) then Some(CandidateTypesNotInProject)
    else None
  }

  /** The suitable variables are exactly the suitable candidates, in candidate order. */
  lemma {:induction false} SuitableVariablesMembers(vs: seq<Variable>)
    ensures forall v :: v in SuitableVariables(vs) <==> v in vs && IsSuitable(v)
    ensures |SuitableVariables(vs)| <= |vs|
    decreases |vs|
  {
    if |vs| > 0 {
      SuitableVariablesMembers(vs[..|vs| - 1]);
      assert vs == vs[..|vs| - 1] + [vs[|vs| - 1]];
    }
  }

  lemma {:induction false} SuitableVariablesAppend(xs: seq<Variable>, ys: seq<Variable>)
    ensures SuitableVariables(xs + ys) == SuitableVariables(xs) + SuitableVariables(ys)
    decreases |ys|
  {
    if |ys| == 0 {
      assert xs + ys == xs;
    } else {
      SuitableVariablesAppend(xs, ys[..|ys| - 1]);
      assert (xs + ys)[..|xs + ys| - 1] == xs + ys[..|ys| - 1];
    }
  }

  /** Without a suitable variable there is always a message, and the last stage's message is reached only past the others. */
  lemma EmptySuitableAlwaysHasMessage(vs: seq<Variable>)
    ensures SuitableVariables(vs) == [] <==> CandidateMessage(vs).Some?
    ensures CandidateMessage(vs) == Some(CandidateTypesNotInProject) ==>
      exists k :: 0 <= k < |vs| && IsResolvableClass(vs[k]) && !vs[k].varType.resolved.inProject
  {
    SuitableVariablesMembers(vs);
    if SuitableVariables(vs) == [] {
      forall k | 0 <= k < |vs|
        ensures !IsSuitable(vs[k])
      {
        assert vs[k] in vs;
      }
    } else {
      var v := SuitableVariables(vs)[0];
      assert v in SuitableVariables(vs);
    }
  }

  /** A parameter that is suitable is offered before any field. */
  lemma ParametersComeFirst(m: Method)
    ensures SuitableVariables(Candidates(m)) == SuitableVariables(m.parameters) + SuitableVariables(m.fields)
  {
    SuitableVariablesAppend(m.parameters, m.fields);
  }

  /** What invoke does for a method once the early checks pass. */
  function Decision(m: Method): Outcome {
    var pre := PrecheckMessage(m);
    if pre.Some? then
      ErrorHints((if pre.value == JspClassReferenced then [PlainHint(JspClassReferenced)] else []) + [CannotRefactorHint(pre.value)])
    else
      var cm := CandidateMessage(Candidates(m));
      if cm.Some? then ErrorHints([CannotRefactorHint(cm.value)]) else OpenDialog(SuitableVariables(Candidates(m)))
  }

  /** The dialog is opened only with suitable variables and only when no stage refused. */
  lemma DialogOnlyWithoutMessage(m: Method)
    ensures Decision(m).OpenDialog? <==> PrecheckMessage(m).None? && SuitableVariables(Candidates(m)) != []
    ensures Decision(m).OpenDialog? ==> forall v :: v in Decision(m).suitableVariables ==> v in Candidates(m) && IsSuitable(v)
  {
    EmptySuitableAlwaysHasMessage(Candidates(m));
    SuitableVariablesMembers(Candidates(m));
  }

  /** A constructor is refused as a constructor, whatever else holds. */
  lemma ConstructorRefusedFirst(m: Method)
    requires m.isConstructor
    ensures Decision(m) == ErrorHints([CannotRefactorHint(NotSupportedForConstructors)])
  {
  }

  /** The loop over the classes referenced through `this`, stopping at the first JSP class. */
  method FindJspClass(thisClassesAreJsp: seq<bool>) returns (found: bool)
    ensures found <==> true in thisClassesAreJsp
  {
    found := false;
    var i := 0;
    while i < |thisClassesAreJsp|
      invariant 0 <= i <= |thisClassesAreJsp|
      invariant !found && true !in thisClassesAreJsp[..i]
    {
      assert thisClassesAreJsp[..i + 1] == thisClassesAreJsp[..i] + [thisClassesAreJsp[i]];
      if thisClassesAreJsp[i] {
        found := true;
        break;
      }
      i := i + 1;
    }
    if !found {
      assert thisClassesAreJsp[..i] == thisClassesAreJsp;
    }
  }

  /** The loop over the candidates: the suitable ones, and whether some candidate passed each stage. */
  method CollectSuitable(allVariables: seq<Variable>)
    returns (suitableVariables: seq<Variable>, classTypesFound: bool, resolvableClassesFound: bool, classesInProjectFound: bool)
    ensures suitableVariables == SuitableVariables(allVariables)
    ensures classTypesFound <==> exists k :: 0 <= k < |allVariables| && IsPlainClassType(allVariables[k])
    ensures resolvableClassesFound <==> exists k :: 0 <= k < |allVariables| && IsResolvableClass(allVariables[k])
    ensures classesInProjectFound <==> exists k :: 0 <= k < |allVariables| && IsSuitable(allVariables[k])
  {
    suitableVariables := [];
    classTypesFound, resolvableClassesFound, classesInProjectFound := false, false, false;
    var j := 0;
    while j < |allVariables|
      invariant 0 <= j <= |allVariables|
      invariant suitableVariables == SuitableVariables(allVariables[..j])
      invariant classTypesFound <==> exists k :: 0 <= k < j && IsPlainClassType(allVariables[k])
      invariant resolvableClassesFound <==> exists k :: 0 <= k < j && IsResolvableClass(allVariables[k])
      invariant classesInProjectFound <==> exists k :: 0 <= k < j && IsSuitable(allVariables[k])
    {
      assert allVariables[..j + 1][..j] == allVariables[..j];
      var variable := allVariables[j];
      var t := variable.varType;
      if t.ClassType? && !t.hasParameters {
        classTypesFound := true;
        if t.resolved.ResolvedTo? {
          resolvableClassesFound := true;
          if t.resolved.inProject {
            classesInProjectFound := true;
            suitableVariables := suitableVariables + [variable];
          }
        }
      }
      j := j + 1;
    }
    assert allVariables[..j] == allVariables;
  }

  /**
   * invoke: nothing unless exactly one method is given; the stages run in order, a JSP class shows
   * its hint at once, and the candidate loop records which stages some candidate passed.
   */
  method Invoke(elements: seq<Element>) returns (outcome: Outcome)
    ensures |elements| != 1 || !elements[0].MethodElement? ==> outcome == Nothing
    ensures |elements| == 1 && elements[0].MethodElement? ==> outcome == Decision(elements[0].m)
  {
    if |elements| != 1 || !elements[0].MethodElement? {
      return Nothing;
    }
    var method_ := elements[0].m;
    var message: Option<Message> := None;
    var hints: seq<Hint> := [];
    if method_.isConstructor {
      message := Some(NotSupportedForConstructors);
    } else if method_.classHasTypeParameters && method_.usesTypeParameters {
      message := Some(NotSupportedForGenericClasses);
    } else if method_.hasSuperMethods || method_.hasOverridingMethods {
      message := Some(PartOfInheritanceHierarchy);
    } else {
      var jsp := FindJspClass(method_.thisClassesAreJsp);
      if jsp {
        message := Some(JspClassReferenced);
        hints := [PlainHint(JspClassReferenced)];
      }
    }
    if message.Some? {
      return ErrorHints(hints + [CannotRefactorHint(message.value)]);
    }
    var suitableVariables, classTypesFound, resolvableClassesFound, classesInProjectFound :=
      CollectSuitable(method_.parameters + method_.fields);
    if suitableVariables == [] {
      if !classTypesFound {
        message := Some(NoVariablesWithReferenceType);
      } else if !resolvableClassesFound {
        message := Some(CandidatesHaveUnknownTypes);
      } else if !classesInProjectFound {
        message := Some(CandidateTypesNotInProject);
      }
    }
    if message.Some? {
      return ErrorHints([CannotRefactorHint(message.value)]);
    }
    return OpenDialog(suitableVariables);
  }

  /** suggestParameterNameForThisClass: the first suggested name, or "" when there is none. */
  function SuggestParameterNameForThisClass(names: seq<string>): (r: string)
    ensures |names| > 0 ==> r == names[0]
    ensures |names| == 0 ==> r == ""
  {
    if |names| > 0 then names[0] else ""
  }

  /** LinkedHashMap.put on an insertion-ordered list of entries: an existing key keeps its place. */
  function Put(entries: seq<(int, string)>, k: int, v: string): seq<(int, string)> {
    if |entries| == 0 then [(k, v)]
    else if entries[0].0 == k then [(k, v)] + entries[1..]
    else [entries[0]] + Put(entries[1..], k, v)
  }

  function Keys(entries: seq<(int, string)>): seq<int> {
    seq(|entries|, i requires 0 <= i < |entries| => entries[i].0)
  }

  /** Putting a new key appends it. */
  lemma {:induction false} PutNewKeyAppends(entries: seq<(int, string)>, k: int, v: string)
    requires k !in Keys(entries)
    ensures Put(entries, k, v) == entries + [(k, v)]
    decreases |entries|
  {
    if |entries| > 0 {
      assert entries[0].0 == Keys(entries)[0];
      assert Keys(entries[1..]) == Keys(entries)[1..];
      PutNewKeyAppends(entries[1..], k, v);
      assert entries == [entries[0]] + entries[1..];
    }
  }

  /** Whether a class is reached only through the target variable. */
  predicate OnlyThroughTarget(members: set<int>, targetVariable: int) {
    |members| == 1 && targetVariable in members
  }

  /** The suggestions for the classes, in the map's order, skipping those reached only through the target. */
  function SuggestedNames(classesToMembers: seq<(int, set<int>)>, targetVariable: int, suggestions: int -> seq<string>): seq<(int, string)> {
    if |classesToMembers| == 0 then []
    else
      var e := classesToMembers[|classesToMembers| - 1];
      var acc := SuggestedNames(classesToMembers[..|classesToMembers| - 1], targetVariable, suggestions);
      if OnlyThroughTarget(e.1, targetVariable) then acc
      else Put(acc, e.0, SuggestParameterNameForThisClass(suggestions(e.0)))
  }

  predicate DistinctKeys(classesToMembers: seq<(int, set<int>)>) {
    forall i, j :: 0 <= i < j < |classesToMembers| ==> classesToMembers[i].0 != classesToMembers[j].0
  }

  /** The reference definition: each entry not reached only through the target, paired with its suggestion. */
  function Kept(classesToMembers: seq<(int, set<int>)>, targetVariable: int, suggestions: int -> seq<string>): seq<(int, string)> {
    if |classesToMembers| == 0 then []
    else
      var e := classesToMembers[|classesToMembers| - 1];
      Kept(classesToMembers[..|classesToMembers| - 1], targetVariable, suggestions)
        + (if OnlyThroughTarget(e.1, targetVariable) then [] else [(e.0, SuggestParameterNameForThisClass(suggestions(e.0)))])
  }

  /** The kept entries are exactly the classes not reached only through the target, each paired with its first suggestion. */
  lemma {:induction false} KeptMembers(classesToMembers: seq<(int, set<int>)>, targetVariable: int, suggestions: int -> seq<string>)
    ensures forall e :: e in Kept(classesToMembers, targetVariable, suggestions) <==>
      exists i :: 0 <= i < |classesToMembers| && !OnlyThroughTarget(classesToMembers[i].1, targetVariable)
                  && e == (classesToMembers[i].0, SuggestParameterNameForThisClass(suggestions(classesToMembers[i].0)))
    decreases |classesToMembers|
  {
    var n := |classesToMembers|;
    if n > 0 {
      var init := classesToMembers[..n - 1];
      KeptMembers(init, targetVariable, suggestions);
      forall e
        ensures e in Kept(classesToMembers, targetVariable, suggestions) <==>
          exists i :: 0 <= i < n && !OnlyThroughTarget(classesToMembers[i].1, targetVariable)
                      && e == (classesToMembers[i].0, SuggestParameterNameForThisClass(suggestions(classesToMembers[i].0)))
      {
        if exists i :: 0 <= i < n && !OnlyThroughTarget(classesToMembers[i].1, targetVariable)
                       && e == (classesToMembers[i].0, SuggestParameterNameForThisClass(suggestions(classesToMembers[i].0))) {
          var i :| 0 <= i < n && !OnlyThroughTarget(classesToMembers[i].1, targetVariable)
                   && e == (classesToMembers[i].0, SuggestParameterNameForThisClass(suggestions(classesToMembers[i].0)));
          if i < n - 1 {
            assert init[i] == classesToMembers[i];
          }
        }
        if e in Kept(init, targetVariable, suggestions) {
          var i :| 0 <= i < n - 1 && !OnlyThroughTarget(init[i].1, targetVariable)
                   && e == (init[i].0, SuggestParameterNameForThisClass(suggestions(init[i].0)));
          assert init[i] == classesToMembers[i];
        }
      }
    }
  }

  /** With the distinct keys of a map, the ordered map that suggestParameterNames builds is the reference list. */
  lemma {:induction false} SuggestedNamesAreKept(classesToMembers: seq<(int, set<int>)>, targetVariable: int, suggestions: int -> seq<string>)
    requires DistinctKeys(classesToMembers)
    ensures SuggestedNames(classesToMembers, targetVariable, suggestions) == Kept(classesToMembers, targetVariable, suggestions)
    decreases |classesToMembers|
  {
    var n := |classesToMembers|;
    if n > 0 {
      var init := classesToMembers[..n - 1];
      var e := classesToMembers[n - 1];
      SuggestedNamesAreKept(init, targetVariable, suggestions);
      KeptMembers(init, targetVariable, suggestions);
      var acc := Kept(init, targetVariable, suggestions);
      forall p | 0 <= p < |acc|
        ensures Keys(acc)[p] != e.0
      {
        assert acc[p] in acc;
        var i :| 0 <= i < |init| && !OnlyThroughTarget(init[i].1, targetVariable)
                 && acc[p] == (init[i].0, SuggestParameterNameForThisClass(suggestions(init[i].0)));
        assert classesToMembers[i].0 != classesToMembers[n - 1].0;
      }
      if !OnlyThroughTarget(e.1, targetVariable) {
        PutNewKeyAppends(acc, e.0, SuggestParameterNameForThisClass(suggestions(e.0)));
      }
    }
  }

  /** suggestParameterNames: the loop over the map's entries, with `continue` for a class reached only through the target. */
  method SuggestParameterNames(classesToMembers: seq<(int, set<int>)>, targetVariable: int, suggestions: int -> seq<string>)
    returns (result: seq<(int, string)>)
    ensures result == SuggestedNames(classesToMembers, targetVariable, suggestions)
  {
    result := [];
    var i := 0;
    while i < |classesToMembers|
      invariant 0 <= i <= |classesToMembers|
      invariant result == SuggestedNames(classesToMembers[..i], targetVariable, suggestions)
    {
      assert classesToMembers[..i + 1][..i] == classesToMembers[..i];
      var aClass := classesToMembers[i].0;
      var members := classesToMembers[i].1;
      if |members| == 1 && targetVariable in members {
        i := i + 1;
        continue;
      }
      result := Put(result, aClass, SuggestParameterNameForThisClass(suggestions(aClass)));
      i := i + 1;
    }
    assert classesToMembers[..i] == classesToMembers;
  }
}
