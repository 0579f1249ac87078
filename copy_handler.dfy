/**
 * CopyHandler: dispatches copy and clone requests to the registered copy
 * delegates. The delegates are a sequence in extension order; whether a
 * delegate accepts an element array is the delegate's own canCopy, passed in
 * as a function. The effect of dispatching is the index of the one delegate
 * whose doCopy (or doClone) is invoked.
 */
module CopyHandler {
  import opened Wrappers

  /** The index of the first delegate at or after `from` that accepts the elements. */
  function FirstAccepting<D, E>(delegates: seq<D>, canCopy: (D, seq<E>) -> bool, elements: seq<E>, from: nat): (r: Option<nat>)
    requires from <= |delegates|
    ensures r.Some? ==> from <= r.value < |delegates| && canCopy(delegates[r.value], elements)
    ensures r.Some? ==> forall j :: from <= j < r.value ==> !canCopy(delegates[j], elements)
    ensures r.None? ==> forall j :: from <= j < |delegates| ==> !canCopy(delegates[j], elements)
    decreases |delegates| - from
  {
    if from == |delegates| then None
    else if canCopy(delegates[from], elements) then Some(from)
    else FirstAccepting(delegates, canCopy, elements, from + 1)
  }

  /** canCopy: a non-empty array that some delegate accepts. */
  predicate CanCopy<D, E>(delegates: seq<D>, canCopy: (D, seq<E>) -> bool, elements: seq<E>) {
    |elements| > 0 && FirstAccepting(delegates, canCopy, elements, 0).Some?
  }

  /** doCopy: the delegate invoked, if any. */
  function DoCopy<D, E>(delegates: seq<D>, canCopy: (D, seq<E>) -> bool, elements: seq<E>): (invoked: Option<nat>)
    ensures |elements| == 0 ==> invoked == None
    ensures invoked.Some? ==> invoked.value < |delegates| && canCopy(delegates[invoked.value], elements)
    ensures invoked.Some? ==> forall j :: 0 <= j < invoked.value ==> !canCopy(delegates[j], elements)
    ensures |elements| > 0 && invoked.None? ==> forall j :: 0 <= j < |delegates| ==> !canCopy(delegates[j], elements)
  {
    if |elements| == 0 then None else FirstAccepting(delegates, canCopy, elements, 0)
  }

  /** doClone: the delegate invoked for the singleton array of the element, if any. */
  function DoClone<D, E>(delegates: seq<D>, canCopy: (D, seq<E>) -> bool, element: E): (invoked: Option<nat>)
    ensures invoked.Some? ==> invoked.value < |delegates| && canCopy(delegates[invoked.value], [element])
    ensures invoked.Some? ==> forall j :: 0 <= j < invoked.value ==> !canCopy(delegates[j], [element])
    ensures invoked.None? ==> forall j :: 0 <= j < |delegates| ==> !canCopy(delegates[j], [element])
  {
    FirstAccepting(delegates, canCopy, [element], 0)
  }

  /** canCopy holds exactly when the array is non-empty and some delegate accepts it. */
  lemma CanCopyIffSomeDelegateAccepts<D, E>(delegates: seq<D>, canCopy: (D, seq<E>) -> bool, elements: seq<E>)
    ensures CanCopy(delegates, canCopy, elements)
      <==> |elements| > 0 && exists j :: 0 <= j < |delegates| && canCopy(delegates[j], elements)
  {
    var r := FirstAccepting(delegates, canCopy, elements, 0);
    if r.Some? {
      assert canCopy(delegates[r.value], elements);
    }
  }
}
