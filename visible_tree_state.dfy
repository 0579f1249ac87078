/**
 * VisibleTreeState: the persisted expansion and selection of the inspection
 * profile tree. Nodes are remembered as States: an inspection's descriptor or a
 * group's name, keyed by its text. The two sets are TreeSets, so membership is
 * decided by State.compareTo; restoring walks the tree in preorder and collects
 * the paths of the remembered nodes.
 *
 * A TreeSet is a sequence of states with no two comparing equal at insertion;
 * contains, add and remove go by compareTo returning 0.
 */
module VisibleTreeState {
  import opened Wrappers
  import JavaLang

  /** An inspection descriptor: its text (toString), its scope's name if it has a scope, and its hashCode. */
  datatype Descriptor = Descriptor(text: string, scope: Option<string>, hash: int)

  datatype State = State(key: string, descriptor: Option<Descriptor>)

  /** A tree node: an inspection node carries a descriptor, a group node only its group name. */
  datatype Node = Node(descriptor: Option<Descriptor>, groupName: string, children: seq<Node>)

  /** The result of restoring: the first node is selected when no selected state matched. */
  datatype Selection = SelectFirstNode | SelectPaths(paths: seq<seq<nat>>)

  /** new State(String). */
  function KeyState(key: string): State {
    State(key, None)
  }

  /** new State(Descriptor): keyed by the descriptor's text. */
  function DescriptorState(d: Descriptor): State {
    State(d.text, Some(d))
  }

  /** getState: the state of a node's descriptor, or of its group name when it has none. */
  function NodeState(n: Node): State {
    if n.descriptor.Some? then DescriptorState(n.descriptor.value) else KeyState(n.groupName)
  }

  /** String.compareTo: the difference of the first differing characters, else of the lengths. */
  function JavaCompare(s: string, t: string): int {
    if |s| == 0 || |t| == 0 then |s| - |t|
    else if s[0] != t[0] then s[0] as int - t[0] as int
    else JavaCompare(s[1..], t[1..])
  }

  lemma {:induction false} JavaCompareZero(s: string, t: string)
    ensures JavaCompare(s, t) == 0 <==> s == t
  {
    if |s| > 0 && |t| > 0 && s[0] == t[0] {
      JavaCompareZero(s[1..], t[1..]);
      if s[1..] == t[1..] {
        assert s == [s[0]] + s[1..] && t == [t[0]] + t[1..];
      }
    }
  }

  lemma {:induction false} JavaCompareAntisymmetric(s: string, t: string)
    ensures JavaCompare(t, s) == -JavaCompare(s, t)
  {
    if |s| > 0 && |t| > 0 && s[0] == t[0] {
      JavaCompareAntisymmetric(s[1..], t[1..]);
    }
  }

  lemma {:induction false} JavaCompareTransitive(a: string, b: string, c: string)
    requires JavaCompare(a, b) < 0 && JavaCompare(b, c) < 0
    ensures JavaCompare(a, c) < 0
  {
    if |a| > 0 && |b| > 0 && |c| > 0 && a[0] == b[0] && b[0] == c[0] {
      JavaCompareTransitive(a[1..], b[1..], c[1..]);
    }
  }

  /** State.equals: the keys alone decide. */
  predicate StateEquals(a: State, b: State) {
    a.key == b.key
  }

  /** The scope names compareTo consults: only when both states have descriptors and both descriptors have scopes. */
  predicate BothScoped(a: State, b: State) {
    a.descriptor.Some? && b.descriptor.Some? && a.descriptor.value.scope.Some? && b.descriptor.value.scope.Some?
  }

  /** State.compareTo: by scope name when the keys are equal and both have scopes, otherwise by key. */
  function CompareTo(a: State, b: State): int {
    if a.key == b.key && BothScoped(a, b) then JavaCompare(a.descriptor.value.scope.value, b.descriptor.value.scope.value)
    else JavaCompare(a.key, b.key)
  }

  /** Two states a TreeSet treats as the same element. */
  predicate Same(a: State, b: State) {
    CompareTo(a, b) == 0
  }

  /**
   * compareTo orders by key; states with equal keys compare equal, unless both have scopes, when their
   * scope names decide. Comparing equal is symmetric and reflexive.
   */
  lemma CompareToOrdersByKey(a: State, b: State)
    ensures a.key != b.key ==> CompareTo(a, b) == JavaCompare(a.key, b.key) && !Same(a, b)
    ensures a.key == b.key && !BothScoped(a, b) ==> Same(a, b)
    ensures a.key == b.key && BothScoped(a, b) ==>
      (Same(a, b) <==> a.descriptor.value.scope.value == b.descriptor.value.scope.value)
    ensures Same(a, b) <==> Same(b, a)
    ensures Same(a, a)
  {
    JavaCompareZero(a.key, b.key);
    JavaCompareZero(a.key, a.key);
    JavaCompareAntisymmetric(a.key, b.key);
    if BothScoped(a, b) {
      JavaCompareZero(a.descriptor.value.scope.value, b.descriptor.value.scope.value);
      JavaCompareAntisymmetric(a.descriptor.value.scope.value, b.descriptor.value.scope.value);
    }
    if BothScoped(a, a) {
      JavaCompareZero(a.descriptor.value.scope.value, a.descriptor.value.scope.value);
    }
  }

  /** States compareTo calls the same are equal, so the TreeSet never holds what equals would call distinct. */
  lemma SameStatesAreEqual(a: State, b: State)
    requires Same(a, b)
    ensures StateEquals(a, b)
  {
    CompareToOrdersByKey(a, b);
  }

  /**
   * compareTo is not transitive in what it calls equal: a scope-less state with the same key compares
   * equal to two states whose scopes differ.
   */
  lemma CompareToIsNotTransitive()
    ensures var a := DescriptorState(Descriptor("Unused", Some("Tests"), 0));
            var b := KeyState("Unused");
            var c := DescriptorState(Descriptor("Unused", Some("Production"), 0));
            Same(a, b) && Same(b, c) && !Same(a, c)
  {
    var a := DescriptorState(Descriptor("Unused", Some("Tests"), 0));
    var c := DescriptorState(Descriptor("Unused", Some("Production"), 0));
    assert CompareTo(a, c) == 'T' as int - 'P' as int;
  }

  /** The scope name a corrected comparison consults: a state without a descriptor or scope has none. */
  function ScopeName(a: State): Option<string> {
    if a.descriptor.Some? && a.descriptor.value.scope.Some? then a.descriptor.value.scope else None
  }

  /** Scope names compared with a missing name first. */
  function CompareScopes(x: Option<string>, y: Option<string>): int {
    if x.None? && y.None? then 0
    else if x.None? then -1
    else if y.None? then 1
    else JavaCompare(x.value, y.value)
  }

  /** The corrected compareTo: by key, then by scope name with a missing scope first. */
  function CompareToFixed(a: State, b: State): int {
    var c := JavaCompare(a.key, b.key);
    if c != 0 then c else CompareScopes(ScopeName(a), ScopeName(b))
  }

  /** The corrected comparison is a total order on (key, scope name): zero exactly on the same pair, antisymmetric, transitive. */
  lemma CompareToFixedIsAnOrder(a: State, b: State, c: State)
    ensures CompareToFixed(a, b) == 0 <==> a.key == b.key && ScopeName(a) == ScopeName(b)
    ensures CompareToFixed(a, b) < 0 <==> CompareToFixed(b, a) > 0
    ensures CompareToFixed(a, b) < 0 && CompareToFixed(b, c) < 0 ==> CompareToFixed(a, c) < 0
  {
    JavaCompareZero(a.key, b.key);
    JavaCompareZero(b.key, c.key);
    JavaCompareZero(a.key, c.key);
    JavaCompareAntisymmetric(a.key, b.key);
    if ScopeName(a).Some? && ScopeName(b).Some? {
      JavaCompareZero(ScopeName(a).value, ScopeName(b).value);
      JavaCompareAntisymmetric(ScopeName(a).value, ScopeName(b).value);
    }
    if CompareToFixed(a, b) < 0 && CompareToFixed(b, c) < 0 {
      if JavaCompare(a.key, b.key) < 0 && JavaCompare(b.key, c.key) < 0 {
        JavaCompareTransitive(a.key, b.key, c.key);
      } else if JavaCompare(a.key, b.key) < 0 {
        assert b.key == c.key;
      } else if JavaCompare(b.key, c.key) < 0 {
        assert a.key == b.key;
      } else {
        assert a.key == b.key && b.key == c.key;
        if ScopeName(a).Some? && ScopeName(b).Some? && ScopeName(c).Some? {
          JavaCompareTransitive(ScopeName(a).value, ScopeName(b).value, ScopeName(c).value);
        }
      }
    }
  }

  /** The corrected comparison never calls states equal that equals calls distinct. */
  lemma CompareToFixedAgreesWithEquals(a: State, b: State)
    requires CompareToFixed(a, b) == 0
    ensures StateEquals(a, b)
  {
    CompareToFixedIsAnOrder(a, b, b);
  }

  /** State.hashCode as written: the key's hash combined with the descriptor's hash. */
  function HashCodeAsWritten(a: State): int {
    JavaLang.Mul31Add(JavaLang.StringHashCode(a.key), if a.descriptor.Some? then a.descriptor.value.hash else 0)
  }

  /** A state and its descriptor-less twin are equal by equals but hash differently. */
  lemma HashCodeAsWrittenBreaksEquals()
    ensures var a := KeyState("k");
            var b := DescriptorState(Descriptor("k", None, 1));
            StateEquals(a, b) && HashCodeAsWritten(a) != HashCodeAsWritten(b)
  {
    assert JavaLang.StringHashCode("k") == 107 by {
      assert "k"[..0] == "";
    }
  }

  /** The corrected hashCode: the key's hash only, as equals compares the key only. */
  function HashCodeFixed(a: State): int {
    JavaLang.StringHashCode(a.key)
  }

  lemma HashCodeFixedAgreesWithEquals(a: State, b: State)
    requires StateEquals(a, b)
    ensures HashCodeFixed(a) == HashCodeFixed(b)
  {
  }

  /** TreeSet.contains. */
  predicate Contains(ts: seq<State>, s: State) {
    exists i :: 0 <= i < |ts| && Same(s, ts[i])
  }

  /** TreeSet.add: nothing when an element compares equal already. */
  function Add(ts: seq<State>, s: State): seq<State> {
    if Contains(ts, s) then ts else ts + [s]
  }

  /** TreeSet.remove: drops the elements comparing equal to s. */
  function Remove(ts: seq<State>, s: State): seq<State> {
    if |ts| == 0 then []
    else Remove(ts[..|ts| - 1], s) + (if Same(s, ts[|ts| - 1]) then [] else [ts[|ts| - 1]])
  }

  /** TreeSet.addAll: adds each in turn. */
  function AddAll(ts: seq<State>, xs: seq<State>): seq<State> {
    if |xs| == 0 then ts else Add(AddAll(ts, xs[..|xs| - 1]), xs[|xs| - 1])
  }

  /** After add the state is contained, and nothing but it was added. */
  lemma AddContains(ts: seq<State>, s: State)
    ensures Contains(Add(ts, s), s)
    ensures forall x :: x in Add(ts, s) ==> x in ts || x == s
    ensures forall t :: Contains(ts, t) ==> Contains(Add(ts, s), t)
  {
    CompareToOrdersByKey(s, s);
    if !Contains(ts, s) {
      assert Add(ts, s)[|ts|] == s;
      forall t | Contains(ts, t)
        ensures Contains(Add(ts, s), t)
      {
        var i :| 0 <= i < |ts| && Same(t, ts[i]);
        assert Add(ts, s)[i] == ts[i];
      }
    }
  }

  /** After remove nothing comparing equal is left, and everything else stays. */
  lemma {:induction false} RemoveExcludes(ts: seq<State>, s: State)
    ensures forall x :: x in Remove(ts, s) <==> x in ts && !Same(s, x)
    decreases |ts|
  {
    if |ts| > 0 {
      RemoveExcludes(ts[..|ts| - 1], s);
      assert ts == ts[..|ts| - 1] + [ts[|ts| - 1]];
    }
  }

  lemma RemoveDoesNotContain(ts: seq<State>, s: State)
    ensures !Contains(Remove(ts, s), s)
  {
    RemoveExcludes(ts, s);
    if Contains(Remove(ts, s), s) {
      var i :| 0 <= i < |Remove(ts, s)| && Same(s, Remove(ts, s)[i]);
      assert Remove(ts, s)[i] in Remove(ts, s);
    }
  }

  /** After addAll every added state is contained, and the ts holds nothing but old elements and added ones. */
  lemma {:induction false} AddAllContainsAll(ts: seq<State>, xs: seq<State>)
    ensures forall k :: 0 <= k < |xs| ==> Contains(AddAll(ts, xs), xs[k])
    ensures forall x :: x in AddAll(ts, xs) ==> x in ts || x in xs
    decreases |xs|
  {
    if |xs| > 0 {
      var init := xs[..|xs| - 1];
      AddAllContainsAll(ts, init);
      AddContains(AddAll(ts, init), xs[|xs| - 1]);
      forall k | 0 <= k < |xs| - 1
        ensures Contains(AddAll(ts, xs), xs[k])
      {
        assert xs[k] == init[k];
      }
      forall x | x in AddAll(ts, xs)
        ensures x in ts || x in xs
      {
        if x in AddAll(ts, init) && x !in ts {
          var k :| 0 <= k < |init| && init[k] == x;
          assert xs[k] == x;
        }
      }
    }
  }

  /** The node reached from n by following child indices. */
  function NodeAt(n: Node, path: seq<nat>): Option<Node>
    decreases |path|
  {
    if |path| == 0 then Some(n)
    else if path[0] < |n.children| then NodeAt(n.children[path[0]], path[1..])
    else None
  }

  /** The preorder walk of traverseNodes: (path, state) for the node and then for each child's subtree in order. */
  function Visit(n: Node, path: seq<nat>): seq<(seq<nat>, State)>
    decreases n, 1
  {
    [(path, NodeState(n))] + VisitChildren(n.children, path, 0)
  }

  function VisitChildren(children: seq<Node>, path: seq<nat>, i: nat): seq<(seq<nat>, State)>
    requires i <= |children|
    decreases children, |children| - i
  {
    if i == |children| then [] else Visit(children[i], path + [i]) + VisitChildren(children, path, i + 1)
  }

  /** Every visited path extends the start path and leads to a node carrying the visited state. */
  lemma {:induction false} VisitFindsNodes(n: Node, path: seq<nat>)
    ensures forall v :: v in Visit(n, path) ==>
      |path| <= |v.0| && v.0[..|path|] == path && NodeAt(n, v.0[|path|..]).Some? && NodeState(NodeAt(n, v.0[|path|..]).value) == v.1
    decreases n, 1
  {
    assert path[|path|..] == [];
    VisitChildrenFindNodes(n, path, 0);
  }

  lemma {:induction false} VisitChildrenFindNodes(n: Node, path: seq<nat>, i: nat)
    requires i <= |n.children|
    ensures forall v :: v in VisitChildren(n.children, path, i) ==>
      |path| < |v.0| && v.0[..|path|] == path && NodeAt(n, v.0[|path|..]).Some? && NodeState(NodeAt(n, v.0[|path|..]).value) == v.1
    decreases n.children, |n.children| - i
  {
    if i < |n.children| {
      var c := n.children[i];
      var p := path + [i];
      VisitFindsNodes(c, p);
      VisitChildrenFindNodes(n, path, i + 1);
      forall v | v in Visit(c, p)
        ensures |path| < |v.0| && v.0[..|path|] == path && NodeAt(n, v.0[|path|..]).Some?
                && NodeState(NodeAt(n, v.0[|path|..]).value) == v.1
      {
        var q := v.0;
        assert q[..|p|] == p;
        assert q[..|path|] == p[..|path|] == path;
        var rest := q[|path|..];
        assert rest[0] == i;
        assert rest[1..] == q[|p|..];
      }
    }
  }

  /** The walk starts with the node itself. */
  lemma VisitStartsAtRoot(n: Node, path: seq<nat>)
    ensures |Visit(n, path)| > 0 && Visit(n, path)[0] == (path, NodeState(n))
  {
  }

  /** The paths of the visited nodes whose state the ts contains, in visiting order. */
  function Matching(visits: seq<(seq<nat>, State)>, ts: seq<State>): seq<seq<nat>> {
    if |visits| == 0 then []
    else Matching(visits[..|visits| - 1], ts) + (if Contains(ts, visits[|visits| - 1].1) then [visits[|visits| - 1].0] else [])
  }

  /** A path is collected exactly when some visit at it has a contained state. */
  lemma {:induction false} MatchingMembers(visits: seq<(seq<nat>, State)>, ts: seq<State>)
    ensures forall p :: p in Matching(visits, ts) <==> exists v :: v in visits && v.0 == p && Contains(ts, v.1)
    decreases |visits|
  {
    if |visits| > 0 {
      var init := visits[..|visits| - 1];
      MatchingMembers(init, ts);
      assert visits == init + [visits[|visits| - 1]];
    }
  }

  /** Every collected path leads to a node of the tree whose state the ts contains. */
  lemma CollectedPathsAreRemembered(root: Node, ts: seq<State>)
    ensures forall p :: p in Matching(Visit(root, []), ts) ==>
      NodeAt(root, p).Some? && Contains(ts, NodeState(NodeAt(root, p).value))
  {
    MatchingMembers(Visit(root, []), ts);
    VisitFindsNodes(root, []);
    forall p | p in Matching(Visit(root, []), ts)
      ensures NodeAt(root, p).Some? && Contains(ts, NodeState(NodeAt(root, p).value))
    {
      var v :| v in Visit(root, []) && v.0 == p && Contains(ts, v.1);
      assert v.0[0..] == p;
    }
  }

  lemma MatchingAppend(xs: seq<(seq<nat>, State)>, ys: seq<(seq<nat>, State)>, ts: seq<State>)
    ensures Matching(xs + ys, ts) == Matching(xs, ts) + Matching(ys, ts)
    decreases |ys|
  {
    if |ys| == 0 {
      assert xs + ys == xs;
    } else {
      MatchingAppend(xs, ys[..|ys| - 1], ts);
      assert (xs + ys)[..|xs + ys| - 1] == xs + ys[..|ys| - 1];
    }
  }

  /** What the walk collects at a node: its own path if its state is contained, then its children's. */
  lemma ConcatAssoc(a: seq<seq<nat>>, b: seq<seq<nat>>, c: seq<seq<nat>>)
    ensures a + (b + c) == (a + b) + c
  {
  }

  /** One child's paths move from the pending part to the collected list; the total is unchanged. */
  lemma AppendStep(acc: seq<seq<nat>>, acc': seq<seq<nat>>, pending: seq<seq<nat>>, part: seq<seq<nat>>,
                   rest: seq<seq<nat>>, total: seq<seq<nat>>)
    requires acc + pending == total && pending == part + rest && acc' == acc + part
    ensures acc' + rest == total
  {
    ConcatAssoc(acc, part, rest);
  }

  lemma MatchingVisit(n: Node, path: seq<nat>, ts: seq<State>)
    ensures Matching(Visit(n, path), ts)
      == (if Contains(ts, NodeState(n)) then [path] else []) + Matching(VisitChildren(n.children, path, 0), ts)
  {
    var first: seq<(seq<nat>, State)> := [(path, NodeState(n))];
    MatchingAppend(first, VisitChildren(n.children, path, 0), ts);
    assert first[..0] == [];
  }

  lemma MatchingChildrenStep(children: seq<Node>, path: seq<nat>, i: nat, ts: seq<State>)
    requires i < |children|
    ensures Matching(VisitChildren(children, path, i), ts)
      == Matching(Visit(children[i], path + [i]), ts) + Matching(VisitChildren(children, path, i + 1), ts)
  {
    MatchingAppend(Visit(children[i], path + [i]), VisitChildren(children, path, i + 1), ts);
  }

  /** The root's path is collected exactly when the root's state is remembered, and then first. */
  lemma RootCollectedIffRemembered(root: Node, ts: seq<State>)
    ensures [] in Matching(Visit(root, []), ts) <==> Contains(ts, NodeState(root))
    ensures Contains(ts, NodeState(root)) ==> Matching(Visit(root, []), ts)[0] == []
  {
    MatchingVisit(root, [], ts);
    var rest := VisitChildren(root.children, [], 0);
    MatchingMembers(rest, ts);
    VisitChildrenFindNodes(root, [], 0);
    assert [] !in Matching(rest, ts);
  }

  class VisibleTreeState {
    var expandedNodes: seq<State>
    var selectedNodes: seq<State>

    constructor ()
      ensures expandedNodes == [] && selectedNodes == []
    {
      expandedNodes := [];
      selectedNodes := [];
    }

    /** The copy constructor: both sets are filled from the source's into sets of its own. */
    constructor Copy(src: VisibleTreeState)
      ensures expandedNodes == AddAll([], src.expandedNodes) && selectedNodes == AddAll([], src.selectedNodes)
    {
      expandedNodes := AddAll([], src.expandedNodes);
      selectedNodes := AddAll([], src.selectedNodes);
    }

    /** expandNode remembers the title as expanded; the selection is untouched. */
    method ExpandNode(nodeTitle: string)
      modifies this
      ensures expandedNodes == Add(old(expandedNodes), KeyState(nodeTitle)) && selectedNodes == old(selectedNodes)
      ensures Contains(expandedNodes, KeyState(nodeTitle))
    {
      expandedNodes := Add(expandedNodes, KeyState(nodeTitle));
      AddContains(old(expandedNodes), KeyState(nodeTitle));
    }

    /** collapseNode forgets the title; the selection is untouched. */
    method CollapseNode(nodeTitle: string)
      modifies this
      ensures expandedNodes == Remove(old(expandedNodes), KeyState(nodeTitle)) && selectedNodes == old(selectedNodes)
      ensures !Contains(expandedNodes, KeyState(nodeTitle))
    {
      expandedNodes := Remove(expandedNodes, KeyState(nodeTitle));
      RemoveDoesNotContain(old(expandedNodes), KeyState(nodeTitle));
    }

    /**
     * traverseNodes: visits the node and then its children in preorder, appending the path of every
     * node whose state is remembered to the lists of paths to expand and to select.
     */
    method TraverseNodes(root: Node, rootPath: seq<nat>, pathsToExpand: seq<seq<nat>>, toSelect: seq<seq<nat>>)
      returns (expand: seq<seq<nat>>, select: seq<seq<nat>>)
      ensures expand == pathsToExpand + Matching(Visit(root, rootPath), expandedNodes)
      ensures select == toSelect + Matching(Visit(root, rootPath), selectedNodes)
      decreases root, 1
    {
      var state := NodeState(root);
      expand, select := pathsToExpand, toSelect;
      if Contains(selectedNodes, state) {
        select := select + [rootPath];
      }
      if Contains(expandedNodes, state) {
        expand := expand + [rootPath];
      }
      MatchingVisit(root, rootPath, expandedNodes);
      MatchingVisit(root, rootPath, selectedNodes);
      ConcatAssoc(pathsToExpand, if Contains(expandedNodes, state) then [rootPath] else [],
        Matching(VisitChildren(root.children, rootPath, 0), expandedNodes));
      ConcatAssoc(toSelect, if Contains(selectedNodes, state) then [rootPath] else [],
        Matching(VisitChildren(root.children, rootPath, 0), selectedNodes));
      var i := 0;
      while i < |root.children|
        invariant 0 <= i <= |root.children|
        invariant expand + Matching(VisitChildren(root.children, rootPath, i), expandedNodes)
          == pathsToExpand + Matching(Visit(root, rootPath), expandedNodes)
        invariant select + Matching(VisitChildren(root.children, rootPath, i), selectedNodes)
          == toSelect + Matching(Visit(root, rootPath), selectedNodes)
      {
        expand, select := TraverseChild(root, rootPath, i, pathsToExpand, toSelect, expand, select);
        i := i + 1;
      }
    }

    /** One turn of traverseNodes' loop over the children: the subtree of child i is traversed. */
    method TraverseChild(root: Node, rootPath: seq<nat>, i: nat, pathsToExpand: seq<seq<nat>>, toSelect: seq<seq<nat>>,
                         expand: seq<seq<nat>>, select: seq<seq<nat>>)
      returns (expand': seq<seq<nat>>, select': seq<seq<nat>>)
      requires i < |root.children|
      requires expand + Matching(VisitChildren(root.children, rootPath, i), expandedNodes)
        == pathsToExpand + Matching(Visit(root, rootPath), expandedNodes)
      requires select + Matching(VisitChildren(root.children, rootPath, i), selectedNodes)
        == toSelect + Matching(Visit(root, rootPath), selectedNodes)
      ensures expand' + Matching(VisitChildren(root.children, rootPath, i + 1), expandedNodes)
        == pathsToExpand + Matching(Visit(root, rootPath), expandedNodes)
      ensures select' + Matching(VisitChildren(root.children, rootPath, i + 1), selectedNodes)
        == toSelect + Matching(Visit(root, rootPath), selectedNodes)
      decreases root, 0
    {
      MatchingChildrenStep(root.children, rootPath, i, expandedNodes);
      MatchingChildrenStep(root.children, rootPath, i, selectedNodes);
      expand', select' := TraverseNodes(root.children[i], rootPath + [i], expand, select);
      AppendStep(expand, expand', Matching(VisitChildren(root.children, rootPath, i), expandedNodes),
        Matching(Visit(root.children[i], rootPath + [i]), expandedNodes),
        Matching(VisitChildren(root.children, rootPath, i + 1), expandedNodes),
        pathsToExpand + Matching(Visit(root, rootPath), expandedNodes));
      AppendStep(select, select', Matching(VisitChildren(root.children, rootPath, i), selectedNodes),
        Matching(Visit(root.children[i], rootPath + [i]), selectedNodes),
        Matching(VisitChildren(root.children, rootPath, i + 1), selectedNodes),
        toSelect + Matching(Visit(root, rootPath), selectedNodes));
    }

    /**
     * restoreVisibleState: the paths to expand and to select are the remembered nodes in preorder;
     * with nothing to select, the first node is selected.
     */
    method RestoreVisibleState(root: Node) returns (pathsToExpand: seq<seq<nat>>, selection: Selection)
      ensures pathsToExpand == Matching(Visit(root, []), expandedNodes)
      ensures Matching(Visit(root, []), selectedNodes) == [] ==> selection == SelectFirstNode
      ensures Matching(Visit(root, []), selectedNodes) != [] ==> selection == SelectPaths(Matching(Visit(root, []), selectedNodes))
    {
      var toSelect;
      pathsToExpand, toSelect := TraverseNodes(root, [], [], []);
      if toSelect == [] {
        selection := SelectFirstNode;
      } else {
        selection := SelectPaths(toSelect);
      }
    }

    /** setSelectionPaths: the selection is cleared and refilled with the states of the selected nodes; null leaves it empty. */
    method SetSelectionPaths(selectionPaths: Option<seq<Node>>)
      modifies this
      ensures selectionPaths.None? ==> selectedNodes == []
      ensures selectionPaths.Some? ==> selectedNodes == AddAll([], States(selectionPaths.value))
      ensures expandedNodes == old(expandedNodes)
    {
      selectedNodes := [];
      if selectionPaths.Some? {
        selectedNodes := AddStates(selectedNodes, selectionPaths.value);
      }
    }

    /**
     * saveVisibleState: the expanded ts is cleared and refilled with the states of the expanded
     * nodes (none when the tree gives no enumeration), then the selection is saved.
     */
    method SaveVisibleState(expandedDescendants: Option<seq<Node>>, selectionPaths: Option<seq<Node>>)
      modifies this
      ensures expandedDescendants.None? ==> expandedNodes == []
      ensures expandedDescendants.Some? ==> expandedNodes == AddAll([], States(expandedDescendants.value))
      ensures selectionPaths.None? ==> selectedNodes == []
      ensures selectionPaths.Some? ==> selectedNodes == AddAll([], States(selectionPaths.value))
    {
      expandedNodes := [];
      if expandedDescendants.Some? {
        expandedNodes := AddStates(expandedNodes, expandedDescendants.value);
      }
      SetSelectionPaths(selectionPaths);
    }
  }

  /** The states of the given nodes, by getState. */
  function States(nodes: seq<Node>): seq<State> {
    seq(|nodes|, i requires 0 <= i < |nodes| => NodeState(nodes[i]))
  }

  /** The loop of saveVisibleState and setSelectionPaths: adds each node's state to the ts. */
  method AddStates(ts: seq<State>, nodes: seq<Node>) returns (r: seq<State>)
    ensures r == AddAll(ts, States(nodes))
    ensures forall k :: 0 <= k < |nodes| ==> Contains(r, NodeState(nodes[k]))
  {
    r := ts;
    var i := 0;
    while i < |nodes|
      invariant 0 <= i <= |nodes|
      invariant r == AddAll(ts, States(nodes[..i]))
    {
      assert States(nodes[..i + 1])[..i] == States(nodes[..i]);
      r := Add(r, NodeState(nodes[i]));
      i := i + 1;
    }
    assert nodes[..i] == nodes;
    AddAllContainsAll(ts, States(nodes));
    forall k | 0 <= k < |nodes|
      ensures Contains(r, NodeState(nodes[k]))
    {
      assert States(nodes)[k] == NodeState(nodes[k]);
    }
  }
}
