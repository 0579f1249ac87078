/**
 * PsiCodeFragmentImpl: a Java code fragment with a table of pseudo-imports,
 * an insertion-ordered map from a class's short name to its qualified name.
 * The table is serialised as the qualified names joined by ',' and read back
 * by splitting on ','; importing a class overwrites the entry for its name and
 * registers an undoable action that shares the fragment's table.
 *
 * The table object (a LinkedHashMap) is a class of its own so that the undo
 * action and the fragment can share it. Its abstract value is a Table: the
 * keys in insertion order and the entries.
 */
module PsiCodeFragment {
  import opened Wrappers

  datatype Table = Table(order: seq<string>, entries: map<string, string>)

  const EmptyTable: Table := Table([], map[])

  predicate Distinct(s: seq<string>) {
    forall i, j :: 0 <= i < j < |s| ==> s[i] != s[j]
  }

  /** The order lists every key exactly once. */
  predicate WellFormed(t: Table) {
    Distinct(t.order) && (forall k :: k in t.entries ==> k in t.order) && (forall k :: k in t.order ==> k in t.entries)
  }

  /** LinkedHashMap.put: a new key goes last; an existing key keeps its place and gets the new value. */
  function TablePut(t: Table, k: string, v: string): (r: Table)
    ensures WellFormed(t) ==> WellFormed(r)
    ensures r.entries.Keys == t.entries.Keys + {k} && r.entries[k] == v
    ensures forall k' :: k' in t.entries && k' != k ==> r.entries[k'] == t.entries[k']
    ensures k in t.entries ==> r.order == t.order
    ensures k !in t.entries ==> r.order == t.order + [k]
  {
    Table(if k in t.entries then t.order else t.order + [k], t.entries[k := v])
  }

  lemma DistinctTail(s: seq<string>)
    requires |s| > 0
    ensures Distinct(s) ==> Distinct(s[1..]) && s[0] !in s[1..]
  {
    if Distinct(s) {
      forall j | 0 <= j < |s| - 1 ensures s[1..][j] != s[0] {
        assert s[1..][j] == s[j + 1];
      }
    }
  }

  function RemoveKey(s: seq<string>, k: string): (r: seq<string>)
    ensures forall x :: x in r <==> x in s && x != k
    ensures Distinct(s) ==> Distinct(r)
    ensures k !in s ==> r == s
  {
    if |s| == 0 then []
    else
      DistinctTail(s);
      if s[0] == k then RemoveKey(s[1..], k) else [s[0]] + RemoveKey(s[1..], k)
  }

  /** With distinct keys, removing the key at index p cuts exactly that place out of the order. */
  lemma {:induction false} RemoveKeyAt(s: seq<string>, k: string, p: nat)
    requires Distinct(s) && p < |s| && s[p] == k
    ensures RemoveKey(s, k) == s[..p] + s[p + 1..]
    decreases |s|
  {
    DistinctTail(s);
    if p == 0 {
      RemoveKeyAtHead(s, k);
    } else {
      assert s[1..][p - 1] == k;
      RemoveKeyAt(s[1..], k, p - 1);
      RemoveKeyAtLater(s, k, p);
    }
  }

  lemma RemoveKeyAtHead(s: seq<string>, k: string)
    requires |s| > 0 && s[0] == k && k !in s[1..]
    ensures RemoveKey(s, k) == s[..0] + s[1..]
  {
    assert RemoveKey(s, k) == RemoveKey(s[1..], k) == s[1..];
    assert s[..0] + s[1..] == s[1..];
  }

  lemma RemoveKeyAtLater(s: seq<string>, k: string, p: nat)
    requires 0 < p < |s| && s[0] != k
    requires RemoveKey(s[1..], k) == s[1..][..p - 1] + s[1..][p..]
    ensures RemoveKey(s, k) == s[..p] + s[p + 1..]
  {
    RemoveKeyCons(s, k);
    SpliceCons(s, p, RemoveKey(s, k), RemoveKey(s[1..], k));
  }

  lemma RemoveKeyCons(s: seq<string>, k: string)
    requires |s| > 0 && s[0] != k
    ensures RemoveKey(s, k) == [s[0]] + RemoveKey(s[1..], k)
  {
  }

  /** Cutting place p out of s is keeping the head and cutting place p - 1 out of the tail. */
  lemma SpliceCons(s: seq<string>, p: nat, r: seq<string>, r1: seq<string>)
    requires 0 < p < |s| && r == [s[0]] + r1 && r1 == s[1..][..p - 1] + s[1..][p..]
    ensures r == s[..p] + s[p + 1..]
  {
    assert s[..p] == [s[0]] + s[1..][..p - 1];
    assert s[p + 1..] == s[1..][p..];
  }

  lemma RemoveKeyOrder(s: seq<string>, k: string)
    ensures forall p :: 0 <= p < |s| && s[p] == k && Distinct(s) ==> RemoveKey(s, k) == s[..p] + s[p + 1..]
  {
    forall p | 0 <= p < |s| && s[p] == k && Distinct(s)
      ensures RemoveKey(s, k) == s[..p] + s[p + 1..]
    {
      RemoveKeyAt(s, k, p);
    }
  }

  /** LinkedHashMap.remove: the key and its entry disappear; the other keys keep their order. */
  function TableRemove(t: Table, k: string): (r: Table)
    ensures WellFormed(t) ==> WellFormed(r)
    ensures r.entries.Keys == t.entries.Keys - {k}
    ensures forall k' :: k' in r.entries ==> r.entries[k'] == t.entries[k']
    ensures k !in t.order ==> r.order == t.order
    ensures forall p :: 0 <= p < |t.order| && t.order[p] == k && Distinct(t.order)
              ==> r.order == t.order[..p] + t.order[p + 1..]
  {
    RemoveKeyOrder(t.order, k);
    Table(RemoveKey(t.order, k), t.entries - {k})
  }

  /** values(): the values in key order. */
  function TableValues(t: Table): (r: seq<string>)
    requires WellFormed(t)
    ensures |r| == |t.order|
    ensures forall i :: 0 <= i < |t.order| ==> r[i] == t.entries[t.order[i]]
  {
    seq(|t.order|, i requires 0 <= i < |t.order| => t.entries[t.order[i]])
  }

  /** StringUtil.join(values, ","). */
  function Join(values: seq<string>): string {
    if |values| == 0 then "" else if |values| == 1 then values[0] else values[0] + "," + Join(values[1..])
  }

  function LeadingDelimiters(s: string): (n: nat)
    ensures n <= |s|
    ensures forall j :: 0 <= j < n ==> s[j] == ','
    ensures n < |s| ==> s[n] != ','
  {
    if |s| == 0 || s[0] != ',' then 0 else 1 + LeadingDelimiters(s[1..])
  }

  function TokenLength(s: string): (n: nat)
    ensures n <= |s|
    ensures forall j :: 0 <= j < n ==> s[j] != ','
    ensures n < |s| ==> s[n] == ','
  {
    if |s| == 0 || s[0] == ',' then 0 else 1 + TokenLength(s[1..])
  }

  predicate HasNoComma(s: string) {
    forall j :: 0 <= j < |s| ==> s[j] != ','
  }

  /** A StringTokenizer with delimiter ',': the maximal runs of non-comma characters. */
  function Tokens(s: string): (r: seq<string>)
    ensures forall i :: 0 <= i < |r| ==> |r[i]| > 0 && HasNoComma(r[i])
    decreases |s|
  {
    var d := LeadingDelimiters(s);
    if d == |s| then []
    else
      var t := s[d..];
      var n := TokenLength(t);
      assert t[0] == s[d];
      FirstTokenIsWord(t);
      AllWordsCons(t[..n], Tokens(t[n..]));
      [t[..n]] + Tokens(t[n..])
  }

  lemma FirstTokenIsWord(t: string)
    requires |t| > 0 && t[0] != ','
    ensures TokenLength(t) > 0 && HasNoComma(t[..TokenLength(t)])
  {
    var n := TokenLength(t);
    forall j | 0 <= j < n ensures t[..n][j] != ',' {
      assert t[..n][j] == t[j];
    }
  }

  lemma AllWordsCons(w: string, rest: seq<string>)
    requires |w| > 0 && HasNoComma(w)
    requires forall i :: 0 <= i < |rest| ==> |rest[i]| > 0 && HasNoComma(rest[i])
    ensures forall i :: 0 <= i < |[w] + rest| ==> |([w] + rest)[i]| > 0 && HasNoComma(([w] + rest)[i])
  {
    forall i | 0 <= i < |[w] + rest| ensures |([w] + rest)[i]| > 0 && HasNoComma(([w] + rest)[i]) {
      if i > 0 {
        assert ([w] + rest)[i] == rest[i - 1];
      }
    }
  }

  /** hasMoreTokens: something other than delimiters is left. */
  predicate HasMoreTokens(s: string) {
    LeadingDelimiters(s) < |s|
  }

  /** nextToken: the first token and the rest of the input after it. */
  function NextToken(s: string): (r: (string, string))
    requires HasMoreTokens(s)
    ensures Tokens(s) == [r.0] + Tokens(r.1)
    ensures |r.1| < |s|
  {
    var t := s[LeadingDelimiters(s)..];
    (t[..TokenLength(t)], t[TokenLength(t)..])
  }

  /** The puts of addImportsFromString, token by token. */
  function PutAll(t: Table, qNames: seq<string>, shortName: string -> string): Table
    decreases |qNames|
  {
    if |qNames| == 0 then t else PutAll(TablePut(t, shortName(qNames[0]), qNames[0]), qNames[1..], shortName)
  }

  /** A table that addImportsFromString can reproduce: each key is its value's short name. */
  predicate Serialisable(t: Table, shortName: string -> string) {
    WellFormed(t)
    && forall k :: k in t.entries ==> |t.entries[k]| > 0 && HasNoComma(t.entries[k]) && shortName(t.entries[k]) == k
  }

  /** The first n keys of a table, with their entries. */
  function Prefix(t: Table, n: nat): Table
    requires n <= |t.order|
  {
    Table(t.order[..n], map k | k in t.order[..n] && k in t.entries :: t.entries[k])
  }

  lemma TokensSkipsComma(s: string)
    ensures Tokens("," + s) == Tokens(s)
  {
    var c := "," + s;
    assert c[1..] == s;
    assert LeadingDelimiters(c) == 1 + LeadingDelimiters(s);
    assert c[LeadingDelimiters(c)..] == s[LeadingDelimiters(s)..];
  }

  lemma TokensOfWord(v: string, rest: string)
    requires |v| > 0 && HasNoComma(v) && (|rest| == 0 || rest[0] == ',')
    ensures Tokens(v + rest) == [v] + Tokens(rest)
  {
    var s := v + rest;
    assert LeadingDelimiters(s) == 0;
    assert s[0..] == s;
    TokenLengthOfWord(v, rest);
    assert s[..|v|] == v && s[|v|..] == rest;
  }

  lemma {:induction false} TokenLengthOfWord(v: string, rest: string)
    requires HasNoComma(v) && (|rest| == 0 || rest[0] == ',')
    ensures TokenLength(v + rest) == |v|
    decreases |v|
  {
    if |v| > 0 {
      assert (v + rest)[1..] == v[1..] + rest;
      TokenLengthOfWord(v[1..], rest);
    } else {
      assert v + rest == rest;
    }
  }

  /** Splitting joined names gives the names back when none is empty or holds a comma. */
  lemma {:induction false} TokensOfJoin(values: seq<string>)
    requires forall i :: 0 <= i < |values| ==> |values[i]| > 0 && HasNoComma(values[i])
    ensures Tokens(Join(values)) == values
    decreases |values|
  {
    if |values| == 1 {
      TokensOfSingle(values[0]);
    } else if |values| > 1 {
      TokensOfJoin(values[1..]);
      TokensOfJoinStep(values);
    }
  }

  lemma TokensOfSingle(v: string)
    requires |v| > 0 && HasNoComma(v)
    ensures Tokens(Join([v])) == [v]
  {
    TokensOfWord(v, "");
    assert v + "" == v;
    assert Tokens("") == [];
  }

  lemma TokensOfJoinStep(values: seq<string>)
    requires |values| > 1 && |values[0]| > 0 && HasNoComma(values[0])
    requires Tokens(Join(values[1..])) == values[1..]
    ensures Tokens(Join(values)) == values
  {
    var rest := "," + Join(values[1..]);
    JoinCons(values);
    TokensOfWord(values[0], rest);
    TokensSkipsComma(Join(values[1..]));
    ConsOfTail(values, Tokens(Join(values)), Tokens(rest));
  }

  lemma JoinCons(values: seq<string>)
    requires |values| > 1
    ensures Join(values) == values[0] + ("," + Join(values[1..]))
  {
    assert values[0] + "," + Join(values[1..]) == values[0] + ("," + Join(values[1..]));
  }

  lemma ConsOfTail(values: seq<string>, r: seq<string>, r1: seq<string>)
    requires |values| > 0 && r == [values[0]] + r1 && r1 == values[1..]
    ensures r == values
  {
    assert values == [values[0]] + values[1..];
  }

  lemma PrefixStep(t: Table, n: nat, shortName: string -> string)
    requires Serialisable(t, shortName) && n < |t.order|
    ensures TablePut(Prefix(t, n), shortName(t.entries[t.order[n]]), t.entries[t.order[n]]) == Prefix(t, n + 1)
  {
    var k := t.order[n];
    assert t.order[..n + 1] == t.order[..n] + [k];
    assert k !in t.order[..n];
    var p := Prefix(t, n);
    var q := Prefix(t, n + 1);
    assert TablePut(p, k, t.entries[k]).entries == q.entries;
  }

  lemma {:induction false} PutAllRebuilds(t: Table, n: nat, shortName: string -> string)
    requires Serialisable(t, shortName) && n <= |t.order|
    ensures PutAll(Prefix(t, n), TableValues(t)[n..], shortName) == t
    decreases |t.order| - n
  {
    if n == |t.order| {
      assert t.order[..n] == t.order;
      assert Prefix(t, n).entries == t.entries;
    } else {
      var vs := TableValues(t)[n..];
      assert vs[0] == t.entries[t.order[n]];
      assert vs[1..] == TableValues(t)[n + 1..];
      PrefixStep(t, n, shortName);
      PutAllRebuilds(t, n + 1, shortName);
    }
  }

  /** Round trip: reading back importsToString into an empty table rebuilds the table, order included. */
  lemma ImportsRoundTrip(t: Table, shortName: string -> string)
    requires Serialisable(t, shortName)
    ensures PutAll(EmptyTable, Tokens(Join(TableValues(t))), shortName) == t
  {
    var vs := TableValues(t);
    forall i | 0 <= i < |vs|
      ensures |vs[i]| > 0 && HasNoComma(vs[i])
    {
      assert t.order[i] in t.entries;
    }
    TokensOfJoin(vs);
    assert Prefix(t, 0).entries == map[];
    assert vs[0..] == vs;
    PutAllRebuilds(t, 0, shortName);
  }

  /** A name that no token's short name equals keeps its entry, or its absence, through the puts. */
  lemma {:induction false} PutAllKeepsOthers(t: Table, qNames: seq<string>, shortName: string -> string, k: string)
    requires forall j :: 0 <= j < |qNames| ==> shortName(qNames[j]) != k
    ensures k in PutAll(t, qNames, shortName).entries <==> k in t.entries
    ensures k in t.entries ==> PutAll(t, qNames, shortName).entries[k] == t.entries[k]
    decreases |qNames|
  {
    if |qNames| > 0 {
      PutAllKeepsOthers(TablePut(t, shortName(qNames[0]), qNames[0]), qNames[1..], shortName, k);
    }
  }

  /** Of several tokens with the same short name, the last one wins: the name maps to it afterwards. */
  lemma {:induction false} LaterTokenOverwrites(t: Table, qNames: seq<string>, shortName: string -> string, i: nat)
    requires i < |qNames|
    requires forall j :: i < j < |qNames| ==> shortName(qNames[j]) != shortName(qNames[i])
    ensures shortName(qNames[i]) in PutAll(t, qNames, shortName).entries
    ensures PutAll(t, qNames, shortName).entries[shortName(qNames[i])] == qNames[i]
    decreases |qNames|
  {
    var next := TablePut(t, shortName(qNames[0]), qNames[0]);
    if i == 0 {
      PutAllKeepsOthers(next, qNames[1..], shortName, shortName(qNames[0]));
    } else {
      LaterTokenOverwrites(next, qNames[1..], shortName, i - 1);
    }
  }

  /** The shared LinkedHashMap object. */
  class PseudoImports {
    var order: seq<string>
    var entries: map<string, string>

    function Contents(): Table
      reads this
    {
      Table(order, entries)
    }

    ghost predicate Valid()
      reads this
    {
      WellFormed(Contents())
    }

    constructor ()
      ensures Contents() == EmptyTable && Valid()
    {
      order := [];
      entries := map[];
    }

    /** new LinkedHashMap(other): a copy with the same entries in the same order. */
    constructor Copy(other: PseudoImports)
      ensures Contents() == other.Contents()
    {
      order := other.order;
      entries := other.entries;
    }

    method Put(k: string, v: string)
      modifies this
      ensures Contents() == TablePut(old(Contents()), k, v)
    {
      if k !in entries {
        order := order + [k];
      }
      entries := entries[k := v];
    }

    method Remove(k: string)
      modifies this
      ensures Contents() == TableRemove(old(Contents()), k)
    {
      order := RemoveKey(order, k);
      entries := entries - {k};
    }

    function Get(k: string): (r: Option<string>)
      reads this
      ensures r.Some? <==> k in entries
      ensures r.Some? ==> r.value == entries[k]
    {
      if k in entries then Some(entries[k]) else None
    }
  }

  /** ImportClassUndoableAction: the imported pair and the very table it was put into. */
  class ImportClassUndoableAction {
    const className: string
    const qName: string
    const pseudoImports: PseudoImports

    constructor (className: string, qName: string, pseudoImports: PseudoImports)
      ensures this.className == className && this.qName == qName && this.pseudoImports == pseudoImports
    {
      this.className := className;
      this.qName := qName;
      this.pseudoImports := pseudoImports;
    }

    /** undo: removes the class name from the shared table. */
    method Undo()
      modifies pseudoImports
      ensures pseudoImports.Contents() == TableRemove(old(pseudoImports.Contents()), className)
    {
      pseudoImports.Remove(className);
    }

    /** redo: puts the pair back. */
    method Redo()
      modifies pseudoImports
      ensures pseudoImports.Contents() == TablePut(old(pseudoImports.Contents()), className, qName)
    {
      pseudoImports.Put(className, qName);
    }
  }

  /** Undoing the import of a name that was not imported before restores the table exactly. */
  lemma UndoRestoresNewImport(t: Table, className: string, qName: string)
    requires WellFormed(t) && className !in t.entries
    ensures TableRemove(TablePut(t, className, qName), className) == t
  {
    assert className !in t.order;
    RemoveLast(t.order, className);
    assert (t.entries[className := qName] - {className}) == t.entries;
  }

  lemma {:induction false} RemoveLast(s: seq<string>, k: string)
    requires k !in s
    ensures RemoveKey(s + [k], k) == s
    decreases |s|
  {
    if |s| == 0 {
      assert [k][1..] == [];
    } else {
      assert (s + [k])[1..] == s[1..] + [k];
      RemoveLast(s[1..], k);
      assert s == [s[0]] + s[1..];
    }
  }

  /**
   * Redo after undo of an import gives the imported entries back. A new name comes back at its place,
   * so the table is as imported; an overwritten name kept its place on import but moves to the end.
   */
  lemma RedoAfterUndoOfOverwrite(t: Table, className: string, qName: string)
    requires WellFormed(t)
    ensures var imported := TablePut(t, className, qName);
            var redone := TablePut(TableRemove(imported, className), className, qName);
            redone.entries == imported.entries
            && (className !in t.entries ==> redone == imported)
            && (forall p :: 0 <= p < |t.order| && t.order[p] == className
                  ==> imported.order == t.order && redone.order == t.order[..p] + t.order[p + 1..] + [className])
  {
    RedoKeepsEntries(t, className, qName);
    if className !in t.entries {
      UndoRestoresNewImport(t, className, qName);
    }
    forall p | 0 <= p < |t.order| && t.order[p] == className
      ensures TablePut(t, className, qName).order == t.order
      ensures TablePut(TableRemove(TablePut(t, className, qName), className), className, qName).order
              == t.order[..p] + t.order[p + 1..] + [className]
    {
      RedoOrderOfOverwrite(t, className, qName, p);
    }
  }

  lemma RedoKeepsEntries(t: Table, className: string, qName: string)
    ensures var imported := TablePut(t, className, qName);
            TablePut(TableRemove(imported, className), className, qName).entries == imported.entries
  {
    var imported := TablePut(t, className, qName);
    MapRemovePut(imported.entries, className, qName);
  }

  lemma MapRemovePut(m: map<string, string>, k: string, v: string)
    requires k in m && m[k] == v
    ensures (m - {k})[k := v] == m
  {
    var r := (m - {k})[k := v];
    assert r.Keys == m.Keys;
  }

  lemma RedoOrderOfOverwrite(t: Table, className: string, qName: string, p: nat)
    requires WellFormed(t) && p < |t.order| && t.order[p] == className
    ensures TablePut(t, className, qName).order == t.order
    ensures TablePut(TableRemove(TablePut(t, className, qName), className), className, qName).order
            == t.order[..p] + t.order[p + 1..] + [className]
  {
    var imported := TablePut(t, className, qName);
    assert className in t.entries;
    RemoveKeyAt(t.order, className, p);
    assert TableRemove(imported, className).order == t.order[..p] + t.order[p + 1..];
  }

  /** What importClass reads of a PsiClass: its name and its qualified name (null for local and anonymous classes). */
  datatype ClassInfo = ClassInfo(name: string, qualifiedName: Option<string>)

  /** The context element of a fragment, reduced to its validity. */
  datatype Context = Context(valid: bool)

  /** The first found class the processor rejects stops the walk over the qualified names. */
  function ProcessAll(qNames: seq<string>, findClass: string -> Option<int>, execute: int -> bool): (r: (bool, seq<int>))
    decreases |qNames|
  {
    if |qNames| == 0 then (true, [])
    else
      match findClass(qNames[0])
      case None => ProcessAll(qNames[1..], findClass, execute)
      case Some(c) =>
        if !execute(c) then (false, [c])
        else var rest := ProcessAll(qNames[1..], findClass, execute); (rest.0, [c] + rest.1)
  }

  /** One turn of the walk, at index i. */
  lemma ProcessAllFrom(qNames: seq<string>, i: nat, findClass: string -> Option<int>, execute: int -> bool)
    requires i < |qNames|
    ensures var rest := ProcessAll(qNames[i + 1..], findClass, execute);
            ProcessAll(qNames[i..], findClass, execute)
            == match findClass(qNames[i])
               case None => rest
               case Some(c) => if !execute(c) then (false, [c]) else (rest.0, [c] + rest.1)
  {
    assert qNames[i..][1..] == qNames[i + 1..];
  }

  /** The walk over a single qualified name. */
  lemma ProcessAllOne(qName: string, findClass: string -> Option<int>, execute: int -> bool)
    ensures ProcessAll([qName], findClass, execute)
            == match findClass(qName)
               case None => (true, [])
               case Some(c) => (execute(c), [c])
  {
    assert [qName][1..] == [];
    if findClass(qName).Some? {
      assert [findClass(qName).value] + [] == [findClass(qName).value];
    }
  }

  /** The classes the qualified names resolve to, in order. */
  function FoundClasses(qNames: seq<string>, findClass: string -> Option<int>): seq<int> {
    if |qNames| == 0 then []
    else (if findClass(qNames[0]).Some? then [findClass(qNames[0]).value] else []) + FoundClasses(qNames[1..], findClass)
  }

  /**
   * The walk executes a prefix of the found classes: all of them, each accepted, when it goes on;
   * otherwise up to the first one rejected.
   */
  lemma ProcessAllStopsAtFirstRejection(qNames: seq<string>, findClass: string -> Option<int>, execute: int -> bool)
    ensures var r := ProcessAll(qNames, findClass, execute);
            var found := FoundClasses(qNames, findClass);
            |r.1| <= |found| && r.1 == found[..|r.1|]
            && (r.0 <==> r.1 == found && forall i :: 0 <= i < |found| ==> execute(found[i]))
            && (!r.0 ==> |r.1| > 0 && !execute(r.1[|r.1| - 1]) && forall i :: 0 <= i < |r.1| - 1 ==> execute(r.1[i]))
  {
    ProcessAllPrefix(qNames, findClass, execute);
    ProcessAllAccepted(qNames, findClass, execute);
    ProcessAllRejection(qNames, findClass, execute);
  }

  /** The classes executed are a prefix of the found ones. */
  lemma {:induction false} ProcessAllPrefix(qNames: seq<string>, findClass: string -> Option<int>, execute: int -> bool)
    ensures var r := ProcessAll(qNames, findClass, execute);
            var found := FoundClasses(qNames, findClass);
            |r.1| <= |found| && r.1 == found[..|r.1|]
    decreases |qNames|
  {
    if |qNames| > 0 {
      ProcessAllPrefix(qNames[1..], findClass, execute);
      var found := FoundClasses(qNames, findClass);
      var rest := FoundClasses(qNames[1..], findClass);
      match findClass(qNames[0])
      case None =>
        assert found == rest;
      case Some(c) =>
        assert found == [c] + rest;
        if execute(c) {
          var rr := ProcessAll(qNames[1..], findClass, execute);
          assert ([c] + rest)[..1 + |rr.1|] == [c] + rest[..|rr.1|];
        }
    }
  }

  /** A walk that goes on executed every found class, and each was accepted. */
  lemma {:induction false} ProcessAllAccepted(qNames: seq<string>, findClass: string -> Option<int>, execute: int -> bool)
    ensures var r := ProcessAll(qNames, findClass, execute);
            var found := FoundClasses(qNames, findClass);
            r.0 ==> r.1 == found && forall i :: 0 <= i < |found| ==> execute(found[i])
    decreases |qNames|
  {
    if |qNames| > 0 {
      ProcessAllAccepted(qNames[1..], findClass, execute);
      var found := FoundClasses(qNames, findClass);
      var rest := FoundClasses(qNames[1..], findClass);
      match findClass(qNames[0])
      case None =>
        assert found == rest;
      case Some(c) =>
        assert found == [c] + rest;
        if execute(c) && ProcessAll(qNames, findClass, execute).0 {
          forall i | 0 <= i < |found| ensures execute(found[i]) {
            if i > 0 { assert found[i] == rest[i - 1]; }
          }
        }
    }
  }

  /** A walk that stops ends with the rejected class, after classes that were all accepted. */
  lemma {:induction false} ProcessAllRejection(qNames: seq<string>, findClass: string -> Option<int>, execute: int -> bool)
    ensures var r := ProcessAll(qNames, findClass, execute);
            !r.0 ==> |r.1| > 0 && !execute(r.1[|r.1| - 1]) && forall i :: 0 <= i < |r.1| - 1 ==> execute(r.1[i])
    decreases |qNames|
  {
    if |qNames| > 0 {
      ProcessAllRejection(qNames[1..], findClass, execute);
      match findClass(qNames[0])
      case None =>
      case Some(c) =>
        var r := ProcessAll(qNames, findClass, execute);
        if execute(c) && !r.0 {
          var rr := ProcessAll(qNames[1..], findClass, execute);
          assert r.1 == [c] + rr.1;
          forall i | 0 <= i < |r.1| - 1 ensures execute(r.1[i]) {
            if i > 0 { assert r.1[i] == rr.1[i - 1]; }
          }
        }
    }
  }

  class PsiCodeFragment {
    var context: Option<Context>
    var physical: bool
    var originalFile: PsiCodeFragment?
    var pseudoImports: PseudoImports
    var forcedResolveScope: Option<int>

    ghost predicate Valid()
      reads this, pseudoImports
    {
      pseudoImports.Valid()
    }

    constructor (isPhysical: bool)
      ensures Valid() && fresh(pseudoImports)
      ensures pseudoImports.Contents() == EmptyTable
      ensures physical == isPhysical && context == None && originalFile == null && forcedResolveScope == None
    {
      physical := isPhysical;
      context := None;
      originalFile := null;
      pseudoImports := new PseudoImports();
      forcedResolveScope := None;
    }

    method SetContext(context: Option<Context>)
      modifies this
      ensures this.context == context && pseudoImports == old(pseudoImports)
      ensures physical == old(physical) && forcedResolveScope == old(forcedResolveScope)
    {
      this.context := context;
    }

    method ForceResolveScope(scope: Option<int>)
      modifies this
      ensures forcedResolveScope == scope && pseudoImports == old(pseudoImports)
      ensures physical == old(physical) && context == old(context)
    {
      forcedResolveScope := scope;
    }

    /** isValid: the file itself is valid, and so is the context when there is one. */
    function IsValid(superValid: bool): (r: bool)
      reads this
      ensures r <==> superValid && (context.None? || context.value.valid)
    {
      if !superValid then false
      else if context.Some? && !context.value.valid then false
      else true
    }

    /** getResolveScope: a forced scope wins over the inherited one. */
    function GetResolveScope(inheritedScope: int): (r: int)
      reads this
      ensures forcedResolveScope.Some? ==> r == forcedResolveScope.value
      ensures forcedResolveScope.None? ==> r == inheritedScope
    {
      if forcedResolveScope.Some? then forcedResolveScope.value else inheritedScope
    }

    /** importsToString: the imported qualified names, joined by ',' in insertion order. */
    function ImportsToString(): (r: string)
      reads this, pseudoImports
      requires Valid()
      ensures r == Join(TableValues(pseudoImports.Contents()))
    {
      Join(TableValues(pseudoImports.Contents()))
    }

    /** addImportsFromString: puts short name to qualified name for every token, left to right. */
    method AddImportsFromString(imports: string, shortName: string -> string)
      requires Valid()
      modifies pseudoImports
      ensures Valid()
      ensures pseudoImports.Contents() == PutAll(old(pseudoImports.Contents()), Tokens(imports), shortName)
    {
      var rest := imports;
      while HasMoreTokens(rest)
        invariant Valid()
        invariant PutAll(pseudoImports.Contents(), Tokens(rest), shortName)
                  == PutAll(old(pseudoImports.Contents()), Tokens(imports), shortName)
        decreases |rest|
      {
        var qName;
        qName, rest := NextToken(rest).0, NextToken(rest).1;
        var name := shortName(qName);
        pseudoImports.Put(name, qName);
      }
    }

    /**
     * importClass: false and no change for a class without a qualified name; otherwise the
     * name maps to the qualified name and, for a physical fragment, an undo action sharing the table.
     */
    method ImportClass(aClass: ClassInfo) returns (imported: bool, action: ImportClassUndoableAction?)
      requires Valid()
      modifies pseudoImports
      ensures Valid()
      ensures imported <==> aClass.qualifiedName.Some?
      ensures !imported ==> action == null && pseudoImports.Contents() == old(pseudoImports.Contents())
      ensures imported ==> pseudoImports.Contents()
                           == TablePut(old(pseudoImports.Contents()), aClass.name, aClass.qualifiedName.value)
      ensures action != null <==> imported && physical
      ensures action != null ==> fresh(action) && action.pseudoImports == pseudoImports
                                 && action.className == aClass.name && action.qName == aClass.qualifiedName.value
    {
      if aClass.qualifiedName.None? {
        return false, null;
      }
      var qName := aClass.qualifiedName.value;
      pseudoImports.Put(aClass.name, qName);
      action := null;
      if physical {
        action := new ImportClassUndoableAction(aClass.name, qName, pseudoImports);
      }
      imported := true;
    }

    /** clone: a non-physical fragment with its own copy of the table, pointing back at this one. */
    method Clone() returns (c: PsiCodeFragment)
      requires Valid()
      ensures fresh(c) && fresh(c.pseudoImports) && c.Valid()
      ensures c.pseudoImports.Contents() == pseudoImports.Contents()
      ensures !c.physical && c.originalFile == this
      ensures c.context == context && c.forcedResolveScope == forcedResolveScope
    {
      c := new PsiCodeFragment(false);
      c.originalFile := this;
      c.context := context;
      c.forcedResolveScope := forcedResolveScope;
      c.pseudoImports := new PseudoImports.Copy(pseudoImports);
    }

    /**
     * The pseudo-import step of processDeclarations. `processesClasses` is the class-hint test: the
     * processor has no class hint, or its hint accepts classes. Without it the step offers nothing.
     * Otherwise, with a name hint, only the class imported under that name; without one, every
     * imported class in order. It answers false when the processor rejects a class, and returns the
     * classes it handed to the processor.
     */
    method ProcessPseudoImports(processesClasses: bool, nameHint: Option<string>,
                                findClass: string -> Option<int>, execute: int -> bool)
      returns (goOn: bool, executed: seq<int>)
      requires Valid()
      ensures !processesClasses ==> goOn && executed == []
      ensures processesClasses && nameHint.Some? ==> (goOn, executed) == ProcessAll(
        if nameHint.value in pseudoImports.entries then [pseudoImports.entries[nameHint.value]] else [], findClass, execute)
      ensures processesClasses && nameHint.None?
              ==> (goOn, executed) == ProcessAll(TableValues(pseudoImports.Contents()), findClass, execute)
    {
      if !processesClasses {
        return true, [];
      }
      if nameHint.Some? {
        var qNameImported := pseudoImports.Get(nameHint.value);
        if qNameImported.Some? {
          var imported := findClass(qNameImported.value);
          ProcessAllOne(qNameImported.value, findClass, execute);
          if imported.Some? {
            if !execute(imported.value) {
              return false, [imported.value];
            }
            return true, [imported.value];
          }
        }
        return true, [];
      }
      var values := TableValues(pseudoImports.Contents());
      var i := 0;
      executed := [];
      assert values[0..] == values;
      while i < |values|
        invariant 0 <= i <= |values|
        invariant ProcessAll(values, findClass, execute).0 == ProcessAll(values[i..], findClass, execute).0
        invariant ProcessAll(values, findClass, execute).1 == executed + ProcessAll(values[i..], findClass, execute).1
      {
        ProcessAllFrom(values, i, findClass, execute);
        var aClass := findClass(values[i]);
        if aClass.Some? {
          if !execute(aClass.value) {
            return false, executed + [aClass.value];
          }
          assert executed + ([aClass.value] + ProcessAll(values[i + 1..], findClass, execute).1)
            == (executed + [aClass.value]) + ProcessAll(values[i + 1..], findClass, execute).1;
          executed := executed + [aClass.value];
        }
        i := i + 1;
      }
      assert values[i..] == [];
      assert executed + [] == executed;
      goOn := true;
    }
  }
}
