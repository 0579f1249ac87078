/**
 * IntentionSettingsPanel's search: which intentions the settings tree shows
 * for a filter. An intention is accepted when the filter occurs in its family
 * or a category; otherwise the quoted words and then the key sets of the
 * search index decide, a forced search demanding that every one of them match
 * and an unforced one accepting any match. filterModel keeps the accepted
 * intentions in order and retries unforced when a forced search of several
 * words finds nothing.
 *
 * The quoted words and the key sets (SearchUtil.findKeys) and the number of
 * processed words of the filter are inputs.
 */
module IntentionSettings {
  import opened Wrappers

  /** getDescription: the text, no description, or an IOException (which is skipped). */
  datatype Description = NoDescription | DescriptionText(text: string) | DescriptionUnreadable

  /** IntentionActionMetaData: the family, the categories (an entry may be null) and the description. */
  datatype MetaData = MetaData(family: string, categories: seq<Option<string>>, description: Description)

  /** Character.toLowerCase on ASCII letters; other characters compare as they are. */
  function ToLower(c: char): char {
    if 'A' <= c <= 'Z' then (c as int + 32) as char else c
  }

  predicate MatchesAt(s: string, word: string, i: int) {
    0 <= i && i + |word| <= |s| && forall j :: 0 <= j < |word| ==> ToLower(s[i + j]) == ToLower(word[j])
  }

  /** StringUtil.containsIgnoreCase: the word occurs somewhere in s, letters compared without case. */
  predicate ContainsIgnoreCase(s: string, word: string) {
    exists i :: 0 <= i <= |s| - |word| && MatchesAt(s, word, i)
  }

  /** The string with every ASCII letter in lower case. */
  function Lower(s: string): (r: string)
    ensures |r| == |s| && forall j :: 0 <= j < |s| ==> r[j] == ToLower(s[j])
  {
    seq(|s|, j requires 0 <= j < |s| => ToLower(s[j]))
  }

  predicate OccursAt(s: string, word: string, i: int) {
    0 <= i && i + |word| <= |s| && s[i..i + |word|] == word
  }

  /** String.contains: the word occurs at some index of s, character for character. */
  predicate Contains(s: string, word: string) {
    exists i :: 0 <= i <= |s| - |word| && OccursAt(s, word, i)
  }

  /** Ignoring case is lower-casing both sides and then searching exactly. */
  lemma ContainsIgnoreCaseIsContainsOfLower(s: string, word: string)
    ensures ContainsIgnoreCase(s, word) <==> Contains(Lower(s), Lower(word))
  {
    var ls, lw := Lower(s), Lower(word);
    if ContainsIgnoreCase(s, word) {
      var i :| 0 <= i <= |s| - |word| && MatchesAt(s, word, i);
      assert ls[i..i + |word|] == lw by {
        forall j | 0 <= j < |word| ensures ls[i..i + |word|][j] == lw[j] {
          assert ToLower(s[i + j]) == ToLower(word[j]);
        }
      }
      assert OccursAt(ls, lw, i);
    }
    if Contains(ls, lw) {
      var i :| 0 <= i <= |ls| - |lw| && OccursAt(ls, lw, i);
      assert ls[i..i + |lw|] == lw;
      forall j | 0 <= j < |word| ensures ToLower(s[i + j]) == ToLower(word[j]) {
        assert ls[i..i + |lw|][j] == lw[j];
      }
      assert MatchesAt(s, word, i);
    }
  }

  /** Case is ignored on both sides: lower-casing the string or the word changes nothing. */
  lemma CaseIsIgnored(s: string, word: string)
    ensures ContainsIgnoreCase(s, word) <==> ContainsIgnoreCase(Lower(s), Lower(word))
  {
    ContainsIgnoreCaseIsContainsOfLower(s, word);
    ContainsIgnoreCaseIsContainsOfLower(Lower(s), Lower(word));
    assert Lower(Lower(s)) == Lower(s);
    assert Lower(Lower(word)) == Lower(word);
  }

  /** Some non-null category contains the word. */
  predicate CategoryContains(categories: seq<Option<string>>, word: string) {
    exists i :: 0 <= i < |categories| && categories[i].Some? && ContainsIgnoreCase(categories[i].value, word)
  }

  /** The family or a category contains the word. */
  predicate NameContains(metaData: MetaData, word: string) {
    ContainsIgnoreCase(metaData.family, word) || CategoryContains(metaData.categories, word)
  }

  predicate DescriptionContains(metaData: MetaData, word: string) {
    metaData.description.DescriptionText? && ContainsIgnoreCase(metaData.description.text, word)
  }

  /** The loop over the quoted words: the decision it returns, or None when it falls through. */
  function QuotedDecision(metaData: MetaData, quoted: seq<string>, forceInclude: bool): (decision: Option<bool>) {
    if |quoted| == 0 then None
    else
      var stripped := quoted[0];
      if NameContains(metaData, stripped) then Some(true)
      else if metaData.description.DescriptionText? then
        if ContainsIgnoreCase(metaData.description.text, stripped) then
          if !forceInclude then Some(true) else QuotedDecision(metaData, quoted[1..], forceInclude)
        else if forceInclude then Some(false)
        else QuotedDecision(metaData, quoted[1..], forceInclude)
      else QuotedDecision(metaData, quoted[1..], forceInclude)
  }

  /** The loop over the key sets: the decision it returns, or None when it falls through. */
  function KeySetDecision(family: string, keySetList: seq<set<string>>, forceInclude: bool): (decision: Option<bool>) {
    if |keySetList| == 0 then None
    else if family in keySetList[0] then
      if !forceInclude then Some(true) else KeySetDecision(family, keySetList[1..], forceInclude)
    else if forceInclude then Some(false)
    else KeySetDecision(family, keySetList[1..], forceInclude)
  }

  /** isIntentionAccepted */
  function IsIntentionAccepted(metaData: MetaData, filter: string, forceInclude: bool,
                               keySetList: seq<set<string>>, quoted: seq<string>): (r: bool)
    ensures NameContains(metaData, filter) ==> r
  {
    if NameContains(metaData, filter) then true
    else match QuotedDecision(metaData, quoted, forceInclude)
      case Some(b) => b
      case None =>
        match KeySetDecision(metaData.family, keySetList, forceInclude)
        case Some(b) => b
        case None => forceInclude
  }

  /** An unforced quoted-word search accepts as soon as one word occurs in the names or the description, and never rejects. */
  lemma {:induction false} QuotedDecisionUnforced(metaData: MetaData, quoted: seq<string>)
    ensures QuotedDecision(metaData, quoted, false) ==
      (if exists i :: 0 <= i < |quoted| && (NameContains(metaData, quoted[i]) || DescriptionContains(metaData, quoted[i]))
       then Some(true) else None)
    decreases |quoted|
  {
    if |quoted| > 0 {
      QuotedDecisionUnforced(metaData, quoted[1..]);
      if exists i :: 0 <= i < |quoted| && (NameContains(metaData, quoted[i]) || DescriptionContains(metaData, quoted[i])) {
        var i :| 0 <= i < |quoted| && (NameContains(metaData, quoted[i]) || DescriptionContains(metaData, quoted[i]));
        if i > 0 {
          assert quoted[1..][i - 1] == quoted[i];
        }
      } else {
        forall i | 0 <= i < |quoted[1..]|
          ensures !(NameContains(metaData, quoted[1..][i]) || DescriptionContains(metaData, quoted[1..][i]))
        {
          assert quoted[1..][i] == quoted[i + 1];
        }
      }
    }
  }

  /** A forced quoted-word search accepts only through a name, never through a description alone. */
  lemma {:induction false} ForcedDescriptionNeverAccepts(metaData: MetaData, quoted: seq<string>)
    requires forall i :: 0 <= i < |quoted| ==> !NameContains(metaData, quoted[i])
    ensures QuotedDecision(metaData, quoted, true) != Some(true)
    decreases |quoted|
  {
    if |quoted| > 0 {
      assert !NameContains(metaData, quoted[0]);
      forall i | 0 <= i < |quoted[1..]|
        ensures !NameContains(metaData, quoted[1..][i])
      {
        assert quoted[1..][i] == quoted[i + 1];
      }
      ForcedDescriptionNeverAccepts(metaData, quoted[1..]);
    }
  }

  /**
   * A forced search rejects at a text description lacking any quoted word, provided neither that word nor
   * any word before it (in the set's iteration order) occurs in the names.
   */
  lemma ForcedDescriptionMissRejects(metaData: MetaData, filter: string, keySetList: seq<set<string>>,
                                     quoted: seq<string>, i: nat)
    requires !NameContains(metaData, filter)
    requires i < |quoted| && forall j :: 0 <= j <= i ==> !NameContains(metaData, quoted[j])
    requires metaData.description.DescriptionText? && !ContainsIgnoreCase(metaData.description.text, quoted[i])
    ensures !IsIntentionAccepted(metaData, filter, true, keySetList, quoted)
  {
    ForcedMissAt(metaData, quoted, i);
  }

  lemma {:induction false} ForcedMissAt(metaData: MetaData, quoted: seq<string>, i: nat)
    requires i < |quoted| && forall j :: 0 <= j <= i ==> !NameContains(metaData, quoted[j])
    requires metaData.description.DescriptionText? && !ContainsIgnoreCase(metaData.description.text, quoted[i])
    ensures QuotedDecision(metaData, quoted, true) == Some(false)
    decreases i
  {
    assert !NameContains(metaData, quoted[0]);
    if ContainsIgnoreCase(metaData.description.text, quoted[0]) {
      forall j | 0 <= j <= i - 1 ensures !NameContains(metaData, quoted[1..][j]) {
        assert quoted[1..][j] == quoted[j + 1];
      }
      assert quoted[1..][i - 1] == quoted[i];
      ForcedMissAt(metaData, quoted[1..], i - 1);
    }
  }

  /**
   * When no quoted word occurs in the names, a forced quoted-word search rejects exactly when the
   * description is text and lacks some quoted word, and falls through otherwise.
   */
  lemma {:induction false} QuotedDecisionForced(metaData: MetaData, quoted: seq<string>)
    requires forall i :: 0 <= i < |quoted| ==> !NameContains(metaData, quoted[i])
    ensures QuotedDecision(metaData, quoted, true) ==
      (if metaData.description.DescriptionText?
          && exists i :: 0 <= i < |quoted| && !ContainsIgnoreCase(metaData.description.text, quoted[i])
       then Some(false) else None)
    decreases |quoted|
  {
    if |quoted| > 0 {
      forall i | 0 <= i < |quoted[1..]| ensures !NameContains(metaData, quoted[1..][i]) {
        assert quoted[1..][i] == quoted[i + 1];
      }
      QuotedDecisionForced(metaData, quoted[1..]);
      if metaData.description.DescriptionText? {
        var text := metaData.description.text;
        if exists i :: 0 <= i < |quoted| && !ContainsIgnoreCase(text, quoted[i]) {
          var i :| 0 <= i < |quoted| && !ContainsIgnoreCase(text, quoted[i]);
          if i > 0 {
            assert quoted[1..][i - 1] == quoted[i];
          }
        } else {
          assert ContainsIgnoreCase(text, quoted[0]);
          forall i | 0 <= i < |quoted[1..]| ensures ContainsIgnoreCase(text, quoted[1..][i]) {
            assert quoted[1..][i] == quoted[i + 1];
          }
        }
      }
    }
  }

  /** An unforced key-set search accepts when some key set holds the family, and never rejects. */
  lemma {:induction false} KeySetDecisionUnforced(family: string, keySetList: seq<set<string>>)
    ensures KeySetDecision(family, keySetList, false) ==
      (if exists i :: 0 <= i < |keySetList| && family in keySetList[i] then Some(true) else None)
    decreases |keySetList|
  {
    if |keySetList| > 0 {
      KeySetDecisionUnforced(family, keySetList[1..]);
      if exists i :: 0 <= i < |keySetList| && family in keySetList[i] {
        var i :| 0 <= i < |keySetList| && family in keySetList[i];
        if i > 0 {
          assert keySetList[1..][i - 1] == keySetList[i];
        }
      } else {
        forall i | 0 <= i < |keySetList[1..]|
          ensures family !in keySetList[1..][i]
        {
          assert keySetList[1..][i] == keySetList[i + 1];
        }
      }
    }
  }

  /** A forced key-set search rejects when some key set lacks the family, and falls through otherwise. */
  lemma {:induction false} KeySetDecisionForced(family: string, keySetList: seq<set<string>>)
    ensures KeySetDecision(family, keySetList, true) ==
      (if exists i :: 0 <= i < |keySetList| && family !in keySetList[i] then Some(false) else None)
    decreases |keySetList|
  {
    if |keySetList| > 0 {
      KeySetDecisionForced(family, keySetList[1..]);
      if exists i :: 0 <= i < |keySetList| && family !in keySetList[i] {
        var i :| 0 <= i < |keySetList| && family !in keySetList[i];
        if i > 0 {
          assert keySetList[1..][i - 1] == keySetList[i];
        }
      } else {
        forall i | 0 <= i < |keySetList[1..]|
          ensures family in keySetList[1..][i]
        {
          assert keySetList[1..][i] == keySetList[i + 1];
        }
      }
    }
  }

  /** An unforced search accepts exactly when the filter, a quoted word or a key set matches. */
  lemma UnforcedAcceptance(metaData: MetaData, filter: string, keySetList: seq<set<string>>, quoted: seq<string>)
    ensures IsIntentionAccepted(metaData, filter, false, keySetList, quoted) <==>
      NameContains(metaData, filter)
      || (exists i :: 0 <= i < |quoted| && (NameContains(metaData, quoted[i]) || DescriptionContains(metaData, quoted[i])))
      || (exists i :: 0 <= i < |keySetList| && metaData.family in keySetList[i])
  {
    QuotedDecisionUnforced(metaData, quoted);
    KeySetDecisionUnforced(metaData.family, keySetList);
  }

  /** Past the quoted words, a forced search accepts exactly when every key set holds the family. */
  lemma ForcedKeySetAcceptance(metaData: MetaData, filter: string, keySetList: seq<set<string>>, quoted: seq<string>)
    requires !NameContains(metaData, filter)
    requires QuotedDecision(metaData, quoted, true).None?
    ensures IsIntentionAccepted(metaData, filter, true, keySetList, quoted) <==>
      forall i :: 0 <= i < |keySetList| ==> metaData.family in keySetList[i]
  {
    KeySetDecisionForced(metaData.family, keySetList);
  }

  /** The intentions accepted by one pass of the loop, in list order. */
  function AcceptedOf(list: seq<MetaData>, filter: string, force: bool,
                      keySetList: seq<set<string>>, quoted: seq<string>): seq<MetaData> {
    if |list| == 0 then []
    else
      AcceptedOf(list[..|list| - 1], filter, force, keySetList, quoted)
        + (if IsIntentionAccepted(list[|list| - 1], filter, force, keySetList, quoted) then [list[|list| - 1]] else [])
  }

  /** One pass keeps exactly the accepted intentions. */
  lemma {:induction false} AcceptedOfMembers(list: seq<MetaData>, filter: string, force: bool,
                                             keySetList: seq<set<string>>, quoted: seq<string>)
    ensures forall m :: m in AcceptedOf(list, filter, force, keySetList, quoted) <==>
      m in list && IsIntentionAccepted(m, filter, force, keySetList, quoted)
    ensures |AcceptedOf(list, filter, force, keySetList, quoted)| <= |list|
    decreases |list|
  {
    if |list| > 0 {
      AcceptedOfMembers(list[..|list| - 1], filter, force, keySetList, quoted);
      assert list == list[..|list| - 1] + [list[|list| - 1]];
    }
  }

  /** One pass keeps list order: the result for a concatenation is the concatenation of the results. */
  lemma {:induction false} AcceptedOfAppend(xs: seq<MetaData>, ys: seq<MetaData>, filter: string, force: bool,
                                            keySetList: seq<set<string>>, quoted: seq<string>)
    ensures AcceptedOf(xs + ys, filter, force, keySetList, quoted)
         == AcceptedOf(xs, filter, force, keySetList, quoted) + AcceptedOf(ys, filter, force, keySetList, quoted)
    decreases |ys|
  {
    if |ys| == 0 {
      assert xs + ys == xs;
    } else {
      AcceptedOfAppend(xs, ys[..|ys| - 1], filter, force, keySetList, quoted);
      assert (xs + ys)[..|xs + ys| - 1] == xs + ys[..|ys| - 1];
    }
  }

  /** What filterModel returns. */
  function FilterModelResult(list: seq<MetaData>, filter: Option<string>, force: bool,
                             keySetList: seq<set<string>>, quoted: seq<string>, processedWordCount: nat): seq<MetaData> {
    if filter.None? || |filter.value| == 0 then list
    else
      var result := AcceptedOf(list, filter.value, force, keySetList, quoted);
      if force && result == [] && processedWordCount > 1 then AcceptedOf(list, filter.value, false, keySetList, quoted)
      else result
  }

  /**
   * filterModel: no filter keeps the whole list; otherwise the result keeps list order and holds
   * exactly the intentions accepted under the force flag, or, after an empty forced search of
   * several words, exactly those accepted unforced.
   */
  lemma FilterModelIsASublist(list: seq<MetaData>, filter: Option<string>, force: bool,
                              keySetList: seq<set<string>>, quoted: seq<string>, processedWordCount: nat)
    ensures filter.None? || filter == Some("") ==> FilterModelResult(list, filter, force, keySetList, quoted, processedWordCount) == list
    ensures filter.Some? && filter != Some("") ==>
      var retried := force && AcceptedOf(list, filter.value, true, keySetList, quoted) == [] && processedWordCount > 1;
      var usedForce := force && !retried;
      forall m :: m in FilterModelResult(list, filter, force, keySetList, quoted, processedWordCount) <==>
        m in list && IsIntentionAccepted(m, filter.value, usedForce, keySetList, quoted)
  {
    if filter.Some? && filter != Some("") {
      AcceptedOfMembers(list, filter.value, force, keySetList, quoted);
      AcceptedOfMembers(list, filter.value, false, keySetList, quoted);
    }
  }

  /** filterModel: the loop over the meta data, then the unforced retry. */
  method FilterModel(list: seq<MetaData>, filter: Option<string>, force: bool,
                     keySetList: seq<set<string>>, quoted: seq<string>, processedWordCount: nat)
    returns (result: seq<MetaData>)
    ensures result == FilterModelResult(list, filter, force, keySetList, quoted, processedWordCount)
    decreases if force then 1 else 0
  {
    if filter.None? || |filter.value| == 0 {
      return list;
    }
    result := [];
    var i := 0;
    while i < |list|
      invariant 0 <= i <= |list|
      invariant result == AcceptedOf(list[..i], filter.value, force, keySetList, quoted)
    {
      assert list[..i + 1][..i] == list[..i];
      if IsIntentionAccepted(list[i], filter.value, force, keySetList, quoted) {
        result := result + [list[i]];
      }
      i := i + 1;
    }
    assert list[..i] == list;
    if force && result == [] {
      if processedWordCount > 1 {
        result := FilterModel(list, filter, false, keySetList, quoted, processedWordCount);
      }
    }
  }
}
