/**
 * LeafPatcher: after an injected fragment is reparsed, a tree walk visits its
 * leaves in text order and rebuilds, for each leaf, the text the leaf covers
 * in the host elements. The injected document is cut into shreds: each shred
 * is a prefix, a part of a host element's text seen through that host's
 * escaper, and a suffix, and occupies a range of the injected document. A
 * leaf whose rebuilt text differs from its own text is recorded in newTexts;
 * text beyond a leaf is carried as a tail into a following white-space leaf.
 */
module LeafPatcher {
  import opened Wrappers

  /**
   * One shred: the host's text, the prefix and suffix, the shred's range [rangeStart, rangeEnd)
   * in the injected document and the range [insideHostStart, insideHostEnd) of host text it decodes.
   */
  datatype Shred = Shred(
    hostText: string,
    prefix: string,
    suffix: string,
    rangeStart: int,
    rangeEnd: int,
    insideHostStart: int,
    insideHostEnd: int)

  /**
   * LiteralTextEscaper.getOffsetInHost for one shred, with the shred's range inside the host fixed:
   * an offset in the decoded text maps to an offset in the host text, or -1.
   */
  type Escaper = int -> int

  /** A leaf of the injected tree; `id` tells apart leaves with equal texts. */
  datatype Leaf = Leaf(id: nat, text: string, startOffset: int, isWhiteSpace: bool, hasPsi: bool)

  /**
   * The result of reconstructing a range: the text appended, the shred number and host text the
   * visitor holds afterwards, and whether an index check (or the shred assertion) failed on the way.
   */
  datatype Outcome = Outcome(text: string, shredNo: nat, hostText: string, failed: bool)

  function Min(a: int, b: int): int {
    if a <= b then a else b
  }

  /** StringBuilder.append(s, a, b): the characters [a, b) of s, or None when the range is out of bounds. */
  function Slice(s: string, a: int, b: int): (r: Option<string>)
    ensures r.Some? <==> 0 <= a <= b <= |s|
    ensures r.Some? ==> r.value == s[a..b]
  {
    if 0 <= a <= b <= |s| then Some(s[a..b]) else None
  }

  function Prepend(piece: string, o: Outcome): (r: Outcome)
    ensures r.text == piece + o.text && r.shredNo == o.shredNo && r.hostText == o.hostText && r.failed == o.failed
  {
    Outcome(piece + o.text, o.shredNo, o.hostText, o.failed)
  }

  /** What one iteration of the reconstruction loop does. */
  datatype Move = NextShred | Fail | Copy(piece: string, next: int)

  /**
   * One iteration of the while loop of constructTextFromHostPSI at `start` in shred `shredNo`, with
   * `hostText` the cached host text: move on to the next shred, or copy the overlapping part of the
   * prefix, of the host body (through the escaper; when it maps the end to -1 the suffix is tried
   * instead) or of the suffix. An index that is out of bounds, or a start before the shred, fails.
   */
  function Step(shreds: seq<Shred>, escapers: seq<Escaper>, shredNo: nat, hostText: string, start: int, end: int): (m: Move)
    requires shredNo < |shreds| && |escapers| == |shreds| && start < end
    ensures m.Copy? ==> start < m.next <= end
  {
    var cur := shreds[shredNo];
    if start >= cur.rangeEnd then NextShred
    else if start < cur.rangeStart then Fail
    else if start - cur.rangeStart < |cur.prefix| then
      var a := start - cur.rangeStart;
      var b := Min(|cur.prefix|, end - cur.rangeStart);
      Copy(cur.prefix[a..b], start + (b - a))
    else
      var cut := Min(end, cur.rangeEnd - |cur.suffix|);
      var escaper := escapers[shredNo];
      if start < cur.rangeEnd - |cur.suffix| && escaper(cut - cur.rangeStart - |cur.prefix|) != -1 then
        match Slice(hostText, escaper(start - cur.rangeStart - |cur.prefix|), escaper(cut - cur.rangeStart - |cur.prefix|))
        case None => Fail
        case Some(piece) => Copy(piece, cut)
      else
        var a := |cur.suffix| - cur.rangeEnd + start;
        var b := Min(|cur.suffix|, end + |cur.suffix| - cur.rangeEnd);
        match Slice(cur.suffix, a, b)
        case None => Fail
        case Some(piece) => Copy(piece, start + (b - a))
  }

  /**
   * The whole loop: the text appended, and the shred number and host text it leaves behind. Moving
   * past the last shred fails with shredNo one past the end, as the incremented index does.
   */
  function Reconstruct(shreds: seq<Shred>, escapers: seq<Escaper>, shredNo: nat, hostText: string, start: int, end: int): (r: Outcome)
    requires shredNo < |shreds| && |escapers| == |shreds|
    ensures r.shredNo >= shredNo
    ensures !r.failed ==> r.shredNo < |shreds|
    ensures start >= end ==> r == Outcome("", shredNo, hostText, false)
    decreases |shreds| - shredNo, end - start
  {
    if start >= end then Outcome("", shredNo, hostText, false)
    else
      match Step(shreds, escapers, shredNo, hostText, start, end)
      case NextShred =>
        if shredNo + 1 == |shreds| then Outcome("", shredNo + 1, hostText, true)
        else Reconstruct(shreds, escapers, shredNo + 1, shreds[shredNo + 1].hostText, start, end)
      case Fail => Outcome("", shredNo, hostText, true)
      case Copy(piece, next) => Prepend(piece, Reconstruct(shreds, escapers, shredNo, hostText, next, end))
  }

  /** One turn of the loop, as Reconstruct takes it. */
  lemma ReconstructStep(shreds: seq<Shred>, escapers: seq<Escaper>, n: nat, hostText: string, start: int, end: int)
    requires n < |shreds| && |escapers| == |shreds| && start < end
    ensures var m := Step(shreds, escapers, n, hostText, start, end);
            var r := Reconstruct(shreds, escapers, n, hostText, start, end);
            (m.NextShred? && n + 1 < |shreds| ==> r == Reconstruct(shreds, escapers, n + 1, shreds[n + 1].hostText, start, end))
            && (m.NextShred? && n + 1 == |shreds| ==> r == Outcome("", n + 1, hostText, true))
            && (m.Fail? ==> r == Outcome("", n, hostText, true))
            && (m.Copy? ==> r == Prepend(m.piece, Reconstruct(shreds, escapers, n, hostText, m.next, end)))
  {
  }

  lemma PrependTwice(text: string, piece: string, o: Outcome)
    ensures Prepend(text, Prepend(piece, o)) == Prepend(text + piece, o)
  {
    assert text + (piece + o.text) == (text + piece) + o.text;
  }

  /** The text a shred contributes to the injected document when its escaper is the identity. */
  function ShredText(s: Shred): string
    requires 0 <= s.insideHostStart <= s.insideHostEnd <= |s.hostText|
  {
    s.prefix + s.hostText[s.insideHostStart..s.insideHostEnd] + s.suffix
  }

  predicate ShredOk(s: Shred) {
    0 <= s.insideHostStart <= s.insideHostEnd <= |s.hostText|
    && s.rangeEnd - s.rangeStart == |s.prefix| + (s.insideHostEnd - s.insideHostStart) + |s.suffix|
  }

  /** Shreds from `n` on are consistent and lie end to end in the injected document. */
  predicate ContiguousFrom(shreds: seq<Shred>, n: nat) {
    (forall i :: n <= i < |shreds| ==> ShredOk(shreds[i]))
    && (forall i :: n <= i < |shreds| - 1 ==> shreds[i + 1].rangeStart == shreds[i].rangeEnd)
  }

  /** An escaper for text without escapes: decoded offset o is host offset insideHostStart + o. */
  predicate LiteralEscaper(s: Shred, e: Escaper) {
    forall o :: 0 <= o <= s.insideHostEnd - s.insideHostStart ==> e(o) == s.insideHostStart + o
  }

  /** The injected document from shred n on. */
  function DocFrom(shreds: seq<Shred>, n: nat): string
    requires ContiguousFrom(shreds, n)
    decreases |shreds| - n
  {
    if n >= |shreds| then "" else ShredText(shreds[n]) + DocFrom(shreds, n + 1)
  }

  lemma SliceOfLeft(a: string, b: string, i: int, j: int)
    requires 0 <= i <= j <= |a|
    ensures (a + b)[i..j] == a[i..j]
  {
  }

  lemma SliceOfRight(a: string, b: string, i: int, j: int)
    requires |a| <= i <= j <= |a| + |b|
    ensures (a + b)[i..j] == b[i - |a|..j - |a|]
  {
  }

  lemma SliceJoin(s: string, i: int, j: int, k: int)
    requires 0 <= i <= j <= k <= |s|
    ensures s[i..j] + s[j..k] == s[i..k]
  {
  }

  lemma SliceOfPrefix(p: string, b: string, x: string, i: int, j: int)
    requires 0 <= i <= j <= |p|
    ensures (p + b + x)[i..j] == p[i..j]
  {
    SliceOfLeft(p + b, x, i, j);
    SliceOfLeft(p, b, i, j);
  }

  lemma SliceOfBody(p: string, b: string, x: string, i: int, j: int)
    requires |p| <= i <= j <= |p| + |b|
    ensures (p + b + x)[i..j] == b[i - |p|..j - |p|]
  {
    SliceOfLeft(p + b, x, i, j);
    SliceOfRight(p, b, i, j);
  }

  lemma SliceOfSuffix(p: string, b: string, x: string, i: int, j: int)
    requires |p| + |b| <= i <= j <= |p| + |b| + |x|
    ensures (p + b + x)[i..j] == x[i - (|p| + |b|)..j - (|p| + |b|)]
  {
    SliceOfRight(p + b, x, i, j);
  }

  lemma SliceOfSlice(h: string, a: int, c: int, i: int, j: int)
    requires 0 <= a <= c <= |h| && 0 <= i <= j <= c - a
    ensures h[a..c][i..j] == h[a + i..a + j]
  {
    var l, r := h[a..c][i..j], h[a + i..a + j];
    forall k | 0 <= k < |l|
      ensures l[k] == r[k]
    {
    }
  }

  /** The copy a literal step makes: the next part of the shred's text, within the shred. */
  predicate CopiesShredText(shreds: seq<Shred>, escapers: seq<Escaper>, n: nat, start: int, end: int)
    requires n < |shreds| && |escapers| == |shreds| && ShredOk(shreds[n]) && start < end
    requires shreds[n].rangeStart <= start
  {
    var m := Step(shreds, escapers, n, shreds[n].hostText, start, end);
    m.Copy? && m.next <= shreds[n].rangeEnd
    && m.piece == ShredText(shreds[n])[start - shreds[n].rangeStart..m.next - shreds[n].rangeStart]
  }

  lemma LiteralStepInPrefix(shreds: seq<Shred>, escapers: seq<Escaper>, n: nat, start: int, end: int)
    requires n < |shreds| && |escapers| == |shreds| && ShredOk(shreds[n])
    requires shreds[n].rangeStart <= start < end && start < shreds[n].rangeEnd
    requires start - shreds[n].rangeStart < |shreds[n].prefix|
    ensures CopiesShredText(shreds, escapers, n, start, end)
  {
    var cur := shreds[n];
    var body := cur.hostText[cur.insideHostStart..cur.insideHostEnd];
    assert ShredText(cur) == cur.prefix + body + cur.suffix;
    SliceOfPrefix(cur.prefix, body, cur.suffix, start - cur.rangeStart, Min(|cur.prefix|, end - cur.rangeStart));
  }

  lemma LiteralStepInBody(shreds: seq<Shred>, escapers: seq<Escaper>, n: nat, start: int, end: int)
    requires n < |shreds| && |escapers| == |shreds| && ShredOk(shreds[n]) && LiteralEscaper(shreds[n], escapers[n])
    requires shreds[n].rangeStart <= start < end && start < shreds[n].rangeEnd - |shreds[n].suffix|
    requires start - shreds[n].rangeStart >= |shreds[n].prefix|
    ensures CopiesShredText(shreds, escapers, n, start, end)
  {
    var cur := shreds[n];
    var rs := cur.rangeStart;
    var cut := Min(end, cur.rangeEnd - |cur.suffix|);
    var e := escapers[n];
    assert e(cut - rs - |cur.prefix|) == cur.insideHostStart + (cut - rs - |cur.prefix|);
    assert e(start - rs - |cur.prefix|) == cur.insideHostStart + (start - rs - |cur.prefix|);
    var body := cur.hostText[cur.insideHostStart..cur.insideHostEnd];
    assert ShredText(cur) == cur.prefix + body + cur.suffix;
    SliceOfBody(cur.prefix, body, cur.suffix, start - rs, cut - rs);
    SliceOfSlice(cur.hostText, cur.insideHostStart, cur.insideHostEnd, start - rs - |cur.prefix|, cut - rs - |cur.prefix|);
  }

  lemma LiteralStepInSuffix(shreds: seq<Shred>, escapers: seq<Escaper>, n: nat, start: int, end: int)
    requires n < |shreds| && |escapers| == |shreds| && ShredOk(shreds[n])
    requires shreds[n].rangeStart <= start < end && shreds[n].rangeEnd - |shreds[n].suffix| <= start < shreds[n].rangeEnd
    requires start - shreds[n].rangeStart >= |shreds[n].prefix|
    ensures CopiesShredText(shreds, escapers, n, start, end)
  {
    var cur := shreds[n];
    var a := |cur.suffix| - cur.rangeEnd + start;
    var b := Min(|cur.suffix|, end + |cur.suffix| - cur.rangeEnd);
    var body := cur.hostText[cur.insideHostStart..cur.insideHostEnd];
    assert ShredText(cur) == cur.prefix + body + cur.suffix;
    SliceOfSuffix(cur.prefix, body, cur.suffix, start - cur.rangeStart, start + (b - a) - cur.rangeStart);
  }

  /**
   * With a literal escaper, a step inside the current shred copies exactly the next part of the
   * shred's text, never past the shred's end.
   */
  lemma LiteralStep(shreds: seq<Shred>, escapers: seq<Escaper>, n: nat, start: int, end: int)
    requires n < |shreds| && |escapers| == |shreds| && ShredOk(shreds[n]) && LiteralEscaper(shreds[n], escapers[n])
    requires shreds[n].rangeStart <= start < end && start < shreds[n].rangeEnd
    ensures var m := Step(shreds, escapers, n, shreds[n].hostText, start, end);
            m.Copy? && m.next <= shreds[n].rangeEnd
            && m.piece == ShredText(shreds[n])[start - shreds[n].rangeStart..m.next - shreds[n].rangeStart]
  {
    var cur := shreds[n];
    if start - cur.rangeStart < |cur.prefix| {
      LiteralStepInPrefix(shreds, escapers, n, start, end);
    } else if start < cur.rangeEnd - |cur.suffix| {
      LiteralStepInBody(shreds, escapers, n, start, end);
    } else {
      LiteralStepInSuffix(shreds, escapers, n, start, end);
    }
  }

  /** The document from shred n is shred n's text followed by the document from shred n + 1. */
  lemma DocFromStep(shreds: seq<Shred>, n: nat)
    requires n < |shreds| && ContiguousFrom(shreds, n)
    ensures ShredOk(shreds[n]) && DocFrom(shreds, n) == ShredText(shreds[n]) + DocFrom(shreds, n + 1)
    ensures |ShredText(shreds[n])| == shreds[n].rangeEnd - shreds[n].rangeStart
    ensures n + 1 < |shreds| ==> shreds[n + 1].rangeStart == shreds[n].rangeEnd
    ensures n + 1 == |shreds| ==> DocFrom(shreds, n + 1) == ""
  {
  }

  /**
   * With consistent, contiguous shreds and escapers that do not unescape anything, reconstructing
   * any range of the injected document that starts in or after the current shred never fails and
   * yields exactly that range of the document.
   */
  lemma {:induction false} LiteralShredsRebuildDocument(
    shreds: seq<Shred>, escapers: seq<Escaper>, n: nat, start: int, end: int)
    requires n < |shreds| && |escapers| == |shreds| && ContiguousFrom(shreds, n)
    requires forall i :: n <= i < |shreds| ==> LiteralEscaper(shreds[i], escapers[i])
    requires shreds[n].rangeStart <= start <= end <= shreds[n].rangeStart + |DocFrom(shreds, n)|
    ensures var r := Reconstruct(shreds, escapers, n, shreds[n].hostText, start, end);
            !r.failed && r.text == DocFrom(shreds, n)[start - shreds[n].rangeStart..end - shreds[n].rangeStart]
    decreases |shreds| - n, end - start, 1
  {
    if start == end {
    } else if start >= shreds[n].rangeEnd {
      RebuildAcrossShreds(shreds, escapers, n, start, end);
    } else {
      RebuildWithinShred(shreds, escapers, n, start, end);
    }
  }

  /** A range starting past the current shred is rebuilt from the next shred on. */
  lemma {:induction false} RebuildAcrossShreds(
    shreds: seq<Shred>, escapers: seq<Escaper>, n: nat, start: int, end: int)
    requires n < |shreds| && |escapers| == |shreds| && ContiguousFrom(shreds, n)
    requires forall i :: n <= i < |shreds| ==> LiteralEscaper(shreds[i], escapers[i])
    requires shreds[n].rangeEnd <= start < end <= shreds[n].rangeStart + |DocFrom(shreds, n)|
    ensures var r := Reconstruct(shreds, escapers, n, shreds[n].hostText, start, end);
            !r.failed && r.text == DocFrom(shreds, n)[start - shreds[n].rangeStart..end - shreds[n].rangeStart]
    decreases |shreds| - n, end - start, 0
  {
    var cur := shreds[n];
    var rs := cur.rangeStart;
    DocFromStep(shreds, n);
    var st := ShredText(cur);
    var rest := DocFrom(shreds, n + 1);
    assert n + 1 < |shreds|;
    ReconstructNextShred(shreds, escapers, n, cur.hostText, start, end);
    ContiguousNext(shreds, n);
    LiteralShredsRebuildDocument(shreds, escapers, n + 1, start, end);
    SliceOfRight(st, rest, start - rs, end - rs);
  }

  /** A turn of the loop past the current shred restarts in the next one with its host text. */
  lemma ReconstructNextShred(shreds: seq<Shred>, escapers: seq<Escaper>, n: nat, hostText: string, start: int, end: int)
    requires n + 1 < |shreds| && |escapers| == |shreds| && shreds[n].rangeEnd <= start < end
    ensures Reconstruct(shreds, escapers, n, hostText, start, end)
            == Reconstruct(shreds, escapers, n + 1, shreds[n + 1].hostText, start, end)
  {
  }

  lemma ContiguousNext(shreds: seq<Shred>, n: nat)
    requires n < |shreds| && ContiguousFrom(shreds, n)
    ensures ContiguousFrom(shreds, n + 1)
  {
  }

  /** A range starting inside the current shred copies the next part of it, then goes on. */
  lemma {:induction false} RebuildWithinShred(
    shreds: seq<Shred>, escapers: seq<Escaper>, n: nat, start: int, end: int)
    requires n < |shreds| && |escapers| == |shreds| && ContiguousFrom(shreds, n)
    requires forall i :: n <= i < |shreds| ==> LiteralEscaper(shreds[i], escapers[i])
    requires shreds[n].rangeStart <= start < end <= shreds[n].rangeStart + |DocFrom(shreds, n)|
    requires start < shreds[n].rangeEnd
    ensures var r := Reconstruct(shreds, escapers, n, shreds[n].hostText, start, end);
            !r.failed && r.text == DocFrom(shreds, n)[start - shreds[n].rangeStart..end - shreds[n].rangeStart]
    decreases |shreds| - n, end - start, 0
  {
    var cur := shreds[n];
    var rs := cur.rangeStart;
    DocFromStep(shreds, n);
    var st := ShredText(cur);
    var rest := DocFrom(shreds, n + 1);
    var m := Step(shreds, escapers, n, cur.hostText, start, end);
    LiteralStep(shreds, escapers, n, start, end);
    ReconstructCopy(shreds, escapers, n, cur.hostText, start, end);
    LiteralShredsRebuildDocument(shreds, escapers, n, m.next, end);
    CombineCopy(st, rest, m.piece, Reconstruct(shreds, escapers, n, cur.hostText, m.next, end), start - rs, m.next - rs, end - rs);
  }

  /** A turn of the loop that copies a piece prepends it to the rest of the loop's text. */
  lemma ReconstructCopy(shreds: seq<Shred>, escapers: seq<Escaper>, n: nat, hostText: string, start: int, end: int)
    requires n < |shreds| && |escapers| == |shreds| && start < end
    requires Step(shreds, escapers, n, hostText, start, end).Copy?
    ensures var m := Step(shreds, escapers, n, hostText, start, end);
            Reconstruct(shreds, escapers, n, hostText, start, end)
            == Prepend(m.piece, Reconstruct(shreds, escapers, n, hostText, m.next, end))
  {
  }

  /** A copied piece of the first part, followed by the rest of the range, is the whole range. */
  lemma CombineCopy(st: string, rest: string, piece: string, tail: Outcome, i: int, next: int, e: int)
    requires 0 <= i <= next <= |st| && next <= e <= |st| + |rest|
    requires piece == st[i..next]
    requires !tail.failed && tail.text == (st + rest)[next..e]
    ensures !Prepend(piece, tail).failed && Prepend(piece, tail).text == (st + rest)[i..e]
  {
    SliceOfLeft(st, rest, i, next);
    SliceJoin(st + rest, i, next, e);
  }

  /** The carried tail: what the encoded text has beyond the leaf text, when it strictly extends it. */
  function Tail(encoded: string, leafText: string): (r: Option<string>)
    ensures r.Some? <==> |leafText| < |encoded| && encoded[..|leafText|] == leafText
  {
    if |leafText| <= |encoded| && encoded[..|leafText|] == leafText && |encoded| != |leafText|
    then Some(encoded[|leafText|..]) else None
  }

  /** A tail is non-empty and completes the leaf text to the encoded text. */
  lemma TailCompletesLeafText(encoded: string, leafText: string)
    requires Tail(encoded, leafText).Some?
    ensures leafText + Tail(encoded, leafText).value == encoded && Tail(encoded, leafText).value != ""
  {
    assert encoded == encoded[..|leafText|] + encoded[|leafText|..];
  }

  /** A leaf text followed by a non-empty tail gives back exactly that tail. */
  lemma TailOfExtension(leafText: string, tail: string)
    requires tail != ""
    ensures Tail(leafText + tail, leafText) == Some(tail)
  {
    assert (leafText + tail)[..|leafText|] == leafText;
    assert (leafText + tail)[|leafText|..] == tail;
  }

  /** storeUnescapedTextFor: the UNESCAPED_TEXT user data is stored only on a leaf that has a PSI element. */
  function StoreUnescaped(unescaped: map<Leaf, Option<string>>, leaf: Leaf, text: Option<string>): (r: map<Leaf, Option<string>>)
    ensures leaf.hasPsi ==> r == unescaped[leaf := text]
    ensures !leaf.hasPsi ==> r == unescaped
  {
    if leaf.hasPsi then unescaped[leaf := text] else unescaped
  }

  /** What visitLeaf records, given the leaf's encoded text. */
  datatype Recorded = Recorded(newTexts: map<Leaf, string>, unescaped: map<Leaf, Option<string>>, tail: Option<string>)

  /** The bookkeeping of visitLeaf once the leaf's text has been rebuilt from the host as `encoded`. */
  function LeafStep(
    newTexts: map<Leaf, string>, unescaped: map<Leaf, Option<string>>,
    prevElement: Option<Leaf>, prevTail: Option<string>, leaf: Leaf, encoded: string): (r: Recorded)
    requires prevTail.Some? ==> prevElement.Some?
  {
    var carry := leaf.isWhiteSpace && prevTail.Some?;
    var enc := if carry then prevTail.value + encoded else encoded;
    var n1 := if carry then newTexts - {prevElement.value} else newTexts;
    var u1 := if carry then StoreUnescaped(unescaped, prevElement.value, None) else unescaped;
    if leaf.text != enc then Recorded(n1[leaf := enc], StoreUnescaped(u1, leaf, Some(leaf.text)), Tail(enc, leaf.text))
    else Recorded(n1, u1, Tail(enc, leaf.text))
  }

  predicate OnlyChanged(newTexts: map<Leaf, string>) {
    forall l :: l in newTexts ==> newTexts[l] != l.text
  }

  /** newTexts holds only leaves whose rebuilt text differs from their own text. */
  lemma LeafStepRecordsOnlyChanges(
    newTexts: map<Leaf, string>, unescaped: map<Leaf, Option<string>>,
    prevElement: Option<Leaf>, prevTail: Option<string>, leaf: Leaf, encoded: string)
    requires prevTail.Some? ==> prevElement.Some?
    requires OnlyChanged(newTexts)
    ensures OnlyChanged(LeafStep(newTexts, unescaped, prevElement, prevTail, leaf, encoded).newTexts)
  {
  }

  /**
   * A leaf that is not white space after a tail gets an entry exactly when its encoded text differs,
   * and the entry is that text; no other entry changes.
   */
  lemma LeafStepRecordsDifference(
    newTexts: map<Leaf, string>, unescaped: map<Leaf, Option<string>>,
    prevElement: Option<Leaf>, prevTail: Option<string>, leaf: Leaf, encoded: string)
    requires prevTail.Some? ==> prevElement.Some?
    requires !(leaf.isWhiteSpace && prevTail.Some?) && leaf !in newTexts
    ensures var r := LeafStep(newTexts, unescaped, prevElement, prevTail, leaf, encoded).newTexts;
            (leaf in r <==> encoded != leaf.text)
            && (leaf in r ==> r[leaf] == encoded)
            && (forall l :: l != leaf ==> (l in r <==> l in newTexts))
  {
  }

  /**
   * A white-space leaf after a leaf with a pending tail takes the tail in front of its own encoded
   * text, and the previous leaf's entry is dropped.
   */
  lemma WhiteSpaceTakesTail(
    newTexts: map<Leaf, string>, unescaped: map<Leaf, Option<string>>,
    prev: Leaf, tail: string, leaf: Leaf, encoded: string)
    requires leaf.isWhiteSpace && leaf != prev
    ensures var r := LeafStep(newTexts, unescaped, Some(prev), Some(tail), leaf, encoded);
            prev !in r.newTexts
            && (tail + encoded != leaf.text ==> leaf in r.newTexts && r.newTexts[leaf] == tail + encoded)
            && (prev.hasPsi ==> prev in r.unescaped && r.unescaped[prev] == None)
  {
  }

  /** The tail left for the next leaf is what the (possibly tail-prefixed) encoded text has beyond the leaf. */
  lemma LeafStepTail(
    newTexts: map<Leaf, string>, unescaped: map<Leaf, Option<string>>,
    prevElement: Option<Leaf>, prevTail: Option<string>, leaf: Leaf, encoded: string)
    requires prevTail.Some? ==> prevElement.Some?
    ensures var r := LeafStep(newTexts, unescaped, prevElement, prevTail, leaf, encoded);
            var enc := if leaf.isWhiteSpace && prevTail.Some? then prevTail.value + encoded else encoded;
            r.tail.Some? ==> leaf.text + r.tail.value == enc
  {
    var enc := if leaf.isWhiteSpace && prevTail.Some? then prevTail.value + encoded else encoded;
    if Tail(enc, leaf.text).Some? {
      TailCompletesLeafText(enc, leaf.text);
    }
  }

  /** The concatenated texts of a sequence of leaves. */
  function Texts(leaves: seq<Leaf>): string {
    if |leaves| == 0 then "" else Texts(leaves[..|leaves| - 1]) + leaves[|leaves| - 1].text
  }

  class LeafPatcher {
    var prevElement: Option<Leaf>
    var prevElementTail: Option<string>
    var shredNo: nat
    var hostText: Option<string>
    const shreds: seq<Shred>
    const escapers: seq<Escaper>
    var newTexts: map<Leaf, string>
    var catLeafs: string
    /** The UNESCAPED_TEXT user data of the leaves' PSI elements. */
    var unescaped: map<Leaf, Option<string>>
    /** The leaves visited so far, in order. */
    ghost var visited: seq<Leaf>

    ghost predicate Valid()
      reads this
    {
      |escapers| == |shreds|
      && (prevElementTail.Some? ==> prevElement.Some?)
      && catLeafs == Texts(visited)
      && OnlyChanged(newTexts)
    }

    constructor (shreds: seq<Shred>, escapers: seq<Escaper>)
      requires |escapers| == |shreds|
      ensures Valid()
      ensures this.shreds == shreds && this.escapers == escapers
      ensures prevElement == None && prevElementTail == None && shredNo == 0 && hostText == None
      ensures newTexts == map[] && catLeafs == "" && unescaped == map[] && visited == []
    {
      this.shreds := shreds;
      this.escapers := escapers;
      prevElement := None;
      prevElementTail := None;
      shredNo := 0;
      hostText := None;
      newTexts := map[];
      catLeafs := "";
      unescaped := map[];
      visited := [];
    }

    /**
     * The loop body of constructTextFromHostPSI inside the current shred: the piece it appends
     * (None when an index is out of bounds) and the offset it moves to.
     */
    method CopyInShred(n: nat, h: string, start: int, endOffset: int) returns (piece: Option<string>, next: int)
      requires n < |shreds| && |escapers| == |shreds|
      requires start < endOffset && start < shreds[n].rangeEnd
      ensures var m := Step(shreds, escapers, n, h, start, endOffset);
              (piece.None? <==> m.Fail?) && (piece.Some? ==> m == Copy(piece.value, next))
    {
      var cur := shreds[n];
      if start < cur.rangeStart {
        return None, start;
      }
      if start - cur.rangeStart < |cur.prefix| {
        var a := start - cur.rangeStart;
        var b := Min(|cur.prefix|, endOffset - cur.rangeStart);
        return Some(cur.prefix[a..b]), start + (b - a);
      }
      var suffix := cur.suffix;
      if start < cur.rangeEnd - |suffix| {
        var startInHost := escapers[n](start - cur.rangeStart - |cur.prefix|);
        var cut := Min(endOffset, cur.rangeEnd - |suffix|);
        var endInHost := escapers[n](cut - cur.rangeStart - |cur.prefix|);
        if endInHost != -1 {
          piece := Slice(h, startInHost, endInHost);
          return piece, cut;
        }
      }
      var a := |suffix| - cur.rangeEnd + start;
      var b := Min(|suffix|, endOffset + |suffix| - cur.rangeEnd);
      piece := Slice(suffix, a, b);
      return piece, start + (b - a);
    }

    /**
     * constructTextFromHostPSI: the while loop of Reconstruct. The shred number and the host text
     * are updated in place; the loop works on local copies, which are stored when it ends.
     */
    method ConstructText(startOffset: int, endOffset: int) returns (text: string, failed: bool)
      requires Valid()
      modifies this
      ensures Valid()
      ensures prevElement == old(prevElement) && prevElementTail == old(prevElementTail)
      ensures newTexts == old(newTexts) && catLeafs == old(catLeafs) && unescaped == old(unescaped) && visited == old(visited)
      ensures old(shredNo) >= |shreds| ==> failed && shredNo == old(shredNo) && hostText == old(hostText)
      ensures old(shredNo) < |shreds| ==>
        var h := if old(hostText).Some? then old(hostText).value else shreds[old(shredNo)].hostText;
        var r := Reconstruct(shreds, escapers, old(shredNo), h, startOffset, endOffset);
        text == r.text && failed == r.failed && shredNo == r.shredNo && hostText == Some(r.hostText)
    {
      if shredNo >= |shreds| {
        return "", true;
      }
      var h := if hostText.Some? then hostText.value else shreds[shredNo].hostText;
      var n;
      text, failed, n, h := ReconstructLoop(shredNo, h, startOffset, endOffset);
      shredNo, hostText := n, Some(h);
    }

    /** The while loop of constructTextFromHostPSI, from shred n0 with host text h0. */
    method ReconstructLoop(n0: nat, h0: string, startOffset: int, endOffset: int)
      returns (text: string, failed: bool, n: nat, h: string)
      requires n0 < |shreds| && |escapers| == |shreds|
      ensures var r := Reconstruct(shreds, escapers, n0, h0, startOffset, endOffset);
              text == r.text && failed == r.failed && n == r.shredNo && h == r.hostText
    {
      n, h := n0, h0;
      ghost var goal := Reconstruct(shreds, escapers, n, h, startOffset, endOffset);
      var start := startOffset;
      text := "";
      failed := false;
      while start < endOffset
        invariant n < |shreds|
        invariant goal == Prepend(text, Reconstruct(shreds, escapers, n, h, start, endOffset))
        decreases |shreds| - n, endOffset - start
      {
        if start >= shreds[n].rangeEnd {
          if n + 1 == |shreds| {
            ReconstructStep(shreds, escapers, n, h, start, endOffset);
            n, failed := n + 1, true;
            break;
          }
          ReconstructNextShred(shreds, escapers, n, h, start, endOffset);
          n := n + 1;
          h := shreds[n].hostText;
          continue;
        }
        var piece, next := CopyInShred(n, h, start, endOffset);
        if piece.None? {
          ReconstructStep(shreds, escapers, n, h, start, endOffset);
          failed := true;
          break;
        }
        ReconstructCopy(shreds, escapers, n, h, start, endOffset);
        PrependTwice(text, piece.value, Reconstruct(shreds, escapers, n, h, next, endOffset));
        text := text + piece.value;
        start := next;
      }
    }

    /**
     * visitLeaf: appends the leaf text to catLeafs, rebuilds the leaf's text from the host and
     * records it as LeafStep says; `failed` is an exception from the reconstruction, after which
     * only catLeafs, shredNo and hostText have changed.
     */
    method VisitLeaf(leaf: Leaf) returns (failed: bool)
      requires Valid()
      modifies this
      ensures Valid()
      ensures catLeafs == old(catLeafs) + leaf.text && visited == old(visited) + [leaf]
      ensures old(shredNo) < |shreds| && !failed ==>
        var h := if old(hostText).Some? then old(hostText).value else shreds[old(shredNo)].hostText;
        var r := Reconstruct(shreds, escapers, old(shredNo), h, leaf.startOffset, leaf.startOffset + |leaf.text|);
        var s := LeafStep(old(newTexts), old(unescaped), old(prevElement), old(prevElementTail), leaf, r.text);
        !r.failed && newTexts == s.newTexts && unescaped == s.unescaped && prevElementTail == s.tail
        && prevElement == Some(leaf) && shredNo == r.shredNo && hostText == Some(r.hostText)
      ensures failed ==> newTexts == old(newTexts) && unescaped == old(unescaped)
      ensures failed ==> prevElement == old(prevElement) && prevElementTail == old(prevElementTail)
      ensures old(shredNo) >= |shreds| ==> failed
    {
      catLeafs := catLeafs + leaf.text;
      visited := visited + [leaf];
      assert visited[..|visited| - 1] == old(visited);
      ghost var n0 := shredNo;
      ghost var h0 := if hostText.Some? then hostText.value else if n0 < |shreds| then shreds[n0].hostText else "";
      var encoded;
      encoded, failed := ConstructText(leaf.startOffset, leaf.startOffset + |leaf.text|);
      if failed {
        return;
      }
      ghost var r := Reconstruct(shreds, escapers, n0, h0, leaf.startOffset, leaf.startOffset + |leaf.text|);
      assert encoded == r.text && shredNo == r.shredNo && hostText == Some(r.hostText) && !r.failed;
      Record(leaf, encoded);
    }

    /** The bookkeeping part of visitLeaf, once the leaf's text has been rebuilt as `encoded`. */
    method Record(leaf: Leaf, encoded: string)
      requires Valid()
      modifies this
      ensures Valid()
      ensures var s := LeafStep(old(newTexts), old(unescaped), old(prevElement), old(prevElementTail), leaf, encoded);
              newTexts == s.newTexts && unescaped == s.unescaped && prevElementTail == s.tail
      ensures prevElement == Some(leaf)
      ensures catLeafs == old(catLeafs) && visited == old(visited) && shredNo == old(shredNo) && hostText == old(hostText)
    {
      LeafStepRecordsOnlyChanges(newTexts, unescaped, prevElement, prevElementTail, leaf, encoded);
      var leafEncodedText := encoded;
      if leaf.isWhiteSpace && prevElementTail.Some? {
        leafEncodedText := prevElementTail.value + leafEncodedText;
        newTexts := newTexts - {prevElement.value};
        unescaped := StoreUnescaped(unescaped, prevElement.value, None);
      }
      if leaf.text != leafEncodedText {
        newTexts := newTexts[leaf := leafEncodedText];
        unescaped := StoreUnescaped(unescaped, leaf, Some(leaf.text));
      }
      prevElementTail := Tail(leafEncodedText, leaf.text);
      prevElement := Some(leaf);
    }
  }
}
