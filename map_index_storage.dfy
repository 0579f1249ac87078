/**
 * MapIndexStorage: an index storage that keeps, per key, the (value, inputId)
 * pairs of an index in a persistent hash map, fronted by a cache of
 * change-tracking containers that are written back when they leave the cache.
 *
 * A persisted record stream is modelled as a sequence of tokens: a value
 * written by the value externalizer, or a signed integer written with
 * writeSINT. Decoding replays the stream: a non-negative id adds the pair, a
 * negative id removes the pair with the negated id and marks the container as
 * needing compaction.
 */
module MapIndexStorage {
  import opened Wrappers

  datatype Token<V(!new)> = Val(v: V) | Int(n: int)

  /** A decoded value container: its (value, inputId) pairs and its needs-compacting flag. */
  datatype Loaded<V(==,!new)> = Loaded(pairs: set<(V, int)>, compacting: bool)

  /** Why a record stream could not be decoded (the stream ended early, or a token has the wrong kind). */
  datatype DecodeError = Truncated | Malformed

  function Empty<V(==,!new)>(): Loaded<V> {
    Loaded({}, false)
  }

  predicate IdsNonNegative<V(==,!new)>(s: set<(V, int)>) {
    forall p :: p in s ==> p.1 >= 0
  }

  predicate IdsPositive<V(==,!new)>(s: set<(V, int)>) {
    forall p :: p in s ==> p.1 > 0
  }

  /** The effect of reading one id of value v. */
  function Apply<V(==,!new)>(st: Loaded<V>, v: V, id: int): Loaded<V> {
    if id < 0 then Loaded(st.pairs - {(v, -id)}, true)
    else Loaded(st.pairs + {(v, id)}, st.compacting)
  }

  /** Replays a record stream onto st: records are a value, an id count and that many ids. */
  function Replay<V(==,!new)>(st: Loaded<V>, s: seq<Token<V>>): Result<Loaded<V>, DecodeError>
    decreases |s|, 0
  {
    if |s| == 0 then Ok(st)
    else if !s[0].Val? then Err(Malformed)
    else if |s| == 1 then Err(Truncated)
    else if !s[1].Int? then Err(Malformed)
    else ReplayIds(st, s[0].v, s[1].n, s[2..])
  }

  /** Replays the k remaining ids of value v, then the records after them; a count k <= 0 reads no id. */
  function ReplayIds<V(==,!new)>(st: Loaded<V>, v: V, k: int, s: seq<Token<V>>): Result<Loaded<V>, DecodeError>
    decreases |s|, 1
  {
    if k <= 0 then Replay(st, s)
    else if |s| == 0 then Err(Truncated)
    else if !s[0].Int? then Err(Malformed)
    else ReplayIds(Apply(st, v, s[0].n), v, k - 1, s[1..])
  }

  /** The decoded contents of a whole persisted stream. */
  function Decode<V(==,!new)>(s: seq<Token<V>>): Result<set<(V, int)>, DecodeError> {
    match Replay(Empty(), s)
    case Ok(st) => Ok(st.pairs)
    case Err(e) => Err(e)
  }

  /** The state reached by replaying a save of container c onto st. */
  function Saved<V(==,!new)>(st: Loaded<V>, c: set<(V, int)>, asRemoved: bool): Loaded<V> {
    if asRemoved then Loaded(st.pairs - c, st.compacting || c != {})
    else Loaded(st.pairs + c, st.compacting)
  }

  /** ValueContainerExternalizer.read: decodes a record stream into a fresh container. */
  method ReadContainer<V(==,!new)>(stream: seq<Token<V>>) returns (r: Result<Loaded<V>, DecodeError>)
    ensures r == Replay(Empty(), stream)
  {
    var st: Loaded<V> := Empty();
    var pos := 0;
    while pos < |stream|
      invariant 0 <= pos <= |stream|
      invariant Replay(Empty(), stream) == Replay(st, stream[pos..])
      decreases |stream| - pos
    {
      if !stream[pos].Val? {
        return Err(Malformed);
      }
      var value := stream[pos].v;
      if pos + 1 == |stream| {
        return Err(Truncated);
      }
      if !stream[pos + 1].Int? {
        return Err(Malformed);
      }
      var idCount := stream[pos + 1].n;
      assert stream[pos..][2..] == stream[pos + 2..];
      ghost var recordStart := pos;
      pos := pos + 2;
      var i := 0;
      while i < idCount
        invariant recordStart + 2 <= pos <= |stream|
        invariant Replay(Empty(), stream) == ReplayIds(st, value, idCount - i, stream[pos..])
        decreases idCount - i
      {
        if pos == |stream| {
          return Err(Truncated);
        }
        if !stream[pos].Int? {
          return Err(Malformed);
        }
        var id := stream[pos].n;
        if id < 0 {
          st := Loaded(st.pairs - {(value, -id)}, true);
        } else {
          st := Loaded(st.pairs + {(value, id)}, st.compacting);
        }
        assert stream[pos..][1..] == stream[pos + 1..];
        pos := pos + 1;
        i := i + 1;
      }
    }
    return Ok(st);
  }

  /** Replaying one complete stream and then another is replaying their concatenation. */
  lemma {:induction false} ReplayAppend<V(!new)>(st: Loaded<V>, a: seq<Token<V>>, b: seq<Token<V>>)
    requires Replay(st, a).Ok?
    ensures Replay(st, a + b) == Replay(Replay(st, a).value, b)
    decreases |a|, 0
  {
    if |a| == 0 {
      assert a + b == b;
    } else {
      assert (a + b)[2..] == a[2..] + b;
      ReplayIdsAppend(st, a[0].v, a[1].n, a[2..], b);
    }
  }

  lemma {:induction false} ReplayIdsAppend<V(!new)>(st: Loaded<V>, v: V, k: int, a: seq<Token<V>>, b: seq<Token<V>>)
    requires ReplayIds(st, v, k, a).Ok?
    ensures ReplayIds(st, v, k, a + b) == Replay(ReplayIds(st, v, k, a).value, b)
    decreases |a|, 1
  {
    if k <= 0 {
      ReplayAppend(st, a, b);
    } else {
      assert (a + b)[1..] == a[1..] + b;
      ReplayIdsAppend(Apply(st, v, a[0].n), v, k - 1, a[1..], b);
    }
  }

  /** A decoded container never holds a negative input id. */
  lemma {:induction false} ReplayIdsNonNegative<V(!new)>(st: Loaded<V>, s: seq<Token<V>>)
    requires IdsNonNegative(st.pairs) && Replay(st, s).Ok?
    ensures IdsNonNegative(Replay(st, s).value.pairs)
    decreases |s|, 0
  {
    if |s| > 0 {
      ReplayIdsIdsNonNegative(st, s[0].v, s[1].n, s[2..]);
    }
  }

  lemma {:induction false} ReplayIdsIdsNonNegative<V(!new)>(st: Loaded<V>, v: V, k: int, s: seq<Token<V>>)
    requires IdsNonNegative(st.pairs) && ReplayIds(st, v, k, s).Ok?
    ensures IdsNonNegative(ReplayIds(st, v, k, s).value.pairs)
    decreases |s|, 1
  {
    if k <= 0 {
      ReplayIdsNonNegative(st, s);
    } else {
      ReplayIdsIdsNonNegative(Apply(st, v, s[0].n), v, k - 1, s[1..]);
    }
  }

  /** Decode(s) succeeds only with non-negative ids. */
  lemma DecodeIdsNonNegative<V(!new)>(s: seq<Token<V>>)
    requires Decode(s).Ok?
    ensures IdsNonNegative(Decode(s).value)
  {
    ReplayIdsNonNegative(Empty(), s);
  }

  /** Applying the ids of a run one by one. */
  function RunIds<V(==,!new)>(st: Loaded<V>, v: V, ids: seq<int>): Loaded<V>
    decreases |ids|
  {
    if |ids| == 0 then st else RunIds(Apply(st, v, ids[0]), v, ids[1..])
  }

  predicate IsIdTokens<V(==,!new)>(toks: seq<Token<V>>, ids: seq<int>) {
    |toks| == |ids| && forall j :: 0 <= j < |toks| ==> toks[j] == Int(ids[j])
  }

  predicate IsSigned(signed: seq<int>, ids: seq<int>, asRemoved: bool) {
    |signed| == |ids| && forall j :: 0 <= j < |ids| ==> signed[j] == (if asRemoved then -ids[j] else ids[j])
  }

  /** The pairs (v, id) for the ids of a run. */
  function PairsOf<V(==,!new)>(v: V, ids: seq<int>): set<(V, int)>
    decreases |ids|
  {
    if |ids| == 0 then {} else {(v, ids[0])} + PairsOf(v, ids[1..])
  }

  lemma {:induction false} PairsOfMembers<V(!new)>(v: V, ids: seq<int>)
    ensures forall q :: q in PairsOf(v, ids) <==> q.0 == v && q.1 in ids
    decreases |ids|
  {
    if |ids| > 0 {
      PairsOfMembers(v, ids[1..]);
      assert ids == [ids[0]] + ids[1..];
      forall q ensures q in PairsOf(v, ids) <==> q.0 == v && q.1 in ids {
        assert q.1 in ids <==> q.1 == ids[0] || q.1 in ids[1..];
      }
    }
  }

  /** Reading a run of |ids| id tokens applies them in order and resumes with the next record. */
  lemma {:induction false} ReplayIdsRun<V(!new)>(st: Loaded<V>, v: V, toks: seq<Token<V>>, ids: seq<int>, tail: seq<Token<V>>)
    requires IsIdTokens(toks, ids)
    ensures ReplayIds(st, v, |ids|, toks + tail) == Replay(RunIds(st, v, ids), tail)
    decreases |ids|
  {
    if |ids| == 0 {
      assert toks + tail == tail;
    } else {
      assert (toks + tail)[0] == Int(ids[0]);
      assert (toks + tail)[1..] == toks[1..] + tail;
      assert IsIdTokens(toks[1..], ids[1..]) by {
        forall j | 0 <= j < |toks| - 1
          ensures toks[1..][j] == Int(ids[1..][j])
        {
          assert toks[j + 1] == Int(ids[j + 1]);
        }
      }
      ReplayIdsRun(Apply(st, v, ids[0]), v, toks[1..], ids[1..], tail);
    }
  }

  lemma SavedCompose<V(!new)>(st: Loaded<V>, a: set<(V, int)>, b: set<(V, int)>, asRemoved: bool)
    ensures Saved(Saved(st, a, asRemoved), b, asRemoved) == Saved(st, a + b, asRemoved)
  {
    if asRemoved {
      assert (st.pairs - a) - b == st.pairs - (a + b);
    } else {
      assert (st.pairs + a) + b == st.pairs + (a + b);
    }
  }

  /** A run of (signed) ids of one value adds, or removes, exactly the pairs of that value. */
  lemma {:induction false} RunIdsSaved<V(!new)>(st: Loaded<V>, v: V, signed: seq<int>, ids: seq<int>, asRemoved: bool)
    requires IsSigned(signed, ids, asRemoved)
    requires forall j :: 0 <= j < |ids| ==> (if asRemoved then ids[j] > 0 else ids[j] >= 0)
    ensures RunIds(st, v, signed) == Saved(st, PairsOf(v, ids), asRemoved)
    decreases |ids|
  {
    if |ids| == 0 {
      assert PairsOf(v, ids) == {};
    } else {
      assert IsSigned(signed[1..], ids[1..], asRemoved) by {
        forall j | 0 <= j < |ids| - 1
          ensures signed[1..][j] == (if asRemoved then -ids[1..][j] else ids[1..][j])
        {
          assert signed[j + 1] == (if asRemoved then -ids[j + 1] else ids[j + 1]);
        }
      }
      assert forall j :: 0 <= j < |ids| - 1 ==> ids[1..][j] == ids[j + 1];
      assert Apply(st, v, signed[0]) == Saved(st, {(v, ids[0])}, asRemoved);
      RunIdsSaved(Apply(st, v, signed[0]), v, signed[1..], ids[1..], asRemoved);
      SavedCompose(st, {(v, ids[0])}, PairsOf(v, ids[1..]), asRemoved);
      assert ids == [ids[0]] + ids[1..];
      assert {(v, ids[0])} + PairsOf(v, ids[1..]) == PairsOf(v, ids);
    }
  }

  /** The pairs of a single value, as the id iterator of that value sees them. */
  predicate OfValue<V(==,!new)>(v: V, pairs: set<(V, int)>) {
    forall q :: q in pairs ==> q.0 == v
  }

  lemma PairsOfSameIds<V(!new)>(v: V, written: seq<int>, pairs: set<(V, int)>)
    requires OfValue(v, pairs)
    requires forall j :: 0 <= j < |written| ==> (v, written[j]) in pairs
    requires forall q :: q in pairs ==> q.1 in written
    ensures PairsOf(v, written) == pairs
  {
    PairsOfMembers(v, written);
    forall q | q in pairs ensures q in PairsOf(v, written) {
      assert q == (v, q.1);
    }
  }

  /** Replaying a record [value, count, run of id tokens] completes one value's save. */
  lemma RecordReplays<V(!new)>(st: Loaded<V>, value: V, record: seq<Token<V>>, idToks: seq<Token<V>>,
                          signed: seq<int>, written: seq<int>, asRemoved: bool)
    requires record == [Val(value), Int(|written|)] + idToks
    requires IsIdTokens(idToks, signed) && IsSigned(signed, written, asRemoved)
    requires forall j :: 0 <= j < |written| ==> (if asRemoved then written[j] > 0 else written[j] >= 0)
    ensures Replay(st, record) == Ok(Saved(st, PairsOf(value, written), asRemoved))
  {
    assert record[2..] == idToks + [];
    ReplayIdsRun(st, value, idToks, signed, []);
    RunIdsSaved(st, value, signed, written, asRemoved);
  }

  /**
   * One iteration of saveImpl's value loop: the value, the number of its ids, then each id,
   * negated when saving removed data, in whatever order the id iterator yields them.
   */
  method SaveValue<V(==,!new)>(value: V, pairs: set<(V, int)>, asRemoved: bool) returns (record: seq<Token<V>>)
    requires OfValue(value, pairs)
    requires forall q :: q in pairs ==> (if asRemoved then q.1 > 0 else q.1 >= 0)
    ensures forall st :: Replay(st, record) == Ok(Saved(st, pairs, asRemoved))
  {
    var idToks, written, signed := WriteIds(value, pairs, asRemoved);
    record := [Val(value), Int(|pairs|)] + idToks;
    PairsOfSameIds(value, written, pairs);
    forall j | 0 <= j < |written| ensures (if asRemoved then written[j] > 0 else written[j] >= 0) {
      assert (value, written[j]) in pairs;
    }
    forall st: Loaded<V> ensures Replay(st, record) == Ok(Saved(st, pairs, asRemoved)) {
      RecordReplays(st, value, record, idToks, signed, written, asRemoved);
    }
  }

  /** The id run of one value: each id once, negated when saving removed data. */
  method WriteIds<V(==,!new)>(value: V, pairs: set<(V, int)>, asRemoved: bool)
    returns (idToks: seq<Token<V>>, ghost written: seq<int>, ghost signed: seq<int>)
    requires OfValue(value, pairs)
    ensures |written| == |pairs|
    ensures forall j :: 0 <= j < |written| ==> (value, written[j]) in pairs
    ensures forall q :: q in pairs ==> q.1 in written
    ensures IsIdTokens(idToks, signed) && IsSigned(signed, written, asRemoved)
  {
    var left := pairs;
    idToks := [];
    written := [];
    signed := [];
    while left != {}
      invariant left <= pairs
      invariant |written| + |left| == |pairs|
      invariant forall j :: 0 <= j < |written| ==> (value, written[j]) in pairs
      invariant forall q :: q in pairs ==> q in left || q.1 in written
      invariant IsIdTokens(idToks, signed) && IsSigned(signed, written, asRemoved)
      decreases |left|
    {
      var q :| q in left;
      var id := q.1;
      assert q == (value, id);
      var signedId := if asRemoved then -id else id;
      idToks := idToks + [Int(signedId)];
      written := written + [id];
      signed := signed + [signedId];
      left := left - {q};
    }
  }

  /**
   * ValueContainerExternalizer.saveImpl: writes one record per value of c. Whatever order the
   * values and ids come in, replaying the output adds (or removes) exactly the pairs of c.
   */
  method SaveImpl<V(==,!new)>(c: set<(V, int)>, asRemoved: bool) returns (out: seq<Token<V>>)
    requires forall p :: p in c ==> (if asRemoved then p.1 > 0 else p.1 >= 0)
    ensures forall st :: Replay(st, out) == Ok(Saved(st, c, asRemoved))
  {
    out := [];
    var rest := c;
    forall st: Loaded<V> ensures Replay(st, out) == Ok(Saved(st, c - rest, asRemoved)) {
      assert c - rest == {};
      assert Saved(st, {}, asRemoved) == st;
    }
    while rest != {}
      invariant rest <= c
      invariant forall st: Loaded<V> :: Replay(st, out) == Ok(Saved(st, c - rest, asRemoved))
      decreases |rest|
    {
      var p :| p in rest;
      var value := p.0;
      var valuePairs := set q | q in rest && q.0 == value;
      var record := SaveValue(value, valuePairs, asRemoved);
      forall st: Loaded<V>
        ensures Replay(st, out + record) == Ok(Saved(st, (c - rest) + valuePairs, asRemoved))
      {
        ReplayAppend(st, out, record);
        SavedCompose(st, c - rest, valuePairs, asRemoved);
      }
      assert (c - rest) + valuePairs == c - (rest - valuePairs);
      out := out + record;
      rest := rest - valuePairs;
    }
    assert c - rest == c;
  }

  /** The bytes appended for a dirty container: its removed pairs as removed data, then its added pairs. */
  method SaveDeltas<V(==,!new)>(removed: set<(V, int)>, added: set<(V, int)>) returns (bytes: seq<Token<V>>)
    requires IdsPositive(removed) && IdsPositive(added)
    ensures forall st :: Replay(st, bytes) == Ok(Saved(Saved(st, removed, true), added, false))
  {
    var toRemove: seq<Token<V>> := [];
    if removed != {} {
      toRemove := SaveImpl(removed, true);
    } else {
      forall st: Loaded<V> ensures Replay(st, toRemove) == Ok(Saved(st, removed, true)) {
        assert Saved(st, removed, true) == st;
      }
    }
    var toAppend: seq<Token<V>> := [];
    if added != {} {
      toAppend := SaveImpl(added, false);
    } else {
      forall st: Loaded<V> ensures Replay(st, toAppend) == Ok(Saved(st, added, false)) {
        assert Saved(st, added, false) == st;
      }
    }
    bytes := toRemove + toAppend;
    forall st: Loaded<V> ensures Replay(st, bytes) == Ok(Saved(Saved(st, removed, true), added, false)) {
      ReplayAppend(st, toRemove, toAppend);
    }
  }

  /** Failures met by the storage operations, as thrown inside them. */
  datatype Cause = NoCause | IOCause(message: string) | StorageCause(message: string) | OtherCause
  datatype Thrown = IOException(message: string) | RuntimeException(cause: Cause)

  /** What the public operations throw after translating a failure. */
  datatype Reported = StorageException(message: string) | Unchecked(cause: Cause)

  /**
   * The translation shared by close, clear, processKeys, read and remove: an I/O failure,
   * directly or as the cause of an unchecked exception, becomes a StorageException
   * carrying the cause's message token, which stands for the cause's toString; a StorageException
   * cause is rethrown; anything else propagates unchanged.
   */
  function ReportFailure(t: Thrown): (r: Reported)
    ensures r.StorageException? <==> (t.IOException? || t.cause.IOCause? || t.cause.StorageCause?)
    ensures r.StorageException? ==> r.message == (if t.IOException? then t.message else t.cause.message)
    ensures r.Unchecked? ==> t == RuntimeException(r.cause)
  {
    match t
    case IOException(m) => StorageException(m)
    case RuntimeException(cause) =>
      match cause
      case IOCause(m) => StorageException(m)
      case StorageCause(m) => StorageException(m)
      case _ => Unchecked(cause)
  }

  /**
   * ChangeTrackingValueContainer: the contents loaded from the persistent map, its
   * needs-compacting flag, and the pairs added and removed since.
   */
  datatype Tracked<V(==,!new)> = Tracked(initial: set<(V, int)>, compacting: bool, added: set<(V, int)>, removed: set<(V, int)>)
  {
    function Merged(): set<(V, int)> {
      (initial - removed) + added
    }

    predicate IsDirty() {
      added != {} || removed != {}
    }
  }

  function TrackAdd<V(==,!new)>(t: Tracked<V>, v: V, id: int): (r: Tracked<V>)
    ensures r.Merged() == t.Merged() + {(v, id)}
    ensures r.IsDirty()
    ensures r.initial == t.initial && r.compacting == t.compacting
  {
    t.(added := t.added + {(v, id)}, removed := t.removed - {(v, id)})
  }

  function TrackRemove<V(==,!new)>(t: Tracked<V>, v: V, id: int): (r: Tracked<V>)
    ensures r.Merged() == t.Merged() - {(v, id)}
    ensures r.IsDirty()
    ensures r.initial == t.initial && r.compacting == t.compacting
  {
    t.(added := t.added - {(v, id)}, removed := t.removed + {(v, id)})
  }

  class MapIndexStorage<K(==,!new), V(==,!new)> {
    /** The persistent hash map: the record stream stored under each key. */
    var persisted: map<K, seq<Token<V>>>
    /** The cache of change-tracking containers, keyed like the map. */
    var cache: map<K, Tracked<V>>
    var keyBeingRemoved: Option<K>
    var closed: bool

    function Persisted(k: K): seq<Token<V>>
      reads this
    {
      if k in persisted then persisted[k] else []
    }

    /** What a read of key k would give: the cached merged contents, or the decoded map entry. */
    function Stored(k: K): Result<set<(V, int)>, DecodeError>
      reads this
    {
      if k in cache then Ok(cache[k].Merged()) else Decode(Persisted(k))
    }

    /** Every cached container was loaded from the current map entry, and holds well-formed ids. */
    ghost predicate CacheConsistent()
      reads this
    {
      (forall k :: k in cache ==> Replay(Empty(), Persisted(k)) == Ok(Loaded(cache[k].initial, cache[k].compacting)))
      && (forall k :: k in cache ==> IdsNonNegative(cache[k].initial))
      && (forall k :: k in cache ==> IdsPositive(cache[k].added) && IdsPositive(cache[k].removed))
    }

    ghost predicate Valid()
      reads this
    {
      CacheConsistent() && keyBeingRemoved == None
    }

    /** Opens a storage over an existing map, with an empty cache. */
    constructor (existing: map<K, seq<Token<V>>>)
      ensures Valid() && !closed
      ensures persisted == existing && cache == map[]
      ensures forall k :: Stored(k) == Decode(if k in existing then existing[k] else [])
    {
      persisted := existing;
      cache := map[];
      keyBeingRemoved := None;
      closed := false;
    }

    /**
     * onDropFromCache: a clean container, or one whose key is being removed, is dropped
     * without writing; otherwise its deltas are appended to the map entry (removed pairs
     * first), or, when the container needs compacting, its merged contents replace the entry.
     */
    method OnDropFromCache(k: K)
      requires CacheConsistent() && k in cache
      modifies this
      ensures CacheConsistent()
      ensures cache == old(cache) - {k}
      ensures keyBeingRemoved == old(keyBeingRemoved) && closed == old(closed)
      ensures forall k' :: k' != k ==> Persisted(k') == old(Persisted(k'))
      ensures keyBeingRemoved != Some(k) ==> forall k' :: Stored(k') == old(Stored(k'))
      ensures keyBeingRemoved == Some(k) || !old(cache[k]).IsDirty() ==> persisted == old(persisted)
      ensures forall k' :: k' in persisted <==> k' in old(persisted) || (k' == k && keyBeingRemoved != Some(k) && old(cache[k]).IsDirty())
    {
      var t := cache[k];
      cache := cache - {k};
      if keyBeingRemoved == Some(k) || !t.IsDirty() {
        assert !t.IsDirty() ==> t.Merged() == t.initial;
        return;
      }
      var before := Persisted(k);
      if !t.compacting {
        var bytes := SaveDeltas(t.removed, t.added);
        ReplayAppend(Empty(), before, bytes);
        assert Saved(Saved(Loaded(t.initial, t.compacting), t.removed, true), t.added, false).pairs == t.Merged();
        persisted := persisted[k := before + bytes];
      } else {
        var bytes := SaveImpl(t.Merged(), false);
        assert Saved(Empty(), t.Merged(), false).pairs == t.Merged();
        persisted := persisted[k := bytes];
      }
    }

    /** The cache evicts entry k to stay within its size. */
    method Evict(k: K)
      requires Valid() && k in cache
      modifies this
      ensures Valid()
      ensures cache == old(cache) - {k} && closed == old(closed)
      ensures forall k' :: Stored(k') == old(Stored(k'))
    {
      OnDropFromCache(k);
    }

    /** myCache.clear(): every cached container is dropped, and written back when dirty. */
    method ClearCache()
      requires Valid()
      modifies this
      ensures Valid() && cache == map[] && closed == old(closed)
      ensures forall k :: Stored(k) == old(Stored(k))
      ensures forall k :: k in persisted <==> k in old(persisted) || (k in old(cache) && old(cache)[k].IsDirty())
    {
      while cache != map[]
        invariant Valid() && closed == old(closed)
        invariant forall k :: k in cache ==> k in old(cache) && cache[k] == old(cache)[k]
        invariant forall k :: Stored(k) == old(Stored(k))
        invariant forall k :: k in persisted <==> k in old(persisted) || (k in old(cache) && k !in cache && old(cache)[k].IsDirty())
        decreases |cache.Keys|
      {
        var k :| k in cache;
        OnDropFromCache(k);
      }
    }

    /** flush: when the map is open, writes every cached container back and empties the cache. */
    method Flush()
      requires Valid()
      modifies this
      ensures Valid() && closed == old(closed)
      ensures forall k :: Stored(k) == old(Stored(k))
      ensures !old(closed) ==> cache == map[]
      ensures old(closed) ==> cache == old(cache) && persisted == old(persisted)
    {
      if !closed {
        ClearCache();
      }
    }

    /** close: flushes, then closes the map. */
    method Close()
      requires Valid()
      modifies this
      ensures Valid() && closed
      ensures forall k :: Stored(k) == old(Stored(k))
      ensures !old(closed) ==> cache == map[]
    {
      Flush();
      closed := true;
    }

    /** clear: deletes the storage file and starts over with an empty map and a new cache. */
    method Clear()
      requires Valid()
      modifies this
      ensures Valid() && !closed && persisted == map[] && cache == map[]
      ensures forall k :: Stored(k) == Ok({})
    {
      persisted := map[];
      cache := map[];
      closed := false;
    }

    /**
     * processKeys: drops every cached container so that new keys reach the map, then
     * enumerates the map's keys; every key holding any pair is among them.
     */
    method ProcessKeys() returns (keys: set<K>)
      requires Valid()
      modifies this
      ensures Valid() && cache == map[] && closed == old(closed)
      ensures forall k :: Stored(k) == old(Stored(k))
      ensures keys == persisted.Keys
      ensures forall k :: k in keys <==> k in old(persisted) || (k in old(cache) && old(cache)[k].IsDirty())
      ensures forall k :: Stored(k).Ok? && Stored(k).value != {} ==> k in keys
    {
      ClearCache();
      keys := persisted.Keys;
    }

    /** read: the cached container of key k, loading it from the map on a miss. */
    method Read(k: K) returns (r: Result<set<(V, int)>, DecodeError>)
      requires Valid()
      modifies this
      ensures Valid() && persisted == old(persisted) && closed == old(closed)
      ensures r == old(Stored(k))
      ensures forall k' :: Stored(k') == old(Stored(k'))
      ensures r.Ok? <==> k in cache
      ensures forall k' :: k' != k ==> (k' in cache <==> k' in old(cache))
    {
      if k in cache {
        return Ok(cache[k].Merged());
      }
      var loaded := ReadContainer(Persisted(k));
      if loaded.Err? {
        return Err(loaded.error);
      }
      ReplayIdsNonNegative(Empty(), Persisted(k));
      var t := Tracked(loaded.value.pairs, loaded.value.compacting, {}, {});
      assert t.Merged() == loaded.value.pairs;
      cache := cache[k := t];
      r := Ok(loaded.value.pairs);
    }

    /** addValue: records that input inputId produces value under key k. */
    method AddValue(k: K, inputId: int, value: V) returns (err: Option<DecodeError>)
      requires Valid() && inputId > 0
      modifies this
      ensures Valid() && persisted == old(persisted) && closed == old(closed)
      ensures old(Stored(k)).Ok? ==> err == None && Stored(k) == Ok(old(Stored(k)).value + {(value, inputId)})
      ensures old(Stored(k)).Err? ==> err == Some(old(Stored(k)).error) && Stored(k) == old(Stored(k))
      ensures forall k' :: k' != k ==> Stored(k') == old(Stored(k'))
    {
      var r := Read(k);
      if r.Err? {
        return Some(r.error);
      }
      cache := cache[k := TrackAdd(cache[k], value, inputId)];
      return None;
    }

    /** removeValue: records that input inputId no longer produces value under key k. */
    method RemoveValue(k: K, inputId: int, value: V) returns (err: Option<DecodeError>)
      requires Valid() && inputId > 0
      modifies this
      ensures Valid() && persisted == old(persisted) && closed == old(closed)
      ensures old(Stored(k)).Ok? ==> err == None && Stored(k) == Ok(old(Stored(k)).value - {(value, inputId)})
      ensures old(Stored(k)).Err? ==> err == Some(old(Stored(k)).error) && Stored(k) == old(Stored(k))
      ensures forall k' :: k' != k ==> Stored(k') == old(Stored(k'))
    {
      var r := Read(k);
      if r.Err? {
        return Some(r.error);
      }
      cache := cache[k := TrackRemove(cache[k], value, inputId)];
      return None;
    }

    /**
     * remove: drops the cached container of k without writing it (the key is marked as
     * being removed meanwhile), then deletes the map entry; the mark is always cleared.
     */
    method Remove(k: K)
      requires Valid()
      modifies this
      ensures Valid() && closed == old(closed)
      ensures k !in cache && k !in persisted
      ensures Stored(k) == Ok({})
      ensures forall k' :: k' != k ==> Stored(k') == old(Stored(k'))
    {
      keyBeingRemoved := Some(k);
      if k in cache {
        OnDropFromCache(k);
      }
      persisted := persisted - {k};
      keyBeingRemoved := None;
      assert Persisted(k) == [];
    }
  }
}
