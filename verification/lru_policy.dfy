/** An independent reference for the eviction order of the chunk cache.

    The reference keeps, for every cached index, the logical time of its last
    access (a `get` or a `set`), and evicts the index with the oldest time. The
    lemmas here show that the recency-ordered sequence of `ChunkCache` is an
    implementation of that reference: the entry at its front, which `Put`
    evicts, is exactly the least recently accessed one. */
module LruPolicy {
  import opened Results
  import opened ChunkCache

  /** Cached chunks, the time each index was last accessed, and the clock. */
  datatype Lru = Lru(chunks: map<ChunkIndex, Chunk>, lastAccess: map<ChunkIndex, nat>, clock: nat)

  /** The reference state before any access. */
  function Initial(): Lru
  {
    Lru(map[], map[], 0)
  }

  /** An access to `i` that leaves `chunk` cached under it. */
  function Access(a: Lru, i: ChunkIndex, chunk: Chunk): (a': Lru)
    ensures a'.chunks == a.chunks[i := chunk]
    ensures a'.clock == a.clock + 1
    ensures i in a'.lastAccess && a'.lastAccess[i] == a.clock
  {
    Lru(a.chunks[i := chunk], a.lastAccess[i := a.clock], a.clock + 1)
  }

  /** Dropping `i` from the cache. */
  function Forget(a: Lru, i: ChunkIndex): Lru
  {
    Lru(a.chunks - {i}, a.lastAccess - {i}, a.clock)
  }

  /** `i` is cached and was accessed strictly before every other cached index. */
  predicate LeastRecentlyAccessed(a: Lru, i: ChunkIndex)
  {
    && i in a.lastAccess
    && forall j :: j in a.lastAccess && j != i ==> a.lastAccess[i] < a.lastAccess[j]
  }

  /** The recency-ordered entries `es` represent the reference state `a`: the
      same indices with the same chunks, and access times strictly increasing
      from front to back. */
  predicate Abstracts(es: seq<Entry>, a: Lru)
  {
    && a.chunks.Keys == Keys(es)
    && a.lastAccess.Keys == Keys(es)
    && (forall p :: 0 <= p < |es| ==>
          a.chunks[es[p].index] == es[p].chunk && a.lastAccess[es[p].index] < a.clock)
    && (forall p, q :: 0 <= p < q < |es| ==> a.lastAccess[es[p].index] < a.lastAccess[es[q].index])
  }

  /** The reference contents are the cache's key-value view. */
  lemma AbstractsView(es: seq<Entry>, a: Lru)
    requires Distinct(es) && Abstracts(es, a)
    ensures View(es) == a.chunks
  {
    ViewExtensional(es, a.chunks);
  }

  lemma InitialAbstractsEmpty()
    ensures Abstracts(Empty().entries, Initial())
  {
  }

  /** Removing the entry at `k` corresponds to forgetting its index. */
  lemma AbstractsWithout(es: seq<Entry>, a: Lru, k: nat)
    requires Distinct(es) && Abstracts(es, a) && k < |es|
    ensures Abstracts(Without(es, k), Forget(a, es[k].index))
  {
    var w := Without(es, k);
    var f := Forget(a, es[k].index);
    KeysWithout(es, k);
    forall p | 0 <= p < |w|
      ensures f.chunks[w[p].index] == w[p].chunk && f.lastAccess[w[p].index] < f.clock
    {
      var p' := if p < k then p else p + 1;
      assert w[p] == es[p'];
    }
    forall p, q | 0 <= p < q < |w|
      ensures f.lastAccess[w[p].index] < f.lastAccess[w[q].index]
    {
      var p' := if p < k then p else p + 1;
      var q' := if q < k then q else q + 1;
      assert w[p] == es[p'] && w[q] == es[q'];
    }
  }

  /** Appending an entry for an uncached index corresponds to accessing it now. */
  lemma AbstractsAppend(es: seq<Entry>, a: Lru, e: Entry)
    requires Distinct(es) && Abstracts(es, a) && e.index !in Keys(es)
    ensures Abstracts(es + [e], Access(a, e.index, e.chunk))
  {
    var n := es + [e];
    var a' := Access(a, e.index, e.chunk);
    KeysAppend(es, e);
    assert forall p :: 0 <= p < |es| ==> n[p] == es[p] && es[p].index != e.index;
    assert n[|es|] == e;
  }

  /** The front of the recency order is the least recently accessed index. */
  lemma FrontIsLeastRecent(es: seq<Entry>, a: Lru)
    requires Distinct(es) && Abstracts(es, a) && es != []
    ensures LeastRecentlyAccessed(a, es[0].index)
  {
    forall j | j in a.lastAccess && j != es[0].index
      ensures a.lastAccess[es[0].index] < a.lastAccess[j]
    {
      assert j in Keys(es);
      var q :| 0 <= q < |es| && es[q].index == j;
    }
  }

  /** Replacing the entry at `k` by `e` for the same index is an access to it. */
  lemma ReplaceFollowsLru(es: seq<Entry>, a: Lru, k: nat, e: Entry)
    requires Distinct(es) && Abstracts(es, a) && k < |es| && es[k].index == e.index
    ensures e.index in a.chunks && a.chunks[e.index] == es[k].chunk
    ensures Abstracts(Without(es, k) + [e], Access(a, e.index, e.chunk))
  {
    assert es[k].index in Keys(es);
    AbstractsWithout(es, a, k);
    KeysWithout(es, k);
    AbstractsAppend(Without(es, k), Forget(a, e.index), e);
    AccessAfterForget(a, e.index, e.chunk);
  }

  /** Accessing an index overrides whatever was recorded for it. */
  lemma AccessAfterForget(a: Lru, i: ChunkIndex, chunk: Chunk)
    ensures Access(Forget(a, i), i, chunk) == Access(a, i, chunk)
  {
    assert (a.chunks - {i})[i := chunk] == a.chunks[i := chunk];
    assert (a.lastAccess - {i})[i := a.clock] == a.lastAccess[i := a.clock];
  }

  /** Dropping the front entry and appending `e` for an uncached index is the
      eviction of the least recently accessed index followed by an access to `e.index`. */
  lemma EvictFollowsLru(es: seq<Entry>, a: Lru, e: Entry)
    requires Distinct(es) && Abstracts(es, a) && es != [] && e.index !in Keys(es)
    ensures es[0].index != e.index
    ensures LeastRecentlyAccessed(a, es[0].index)
    ensures a.chunks[es[0].index] == es[0].chunk
    ensures Abstracts(es[1..] + [e], Access(Forget(a, es[0].index), e.index, e.chunk))
  {
    FrontIsLeastRecent(es, a);
    AbstractsWithout(es, a, 0);
    KeysWithout(es, 0);
    assert Without(es, 0) == es[1..];
    AbstractsAppend(es[1..], Forget(a, es[0].index), e);
  }

  /** A `put` of `e` behaves as the reference policy: an access to `e.index`,
      preceded, when a new index meets a full cache, by the eviction and write-back
      of the least recently accessed index. */
  lemma PutFollowsLru(env: Collaborators, c: Cache, a: Lru, e: Entry)
    requires Valid(c) && Abstracts(c.entries, a)
    ensures var r := Put(env, c, e);
            if e.index in a.chunks || |a.chunks| < MAX_CACHED_CLEARTEXT_CHUNKS then
              && Abstracts(r.cache.entries, Access(a, e.index, e.chunk))
              && Saves(r.effects) == (if e.index in a.chunks then [Entry(e.index, a.chunks[e.index])] else [])
            else
              var victim := c.entries[0].index;
              && victim != e.index
              && LeastRecentlyAccessed(a, victim)
              && Saves(r.effects) == [Entry(victim, a.chunks[victim])]
              && Abstracts(r.cache.entries, Access(Forget(a, victim), e.index, e.chunk))
  {
    var es := c.entries;
    KeysCount(es);
    AbstractsView(es, a);
    var k := Find(es, e.index);
    if k < |es| {
      ReplaceFollowsLru(es, a, k, e);
    } else if |es| < MAX_CACHED_CLEARTEXT_CHUNKS {
      AbstractsAppend(es, a, e);
    } else {
      EvictFollowsLru(es, a, e);
    }
  }

  /** A `get` behaves as the reference policy: a hit is an access to the
      resident chunk; a failed miss changes nothing. A successful miss is a
      `put` of the loaded chunk, covered by `PutFollowsLru`. */
  lemma GetFollowsLru(env: Collaborators, c: Cache, a: Lru, i: ChunkIndex)
    requires Valid(c) && Abstracts(c.entries, a)
    ensures var r := Get(env, c, i);
            && (i in a.chunks ==>
                  r.result == Ok(a.chunks[i]) && Abstracts(r.cache.entries, Access(a, i, a.chunks[i])))
            && (r.result.Err? ==> Abstracts(r.cache.entries, a))
  {
    var es := c.entries;
    AbstractsView(es, a);
    var k := Find(es, i);
    if k < |es| {
      ReplaceFollowsLru(es, a, k, es[k]);
    }
  }
}
