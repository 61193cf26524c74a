/** The per-open-file cache of decrypted chunks (ChunkCache.java).

    The Guava cache behind the Java class is modelled as a sequence of entries
    ordered by recency of access: the least recently accessed entry comes first
    and the most recently accessed one last. `get` and `set` both count as an
    access. The loader, the saver and the buffer pool are collaborators whose
    calls show up in an effect log that every operation returns alongside the
    new cache, together with the two statistics counters the cache bumps. */
module ChunkCache {
  import opened Results

  /** The bound handed to the cache builder (`maximumSize`). */
  const MAX_CACHED_CLEARTEXT_CHUNKS: nat := 5

  /** A chunk index; Java's `long`, never computed with here, so its width does not matter. */
  type ChunkIndex = int

  /** Identity of a cleartext buffer obtained from, and returned to, the buffer pool. */
  type Buffer = nat

  /** A decrypted chunk; all the cache ever looks at is its buffer (`data()`). */
  datatype Chunk = Chunk(data: Buffer)

  /** One resident chunk and the index it is cached under. */
  datatype Entry = Entry(index: ChunkIndex, chunk: Chunk)

  /** What `ChunkLoader.load` does for an index: return a chunk, throw an
      `IOException`, or throw cryptolib's `AuthenticationFailedException`. */
  datatype LoadOutcome = Loaded(chunk: Chunk) | LoadFailed(reason: string) | AuthenticationFailed

  /** What `ChunkSaver.save` does for an entry: return, or throw an `IOException`. */
  datatype SaveOutcome = Saved | SaveFailed(reason: string)

  /** The loader and the saver as oracles. `BufferPool.recycle` never fails and
      is only recorded in the log. */
  datatype Collaborators = Collaborators(
    load: ChunkIndex -> LoadOutcome,
    save: (ChunkIndex, Chunk) -> SaveOutcome)

  /** The `IOException` that `get` throws: the loader's own, or the one wrapping
      an authentication failure of the chunk at `index`. */
  datatype ChunkReadException = StorageFailure(reason: string) | UnauthenticCiphertext(index: ChunkIndex)

  /** Observable effects of a cache operation, in the order they happen. */
  datatype Effect =
    | CacheAccess                                        // stats.addChunkCacheAccess()
    | CacheMiss                                          // stats.addChunkCacheMiss()
    | Load(index: ChunkIndex)                            // chunkLoader.load(index)
    | Save(entry: Entry)                                 // chunkSaver.save(index, chunk)
    | Recycle(buffer: Buffer)                            // bufferPool.recycle(buffer)
    | UncheckedSaveFailure(index: ChunkIndex, reason: string) // the removal listener throws UncheckedIOException

  /** Cache contents, least recently accessed first. */
  datatype Cache = Cache(entries: seq<Entry>)

  /** The outcome of `set` or `invalidateAll`. */
  datatype Update = Update(cache: Cache, effects: seq<Effect>)

  /** The outcome of `get`: the new cache, the effects, and the returned chunk or thrown exception. */
  datatype Fetch = Fetch(cache: Cache, effects: seq<Effect>, result: Result<Chunk, ChunkReadException>)

  /** No index is cached twice. */
  predicate Distinct(es: seq<Entry>)
  {
    forall p, q :: 0 <= p < q < |es| ==> es[p].index != es[q].index
  }

  /** The cache invariant: bounded by the capacity, one entry per index. */
  predicate Valid(c: Cache)
  {
    |c.entries| <= MAX_CACHED_CLEARTEXT_CHUNKS && Distinct(c.entries)
  }

  /** The empty cache a freshly opened file starts with. */
  function Empty(): (c: Cache)
    ensures Valid(c) && View(c.entries) == map[]
  {
    Cache([])
  }

  /** The indices that have an entry. */
  function Keys(es: seq<Entry>): set<ChunkIndex>
  {
    set p | 0 <= p < |es| :: es[p].index
  }

  /** Position of the first entry for `i`, or `|es|` when there is none. */
  function Find(es: seq<Entry>, i: ChunkIndex): (k: nat)
    ensures k <= |es|
    ensures k < |es| ==> es[k].index == i
    ensures forall j :: 0 <= j < k ==> es[j].index != i
    ensures k < |es| <==> i in Keys(es)
  {
    if es == [] then 0
    else if es[0].index == i then 0
    else
      var k := 1 + Find(es[1..], i);
      assert forall j :: 1 <= j < k ==> es[j] == es[1..][j - 1];
      k
  }

  /** The cache as the key-value map Guava exposes (`asMap()`). */
  function View(es: seq<Entry>): map<ChunkIndex, Chunk>
  {
    map i | i in Keys(es) :: es[Find(es, i)].chunk
  }

  function Last(es: seq<Entry>): Entry
    requires es != []
  {
    es[|es| - 1]
  }

  /** The entries with the one at position `k` taken out, the others keeping their order. */
  function Without(es: seq<Entry>, k: nat): (w: seq<Entry>)
    requires k < |es|
    ensures |w| == |es| - 1
    ensures forall p :: 0 <= p < k ==> w[p] == es[p]
    ensures forall p :: k <= p < |w| ==> w[p] == es[p + 1]
  {
    es[..k] + es[k + 1..]
  }

  lemma ViewAt(es: seq<Entry>, p: int)
    requires Distinct(es) && 0 <= p < |es|
    ensures Find(es, es[p].index) == p
    ensures es[p].index in View(es) && View(es)[es[p].index] == es[p].chunk
  {
  }

  /** A map equals the view when they agree at every position. */
  lemma ViewExtensional(es: seq<Entry>, m: map<ChunkIndex, Chunk>)
    requires Distinct(es)
    requires m.Keys == Keys(es)
    requires forall p :: 0 <= p < |es| ==> es[p].index in m && m[es[p].index] == es[p].chunk
    ensures View(es) == m
  {
    forall i | i in Keys(es)
      ensures View(es)[i] == m[i]
    {
      ViewAt(es, Find(es, i));
    }
  }

  lemma KeysAppend(es: seq<Entry>, e: Entry)
    requires Distinct(es) && e.index !in Keys(es)
    ensures Distinct(es + [e])
    ensures Keys(es + [e]) == Keys(es) + {e.index}
  {
    var n := es + [e];
    assert forall p :: 0 <= p < |es| ==> n[p] == es[p];
    assert n[|es|] == e;
  }

  lemma KeysWithout(es: seq<Entry>, k: nat)
    requires Distinct(es) && k < |es|
    ensures Distinct(Without(es, k))
    ensures Keys(Without(es, k)) == Keys(es) - {es[k].index}
  {
    var w := Without(es, k);
    forall i | i in Keys(es) - {es[k].index}
      ensures i in Keys(w)
    {
      var p :| 0 <= p < |es| && es[p].index == i;
      if p < k {
        assert w[p].index == i;
      } else {
        assert w[p - 1].index == i;
      }
    }
  }

  /** Appending an entry for an index that is not cached adds exactly that key. */
  lemma ViewAppend(es: seq<Entry>, e: Entry)
    requires Distinct(es) && e.index !in Keys(es)
    ensures Distinct(es + [e])
    ensures View(es + [e]) == View(es)[e.index := e.chunk]
  {
    var n := es + [e];
    var m := View(es)[e.index := e.chunk];
    KeysAppend(es, e);
    forall p | 0 <= p < |n|
      ensures n[p].index in m && m[n[p].index] == n[p].chunk
    {
      if p < |es| {
        ViewAt(es, p);
      }
    }
    ViewExtensional(n, m);
  }

  /** Taking out the entry at `k` removes exactly its key. */
  lemma ViewWithout(es: seq<Entry>, k: nat)
    requires Distinct(es) && k < |es|
    ensures Distinct(Without(es, k))
    ensures Keys(Without(es, k)) == Keys(es) - {es[k].index}
    ensures View(Without(es, k)) == View(es) - {es[k].index}
  {
    var w := Without(es, k);
    KeysWithout(es, k);
    var m := View(es) - {es[k].index};
    forall p | 0 <= p < |w|
      ensures w[p].index in m && m[w[p].index] == w[p].chunk
    {
      if p < k {
        ViewAt(es, p);
      } else {
        ViewAt(es, p + 1);
      }
    }
    ViewExtensional(w, m);
  }

  /** Taking out the entry at `k` and appending `e` for the same or an uncached
      index removes the old key and installs `e`; nothing else changes. */
  lemma ViewRemoveAppend(es: seq<Entry>, k: nat, e: Entry)
    requires Distinct(es) && k < |es|
    requires e.index == es[k].index || e.index !in Keys(es)
    ensures Distinct(Without(es, k) + [e])
    ensures View(Without(es, k) + [e]) == (View(es) - {es[k].index})[e.index := e.chunk]
  {
    ViewWithout(es, k);
    ViewAppend(Without(es, k), e);
  }

  /** With one entry per index, there are as many cached indices as entries. */
  lemma {:induction false} KeysCount(es: seq<Entry>)
    requires Distinct(es)
    ensures |Keys(es)| == |es|
  {
    if es != [] {
      var n := |es| - 1;
      var init := es[..n];
      assert forall p :: 0 <= p < n ==> init[p] == es[p];
      KeysCount(init);
      assert Keys(es) == Keys(init) + {es[n].index} by {
        forall i | i in Keys(es)
          ensures i in Keys(init) + {es[n].index}
        {
          var p :| 0 <= p < |es| && es[p].index == i;
          if p < n {
            assert init[p].index == i;
          }
        }
      }
    }
  }

  // ---------------------------------------------------------------------------
  // Effect-log projections

  /** The effects picked out by `select`, each mapped to what it carries, in order. */
  function Collect<T>(log: seq<Effect>, select: Effect -> seq<T>): seq<T>
  {
    if log == [] then [] else select(log[0]) + Collect(log[1..], select)
  }

  function LoadOf(x: Effect): seq<ChunkIndex> { if x.Load? then [x.index] else [] }
  function SaveOf(x: Effect): seq<Entry> { if x.Save? then [x.entry] else [] }
  function RecycleOf(x: Effect): seq<Buffer> { if x.Recycle? then [x.buffer] else [] }
  function EscalationOf(x: Effect): seq<ChunkIndex> { if x.UncheckedSaveFailure? then [x.index] else [] }

  /** The indices handed to the loader, in order. */
  function Loads(log: seq<Effect>): seq<ChunkIndex> { Collect(log, LoadOf) }

  /** The entries handed to the saver, in order. */
  function Saves(log: seq<Effect>): seq<Entry> { Collect(log, SaveOf) }

  /** The buffers returned to the pool, in order. */
  function Recycles(log: seq<Effect>): seq<Buffer> { Collect(log, RecycleOf) }

  /** The indices whose write-back failed and was escalated unchecked, in order. */
  function Escalations(log: seq<Effect>): seq<ChunkIndex> { Collect(log, EscalationOf) }

  lemma {:induction false} CollectConcat<T>(a: seq<Effect>, b: seq<Effect>, select: Effect -> seq<T>)
    ensures Collect(a + b, select) == Collect(a, select) + Collect(b, select)
  {
    if a == [] {
      assert a + b == b;
    } else {
      assert (a + b)[0] == a[0];
      assert (a + b)[1..] == a[1..] + b;
      CollectConcat(a[1..], b, select);
    }
  }

  lemma CollectOne<T>(x: Effect, select: Effect -> seq<T>)
    ensures Collect([x], select) == select(x)
  {
    assert [x][1..] == [];
  }

  lemma ProjectionsOfConcat(a: seq<Effect>, b: seq<Effect>)
    ensures Loads(a + b) == Loads(a) + Loads(b)
    ensures Saves(a + b) == Saves(a) + Saves(b)
    ensures Recycles(a + b) == Recycles(a) + Recycles(b)
    ensures Escalations(a + b) == Escalations(a) + Escalations(b)
  {
    CollectConcat(a, b, LoadOf);
    CollectConcat(a, b, SaveOf);
    CollectConcat(a, b, RecycleOf);
    CollectConcat(a, b, EscalationOf);
  }

  /** The projections of a two-effect log. */
  lemma ProjectionsOfPair(x: Effect, y: Effect)
    ensures Loads([x, y]) == LoadOf(x) + LoadOf(y)
    ensures Saves([x, y]) == SaveOf(x) + SaveOf(y)
    ensures Recycles([x, y]) == RecycleOf(x) + RecycleOf(y)
    ensures Escalations([x, y]) == EscalationOf(x) + EscalationOf(y)
  {
    assert [x, y] == [x] + [y];
    ProjectionsOfConcat([x], [y]);
    CollectOne(x, LoadOf); CollectOne(y, LoadOf);
    CollectOne(x, SaveOf); CollectOne(y, SaveOf);
    CollectOne(x, RecycleOf); CollectOne(y, RecycleOf);
    CollectOne(x, EscalationOf); CollectOne(y, EscalationOf);
  }

  /** Every recycle immediately follows the save of the chunk owning that buffer. */
  predicate SaveBeforeRecycle(log: seq<Effect>)
  {
    forall p :: 0 <= p < |log| && log[p].Recycle? ==>
      0 < p && log[p - 1].Save? && log[p - 1].entry.chunk.data == log[p].buffer
  }

  lemma SaveBeforeRecycleConcat(a: seq<Effect>, b: seq<Effect>)
    requires SaveBeforeRecycle(a) && SaveBeforeRecycle(b)
    ensures SaveBeforeRecycle(a + b)
  {
    var n := a + b;
    forall p | 0 <= p < |n| && n[p].Recycle?
      ensures 0 < p && n[p - 1].Save? && n[p - 1].entry.chunk.data == n[p].buffer
    {
      if p < |a| {
        assert n[p] == a[p] && n[p - 1] == a[p - 1];
      } else {
        assert n[p] == b[p - |a|];
        assert n[p - 1] == b[p - 1 - |a|];
      }
    }
  }

  // ---------------------------------------------------------------------------
  // Removal: save, then recycle

  /** The buffers the pool gets back when `removed` are taken out: those whose save succeeded. */
  function Reclaimed(env: Collaborators, removed: seq<Entry>): seq<Buffer>
  {
    if removed == [] then []
    else
      (if env.save(removed[0].index, removed[0].chunk).Saved? then [removed[0].chunk.data] else [])
      + Reclaimed(env, removed[1..])
  }

  /** The indices whose write-back fails when `removed` are taken out. */
  function Unsaved(env: Collaborators, removed: seq<Entry>): seq<ChunkIndex>
  {
    if removed == [] then []
    else
      (if env.save(removed[0].index, removed[0].chunk).SaveFailed? then [removed[0].index] else [])
      + Unsaved(env, removed[1..])
  }

  /** `log` is the write-back of exactly the entries `removed`, in that order:
      each is saved once, its buffer recycled after the save if and only if the
      save succeeded, and a failed save escalated; nothing is loaded and no
      statistic is touched. */
  predicate WritesBack(env: Collaborators, log: seq<Effect>, removed: seq<Entry>)
  {
    && Saves(log) == removed
    && Recycles(log) == Reclaimed(env, removed)
    && Escalations(log) == Unsaved(env, removed)
    && Loads(log) == []
    && multiset(log)[CacheAccess] == 0
    && multiset(log)[CacheMiss] == 0
    && SaveBeforeRecycle(log)
  }

  lemma WritesBackConcat(env: Collaborators, a: seq<Effect>, ra: seq<Entry>, b: seq<Effect>, rb: seq<Entry>)
    requires WritesBack(env, a, ra) && WritesBack(env, b, rb)
    requires |ra| == 1
    ensures WritesBack(env, a + b, ra + rb)
  {
    ProjectionsOfConcat(a, b);
    SaveBeforeRecycleConcat(a, b);
    assert ra[1..] == [];
    assert (ra + rb)[0] == ra[0] && (ra + rb)[1..] == rb;
    assert Reclaimed(env, ra + rb) == Reclaimed(env, ra) + Reclaimed(env, rb);
    assert Unsaved(env, ra + rb) == Unsaved(env, ra) + Unsaved(env, rb);
    assert multiset(a + b) == multiset(a) + multiset(b);
  }

  /** The removal listener: save the evicted chunk under its index, then hand its
      buffer back to the pool; a failed save skips the recycle and is rethrown
      unchecked. */
  function RemoveChunk(env: Collaborators, e: Entry): (log: seq<Effect>)
    ensures WritesBack(env, log, [e])
  {
    assert [e][1..] == [];
    var second := match env.save(e.index, e.chunk)
      case Saved => Recycle(e.chunk.data)
      case SaveFailed(reason) => UncheckedSaveFailure(e.index, reason);
    ProjectionsOfPair(Save(e), second);
    [Save(e), second]
  }

  /** Removal of every entry in `es`, one after the other. */
  function Flush(env: Collaborators, es: seq<Entry>): (log: seq<Effect>)
    ensures WritesBack(env, log, es)
  {
    if es == [] then []
    else
      var head := RemoveChunk(env, es[0]);
      var rest := Flush(env, es[1..]);
      WritesBackConcat(env, head, [es[0]], rest, es[1..]);
      assert [es[0]] + es[1..] == es;
      head + rest
  }

  // ---------------------------------------------------------------------------
  // Operations

  /** Guava's `put`: an existing entry for the index is replaced (and goes
      through the removal listener); otherwise the entry is added and, when
      that would exceed the bound, the least recently accessed entry is evicted.
      Either way the new entry becomes the most recently accessed one. */
  function Put(env: Collaborators, c: Cache, e: Entry): (r: Update)
    requires Valid(c)
    ensures Valid(r.cache)
    ensures r.cache.entries != [] && Last(r.cache.entries) == e
    ensures e.index in View(c.entries) ==>
              && View(r.cache.entries) == View(c.entries)[e.index := e.chunk]
              && WritesBack(env, r.effects, [Entry(e.index, View(c.entries)[e.index])])
    ensures e.index !in View(c.entries) && |c.entries| < MAX_CACHED_CLEARTEXT_CHUNKS ==>
              && View(r.cache.entries) == View(c.entries)[e.index := e.chunk]
              && r.effects == []
    ensures e.index !in View(c.entries) && |c.entries| == MAX_CACHED_CLEARTEXT_CHUNKS ==>
              && View(r.cache.entries) == (View(c.entries) - {c.entries[0].index})[e.index := e.chunk]
              && WritesBack(env, r.effects, [c.entries[0]])
    ensures Loads(r.effects) == []
    ensures multiset(r.effects)[CacheAccess] == 0 && multiset(r.effects)[CacheMiss] == 0
  {
    var es := c.entries;
    var k := Find(es, e.index);
    if k < |es| then
      ReplaceKeepsValid(es, k, e);
      Update(Cache(Without(es, k) + [e]), RemoveChunk(env, es[k]))
    else if |es| < MAX_CACHED_CLEARTEXT_CHUNKS then
      ViewAppend(es, e);
      Update(Cache(es + [e]), [])
    else
      EvictKeepsValid(es, e);
      Update(Cache(es[1..] + [e]), RemoveChunk(env, es[0]))
  }

  lemma ReplaceKeepsValid(es: seq<Entry>, k: nat, e: Entry)
    requires Valid(Cache(es)) && k < |es| && es[k].index == e.index
    ensures Valid(Cache(Without(es, k) + [e]))
    ensures e.index in View(es) && es[k] == Entry(e.index, View(es)[e.index])
    ensures View(Without(es, k) + [e]) == View(es)[e.index := e.chunk]
  {
    ViewRemoveAppend(es, k, e);
    ViewAt(es, k);
  }

  lemma EvictKeepsValid(es: seq<Entry>, e: Entry)
    requires Valid(Cache(es)) && |es| == MAX_CACHED_CLEARTEXT_CHUNKS && e.index !in Keys(es)
    ensures Valid(Cache(es[1..] + [e]))
    ensures View(es[1..] + [e]) == (View(es) - {es[0].index})[e.index := e.chunk]
  {
    ViewRemoveAppend(es, 0, e);
    assert Without(es, 0) == es[1..];
  }

  /** `loadChunk`: count the miss, call the loader, and wrap an authentication
      failure into an `IOException` naming the chunk. */
  function LoadChunk(env: Collaborators, i: ChunkIndex): (r: (seq<Effect>, Result<Chunk, ChunkReadException>))
    ensures r.0 == [CacheMiss, Load(i)]
    ensures r.1.Ok? <==> env.load(i).Loaded?
    ensures env.load(i).Loaded? ==> r.1.value == env.load(i).chunk
    ensures env.load(i).AuthenticationFailed? ==> r.1 == Err(UnauthenticCiphertext(i))
    ensures env.load(i).LoadFailed? ==> r.1 == Err(StorageFailure(env.load(i).reason))
  {
    var result := match env.load(i)
      case Loaded(chunk) => Ok(chunk)
      case LoadFailed(reason) => Err(StorageFailure(reason))
      case AuthenticationFailed => Err(UnauthenticCiphertext(i));
    ([CacheMiss, Load(i)], result)
  }

  /** `get`: count the access; on a hit return the resident chunk, on a miss
      load it and install it, or throw the load's `IOException` and install nothing. */
  function Get(env: Collaborators, c: Cache, i: ChunkIndex): (r: Fetch)
    requires Valid(c)
    ensures Valid(r.cache)
    ensures multiset(r.effects)[CacheAccess] == 1
    ensures multiset(r.effects)[CacheMiss] == if i in View(c.entries) then 0 else 1
    ensures Loads(r.effects) == if i in View(c.entries) then [] else [i]
    ensures i in View(c.entries) ==>
              && r.result == Ok(View(c.entries)[i])
              && r.effects == [CacheAccess]
              && View(r.cache.entries) == View(c.entries)
    ensures i !in View(c.entries) ==> (r.result.Ok? <==> env.load(i).Loaded?)
    ensures i !in View(c.entries) && env.load(i).Loaded? ==>
              var u := Put(env, c, Entry(i, env.load(i).chunk));
              && r.result == Ok(env.load(i).chunk)
              && r.cache == u.cache
              && r.effects == [CacheAccess, CacheMiss, Load(i)] + u.effects
    ensures i !in View(c.entries) && env.load(i).AuthenticationFailed? ==>
              r.result == Err(UnauthenticCiphertext(i))
    ensures i !in View(c.entries) && env.load(i).LoadFailed? ==>
              r.result == Err(StorageFailure(env.load(i).reason))
    ensures r.result.Err? ==> r.cache == c && r.effects == [CacheAccess, CacheMiss, Load(i)]
    ensures r.result.Ok? ==> r.cache.entries != [] && Last(r.cache.entries) == Entry(i, r.result.value)
  {
    var k := Find(c.entries, i);
    if k < |c.entries| then Hit(c, k) else Miss(env, c, i)
  }

  /** A `get` that finds the entry at position `k`. */
  function Hit(c: Cache, k: nat): (r: Fetch)
    requires Valid(c) && k < |c.entries|
    ensures Valid(r.cache)
    ensures r.effects == [CacheAccess] && Loads(r.effects) == []
    ensures r.result == Ok(View(c.entries)[c.entries[k].index])
    ensures View(r.cache.entries) == View(c.entries)
    ensures r.cache.entries != [] && Last(r.cache.entries) == Entry(c.entries[k].index, r.result.value)
  {
    var es := c.entries;
    TouchKeepsView(es, k);
    CollectOne(CacheAccess, LoadOf);
    Fetch(Cache(Without(es, k) + [es[k]]), [CacheAccess], Ok(es[k].chunk))
  }

  /** A `get` for an index that has no entry. */
  function Miss(env: Collaborators, c: Cache, i: ChunkIndex): (r: Fetch)
    requires Valid(c) && i !in View(c.entries)
    ensures Valid(r.cache)
    ensures multiset(r.effects)[CacheAccess] == 1 && multiset(r.effects)[CacheMiss] == 1
    ensures Loads(r.effects) == [i]
    ensures r.result.Ok? <==> env.load(i).Loaded?
    ensures env.load(i).Loaded? ==>
              var u := Put(env, c, Entry(i, env.load(i).chunk));
              && r.result == Ok(env.load(i).chunk)
              && r.cache == u.cache
              && r.effects == [CacheAccess, CacheMiss, Load(i)] + u.effects
    ensures env.load(i).AuthenticationFailed? ==> r.result == Err(UnauthenticCiphertext(i))
    ensures env.load(i).LoadFailed? ==> r.result == Err(StorageFailure(env.load(i).reason))
    ensures r.result.Err? ==> r.cache == c && r.effects == [CacheAccess, CacheMiss, Load(i)]
    ensures r.result.Ok? ==> r.cache.entries != [] && Last(r.cache.entries) == Entry(i, r.result.value)
  {
    var (missed, loaded) := LoadChunk(env, i);
    var probe := [CacheAccess] + missed;
    assert probe == [CacheAccess, CacheMiss, Load(i)];
    match loaded
    case Ok(chunk) =>
      var u := Put(env, c, Entry(i, chunk));
      MissLog(i, u.effects);
      Fetch(u.cache, probe + u.effects, Ok(chunk))
    case Err(e) =>
      MissLog(i, []);
      assert [CacheAccess, CacheMiss, Load(i)] + [] == [CacheAccess, CacheMiss, Load(i)];
      Fetch(c, probe, Err(e))
  }

  /** Moving the entry at `k` to the most recent end changes no key or value. */
  lemma TouchKeepsView(es: seq<Entry>, k: nat)
    requires Valid(Cache(es)) && k < |es|
    ensures Valid(Cache(Without(es, k) + [es[k]]))
    ensures es[k].index in View(es) && es[k].chunk == View(es)[es[k].index]
    ensures View(Without(es, k) + [es[k]]) == View(es)
  {
    ViewRemoveAppend(es, k, es[k]);
    ViewAt(es, k);
    assert (View(es) - {es[k].index})[es[k].index := es[k].chunk] == View(es);
  }

  /** The log of a miss: one access, one miss and one load, then a write-back tail. */
  lemma MissLog(i: ChunkIndex, rest: seq<Effect>)
    requires Loads(rest) == [] && multiset(rest)[CacheAccess] == 0 && multiset(rest)[CacheMiss] == 0
    ensures var log := [CacheAccess, CacheMiss, Load(i)] + rest;
      && multiset(log)[CacheAccess] == 1
      && multiset(log)[CacheMiss] == 1
      && Loads(log) == [i]
  {
    var probe := [CacheAccess, CacheMiss, Load(i)];
    assert Loads(probe) == [i] by {
      assert probe == [CacheAccess] + [CacheMiss, Load(i)];
      CollectConcat([CacheAccess], [CacheMiss, Load(i)], LoadOf);
      CollectOne(CacheAccess, LoadOf);
      ProjectionsOfPair(CacheMiss, Load(i));
    }
    CollectConcat(probe, rest, LoadOf);
    assert multiset(probe + rest) == multiset(probe) + multiset(rest);
  }

  /** `set`: install `chunk` under `i` without consulting the loader. */
  function Set(env: Collaborators, c: Cache, i: ChunkIndex, chunk: Chunk): (r: Update)
    requires Valid(c)
    ensures Valid(r.cache)
    ensures i in View(r.cache.entries) && View(r.cache.entries)[i] == chunk
    ensures forall j :: j != i && j in View(r.cache.entries) ==> j in View(c.entries) && View(r.cache.entries)[j] == View(c.entries)[j]
    ensures Loads(r.effects) == [] && multiset(r.effects)[CacheAccess] == 0 && multiset(r.effects)[CacheMiss] == 0
  {
    Put(env, c, Entry(i, chunk))
  }

  /** `invalidateAll`: remove every entry through the removal listener. */
  function InvalidateAll(env: Collaborators, c: Cache): (r: Update)
    ensures r.cache.entries == [] && View(r.cache.entries) == map[]
    ensures WritesBack(env, r.effects, c.entries)
  {
    Update(Cache([]), Flush(env, c.entries))
  }

  // ---------------------------------------------------------------------------
  // Properties of single calls and of call sequences

  /** A `set` is observed by the next `get` of the same index, which neither
      loads nor counts a miss. */
  lemma SetThenGet(env: Collaborators, c: Cache, i: ChunkIndex, chunk: Chunk)
    requires Valid(c)
    ensures var s := Set(env, c, i, chunk);
            var g := Get(env, s.cache, i);
            && g.result == Ok(chunk)
            && g.effects == [CacheAccess]
            && Loads(g.effects) == []
            && multiset(g.effects)[CacheMiss] == 0
  {
  }

  /** Replacement goes through the removal listener even when the new chunk is
      the resident one: a successful save of it is followed by the recycling of
      its buffer, although the chunk stays cached. */
  lemma SetResidentChunkRecyclesItsBuffer(env: Collaborators, c: Cache, i: ChunkIndex)
    requires Valid(c) && i in View(c.entries)
    requires env.save(i, View(c.entries)[i]).Saved?
    ensures var chunk := View(c.entries)[i];
            var s := Set(env, c, i, chunk);
            && View(s.cache.entries) == View(c.entries)
            && Saves(s.effects) == [Entry(i, chunk)]
            && Recycles(s.effects) == [chunk.data]
  {
    var chunk := View(c.entries)[i];
    var u := Put(env, c, Entry(i, chunk));
    assert WritesBack(env, u.effects, [Entry(i, chunk)]);
    assert Reclaimed(env, [Entry(i, chunk)]) == [chunk.data] by {
      assert [Entry(i, chunk)][1..] == [];
    }
    assert View(c.entries)[i := chunk] == View(c.entries);
  }

  /** An entry occurs once in a sequence of entries with distinct indices. */
  lemma {:induction false} OccursOnce(es: seq<Entry>, p: nat)
    requires Distinct(es) && p < |es|
    ensures multiset(es)[es[p]] == 1
  {
    if p == 0 {
      assert es == [es[0]] + es[1..];
      assert es[0] !in es[1..];
    } else {
      assert es == [es[0]] + es[1..];
      assert es[1..][p - 1] == es[p];
      OccursOnce(es[1..], p - 1);
    }
  }

  /** `invalidateAll` writes back every resident entry exactly once and nothing
      else, and leaves every one of those indices to be reloaded by the next `get`. */
  lemma InvalidateAllFlushesEachOnce(env: Collaborators, c: Cache, p: nat)
    requires Valid(c) && p < |c.entries|
    ensures var u := InvalidateAll(env, c);
            && multiset(Saves(u.effects))[c.entries[p]] == 1
            && var g := Get(env, u.cache, c.entries[p].index);
               && Loads(g.effects) == [c.entries[p].index]
               && multiset(g.effects)[CacheMiss] == 1
  {
    OccursOnce(c.entries, p);
  }

  /** A call of the cache's public interface. */
  datatype Call = GetCall(index: ChunkIndex) | SetCall(index: ChunkIndex, chunk: Chunk) | InvalidateAllCall

  /** One call, its result dropped. */
  function Apply(env: Collaborators, c: Cache, call: Call): (r: Update)
    requires Valid(c)
    ensures Valid(r.cache)
    ensures multiset(r.effects)[CacheAccess] == if call.GetCall? then 1 else 0
    ensures |Loads(r.effects)| == multiset(r.effects)[CacheMiss]
  {
    match call
    case GetCall(i) =>
      var f := Get(env, c, i);
      Update(f.cache, f.effects)
    case SetCall(i, chunk) => Set(env, c, i, chunk)
    case InvalidateAllCall => InvalidateAll(env, c)
  }

  /** The number of `get` calls in `calls`. */
  function GetCalls(calls: seq<Call>): nat
  {
    if calls == [] then 0 else (if calls[0].GetCall? then 1 else 0) + GetCalls(calls[1..])
  }

  /** A sequence of calls from cache state `c`, with the effects of all of them. */
  function Run(env: Collaborators, c: Cache, calls: seq<Call>): (r: Update)
    requires Valid(c)
    ensures Valid(r.cache)
    decreases |calls|
  {
    if calls == [] then Update(c, [])
    else
      var u := Apply(env, c, calls[0]);
      var rest := Run(env, u.cache, calls[1..]);
      Update(rest.cache, u.effects + rest.effects)
  }

  /** Over any sequence of calls the access counter grows once per `get`, and
      every counted miss goes with exactly one load. */
  lemma {:induction false} RunCounters(env: Collaborators, c: Cache, calls: seq<Call>)
    requires Valid(c)
    ensures var r := Run(env, c, calls);
            && multiset(r.effects)[CacheAccess] == GetCalls(calls)
            && |Loads(r.effects)| == multiset(r.effects)[CacheMiss]
            && multiset(r.effects)[CacheMiss] <= GetCalls(calls)
    decreases |calls|
  {
    if calls != [] {
      var u := Apply(env, c, calls[0]);
      var rest := Run(env, u.cache, calls[1..]);
      RunCounters(env, u.cache, calls[1..]);
      ProjectionsOfConcat(u.effects, rest.effects);
      assert multiset(u.effects + rest.effects) == multiset(u.effects) + multiset(rest.effects);
      if calls[0].GetCall? {
        assert multiset(u.effects)[CacheMiss] <= 1 by {
          var f := Get(env, c, calls[0].index);
          assert u.effects == f.effects;
        }
      } else {
        assert multiset(u.effects)[CacheMiss] == 0;
      }
    }
  }
}
