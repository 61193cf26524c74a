# Chunk cache and directory-stream factory of an encrypting filesystem

This project models two components of the cryptofs encrypting overlay
filesystem in Dafny and proves properties of the models.

- **`ChunkCache`** (`chunk_cache.dfy`) is the per-open-file cache of decrypted
  chunks. It holds at most `MAX_CACHED_CLEARTEXT_CHUNKS = 5` chunks and loads a
  chunk through the `ChunkLoader` on a miss. An authentication failure becomes
  an `IOException`. Every removed chunk is written back through the
  `ChunkSaver` before its buffer goes back to the `BufferPool`. The cache is a
  sequence of entries ordered by recency, least recently accessed first. Every
  operation is a pure function that returns the new cache and an effect log. The
  log records statistics counters, loads, saves, recycles and escalated save
  failures, in order.
- **`LruPolicy`** (`lru_policy.dfy`) is an independent reference for the
  eviction order. It records the logical time of each index's last `get` or
  `set` and evicts the index with the oldest time. The lemmas show that the
  sequence model implements it.
- **`DirectoryStreamFactory`** (`directory_stream_factory.dfy`) has two parts:
  - the content-name filter;
  - the registry of open cleartext directory streams and the ciphertext streams
    they wrap.

  `newDirectoryStream` registers a pair, and a stream's `onClose` callback
  deregisters it. `close` marks the factory closed and empties the registry. It
  tries to close both streams of every pair, and it throws one aggregated
  exception exactly when some close failed.
- **`Results`** (`results.dfy`) holds the `Option` and `Result` types shared by
  both components.

Collaborators are parameters:

- the chunk loader and chunk saver are oracle functions in a `Collaborators`
  value;
- the path mapper and `Files.newDirectoryStream` are passed in as their
  outcome;
- every stream's `close()` is an oracle that returns `None` (success) or
  `Some(exception)`.

The naming constants `MIN_CIPHER_NAME_LENGTH`, `CRYPTOMATOR_FILE_SUFFIX` and
`DEFLATED_FILE_SUFFIX` belong to `Constants`, which is not part of this model.
They are a `NameConstants` parameter, and every filter property holds for any
values of them.

Modelling choices taken from the code:

- **Eviction order.** With `maximumSize(5)`, Guava's cache builder uses a
  single segment that evicts the least recently accessed entry. Both `get`
  and `put` count as an access.
- **`set` on a resident index.** Guava's removal listener also fires when
  `put` replaces a value. So `set` on a resident index saves and recycles the
  old chunk before it installs the new one (`Put`).
- **Save failures.** The listener (`removeChunk`) rethrows a save failure as
  an `UncheckedIOException`. Guava's listener dispatch, which is not part of
  this model, catches and logs what a listener throws. So the model records
  the failure as an `UncheckedSaveFailure` effect, skips the recycle, and
  leaves the result of the `get` or `set` that caused the removal unchanged.
  An eviction save failure is therefore not fatal; the model follows the code.
- **Loader exceptions.** cryptolib's `AuthenticationFailedException` is caught
  in `loadChunk` and rethrown as an `IOException` that names the chunk
  (`UnauthenticCiphertext`). The loader's own `IOException` passes through
  unchanged (`StorageFailure`).

## Model

| member | source | states |
|---|---|---|
| ChunkCache.Empty | src/main/java/org/cryptomator/cryptofs/fh/ChunkCache.java:31-34 | a new cache satisfies the invariant (at most 5 entries, one per index) and holds nothing |
| ChunkCache.Put | src/main/java/org/cryptomator/cryptofs/fh/ChunkCache.java:31-34 | keeps the bound and one entry per index; the new entry becomes the most recent; replacing a resident index updates only that key and writes back exactly the old chunk; a new index in a non-full cache adds only that key with no effect; a new index in a full cache drops exactly the front entry, writes back exactly it and adds the new key; never loads or touches the counters |
| ChunkCache.LoadChunk | src/main/java/org/cryptomator/cryptofs/fh/ChunkCache.java:37-45 | counts one miss then calls the loader once for the index; succeeds exactly when the loader does; an authentication failure becomes an `IOException` naming the chunk, and a loader `IOException` is passed on unchanged |
| ChunkCache.RemoveChunk | src/main/java/org/cryptomator/cryptofs/fh/ChunkCache.java:47-54 | a removal saves the entry under its index exactly once; its buffer is recycled, after the save, if and only if the save succeeded; a failed save is escalated and nothing is loaded or counted |
| ChunkCache.Flush | src/main/java/org/cryptomator/cryptofs/fh/ChunkCache.java:47-54 | removing a sequence of entries saves exactly those entries in that order; it recycles exactly the buffers whose save succeeded and escalates exactly the failed saves; every recycle directly follows the save of its chunk |
| ChunkCache.Get | src/main/java/org/cryptomator/cryptofs/fh/ChunkCache.java:56-64 | keeps the invariant; counts exactly one access; a hit returns the resident chunk with no miss, no load and no content change; a miss counts one miss and loads exactly that index once; it succeeds if and only if the load does and then installs the chunk as by `Put`; a failed load throws the (wrapped) `IOException` and leaves the cache unchanged |
| ChunkCache.Hit | src/main/java/org/cryptomator/cryptofs/fh/ChunkCache.java:56-59 | a hit returns the chunk under the index, logs only the access, keeps the key-value view and makes the entry the most recent |
| ChunkCache.Miss | src/main/java/org/cryptomator/cryptofs/fh/ChunkCache.java:56-64 | a miss logs one access, one miss and one load of that index; success installs the loaded chunk as the most recent entry; failure installs nothing |
| ChunkCache.Set | src/main/java/org/cryptomator/cryptofs/fh/ChunkCache.java:66-68 | keeps the invariant; afterwards the index maps to the given chunk and every other remaining index keeps its chunk; the loader is never called and no counter moves |
| ChunkCache.InvalidateAll | src/main/java/org/cryptomator/cryptofs/fh/ChunkCache.java:70-72 | leaves the cache empty, and its log is the write-back of exactly the previously resident entries |
| ChunkCache.SetThenGet | src/main/java/org/cryptomator/cryptofs/fh/ChunkCache.java:66-68 | a `get` right after `set(i, c)` returns `c` with no load and no miss |
| ChunkCache.SetResidentChunkRecyclesItsBuffer | src/main/java/org/cryptomator/cryptofs/fh/ChunkCache.java:66-68 | setting the chunk that is already resident under an index keeps the contents, yet saves that chunk and recycles its buffer, because Guava reports the replacement to the removal listener |
| ChunkCache.InvalidateAllFlushesEachOnce | src/main/java/org/cryptomator/cryptofs/fh/ChunkCache.java:70-72 | each previously resident entry is saved exactly once, and a later `get` of its index counts a miss and reloads it |
| ChunkCache.Apply | src/main/java/org/cryptomator/cryptofs/fh/ChunkCache.java:56-72 | any public call keeps the invariant, counts one access exactly when it is a `get`, and loads exactly as often as it counts misses |
| ChunkCache.Run | src/main/java/org/cryptomator/cryptofs/fh/ChunkCache.java:31-34 | after any sequence of `get`, `set` and `invalidateAll` calls, at most 5 chunks are resident, one per index |
| ChunkCache.RunCounters | src/main/java/org/cryptomator/cryptofs/fh/ChunkCache.java:37-59 | over any sequence of calls the access counter equals the number of `get` calls; there is exactly one load per counted miss, and no more misses than `get` calls |
| ChunkCache.KeysCount | src/main/java/org/cryptomator/cryptofs/fh/ChunkCache.java:31-34 | with one entry per index, the number of resident indices equals the number of entries, which links the bound to the key-value view |
| LruPolicy.FrontIsLeastRecent | src/main/java/org/cryptomator/cryptofs/fh/ChunkCache.java:31-33 | the front entry of the recency order is the index accessed strictly before every other resident index |
| LruPolicy.PutFollowsLru | src/main/java/org/cryptomator/cryptofs/fh/ChunkCache.java:31-34 | a put is a reference-model access to the index; when a new index meets a full cache, the index evicted and written back is the least recently accessed one, it differs from the new index, and the rest follows the reference |
| LruPolicy.GetFollowsLru | src/main/java/org/cryptomator/cryptofs/fh/ChunkCache.java:56-64 | a hit returns the reference model's chunk and is a reference access; a failed miss leaves the reference state unchanged |
| LruPolicy.AccessAfterForget | src/main/java/org/cryptomator/cryptofs/fh/ChunkCache.java:66-68 | in the reference model, replacing an index is the same as an access to it: the last access time and chunk recorded before are overridden |
| DirectoryStreamFactory.MatchesEncryptedContentPattern | src/main/java/org/cryptomator/cryptofs/dir/DirectoryStreamFactory.java:54-58 | a file name is accepted if and only if its length reaches the minimum and it is some prefix followed by either the encrypted-file suffix or the deflated-name suffix |
| DirectoryStreamFactory.EndsWithIffSplit | src/main/java/org/cryptomator/cryptofs/dir/DirectoryStreamFactory.java:57 | the suffix test used by the filter holds of a name exactly when the name splits into some prefix followed by the suffix |
| DirectoryStreamFactory.EndsWithByCharacters | src/main/java/org/cryptomator/cryptofs/dir/DirectoryStreamFactory.java:57 | the suffix test used by the filter agrees with comparing the name's tail to the suffix character by character |
| DirectoryStreamFactory.AcceptsSuffixedNames | src/main/java/org/cryptomator/cryptofs/dir/DirectoryStreamFactory.java:54-58 | any prefix followed by either suffix is accepted once the whole name reaches the minimum length |
| DirectoryStreamFactory.AcceptedNamesAreSuffixed | src/main/java/org/cryptomator/cryptofs/dir/DirectoryStreamFactory.java:54-58 | every accepted name has at least the minimum length and is a prefix followed by one of the two suffixes |
| DirectoryStreamFactory.RejectsShortNames | src/main/java/org/cryptomator/cryptofs/dir/DirectoryStreamFactory.java:56 | a name shorter than the minimum is rejected, whatever its suffix |
| DirectoryStreamFactory.RejectsByTail | src/main/java/org/cryptomator/cryptofs/dir/DirectoryStreamFactory.java:57 | a name whose tail ends in neither suffix is rejected, whatever comes before the tail |
| DirectoryStreamFactory.ContentEntries | src/main/java/org/cryptomator/cryptofs/dir/DirectoryStreamFactory.java:40 | the ciphertext listing opened with the filter yields exactly the directory's names that the filter accepts, and no more entries than the directory has |
| DirectoryStreamFactory.Create | src/main/java/org/cryptomator/cryptofs/dir/DirectoryStreamFactory.java:24-26 | a new factory is open, has an empty registry and satisfies the freshness invariant |
| DirectoryStreamFactory.NewDirectoryStream | src/main/java/org/cryptomator/cryptofs/dir/DirectoryStreamFactory.java:34-51 | a closed factory throws the closed-filesystem condition; the call succeeds exactly when the factory is open and both the path mapping and the ciphertext listing succeed; a failure passes on their `IOException` and leaves the factory unchanged; a success registers exactly one new pair, a fresh cleartext stream mapped to the opened ciphertext stream, and changes no other entry |
| DirectoryStreamFactory.OnClose | src/main/java/org/cryptomator/cryptofs/dir/DirectoryStreamFactory.java:46 | a stream closed on its own removes exactly its own entry; all other entries and the closed flag stay, and closing an unregistered stream changes nothing |
| DirectoryStreamFactory.OpenThenCloseRestores | src/main/java/org/cryptomator/cryptofs/dir/DirectoryStreamFactory.java:46-49 | closing a stream right after it was opened gives back the registry as it was before the open |
| DirectoryStreamFactory.Attempts | src/main/java/org/cryptomator/cryptofs/dir/DirectoryStreamFactory.java:63-77 | the shutdown makes two close calls per registered pair: its cleartext stream and the ciphertext stream it wraps; no cleartext stream outside the registry is closed |
| DirectoryStreamFactory.FailuresIffSomeStreamFails | src/main/java/org/cryptomator/cryptofs/dir/DirectoryStreamFactory.java:62-80 | at least one failure is collected if and only if some registered pair fails to close on its cleartext or its ciphertext side |
| DirectoryStreamFactory.ClosedOnce | src/main/java/org/cryptomator/cryptofs/dir/DirectoryStreamFactory.java:63-68 | during shutdown each registered cleartext stream is closed exactly once |
| DirectoryStreamFactory.Close | src/main/java/org/cryptomator/cryptofs/dir/DirectoryStreamFactory.java:60-81 | afterwards the factory is closed and the registry is empty, whatever the close outcomes; every registered pair is visited once and both of its streams are closed, the cleartext one exactly once, even after earlier failures; one aggregated exception is thrown if and only if some close failed, and it carries exactly the collected failures in order |
| DirectoryStreamFactory.CloseTwice | src/main/java/org/cryptomator/cryptofs/dir/DirectoryStreamFactory.java:78-80 | a second `close` finds the registry empty and throws nothing |

## Left out

- `DirectoryIdBackup` is not modelled. It opens the sidecar file with
  create-only semantics, wraps it in an encrypting channel and writes the ASCII
  bytes of the directory id. All of that behaviour belongs to the filesystem and
  to the crypto library, and neither is part of this model.
- Concurrency is not modelled. That covers Guava's single load per key when
  several threads `get` the same missing index, the `synchronized` methods of
  the factory, and the `volatile` closed flag. Every operation is one atomic
  step. In the source the deregistration callback (`streams::remove` on the
  plain `HashMap`, DirectoryStreamFactory.java:46) is not synchronized: it runs
  on the thread that closes the stream, without the factory's lock, and can race
  with the registration in `newDirectoryStream` and with the iteration in
  `close`. The model treats `OnClose` as atomic and does not cover those races.
- DirectoryStreamFactory.MatchesEncryptedContentPattern: a name's length is
  counted in Unicode scalar values (Dafny's `char`), while Java's `length()`
  counts UTF-16 code units. For a name holding characters outside the Basic
  Multilingual Plane the minimum-length test can therefore differ: with a
  minimum of 6, a name of one such character followed by `.c9r` has Java length
  6 and is accepted by the source, but has length 5 here and is rejected.
- Guava internals are left out: segments, `RemovalCause`, the
  `ExecutionException` plumbing, and `UncheckedExecutionException` for runtime
  exceptions other than `AuthenticationFailedException`. Only the LRU policy
  with bound 5 and the removal listener are kept.
- The listener's `UncheckedIOException` is an effect in the log. How Guava
  reports it (it logs it) is outside the model, so the model does not decide
  whether anything beyond the log sees it.
- Real I/O and cryptography are collaborators: loading, decrypting, encrypting
  and saving chunks, `Files.newDirectoryStream`, `CryptoPathMapper`, and the
  `DirectoryStreamComponent` builder. Each loader or saver outcome depends only
  on its arguments.
- A chunk's contents and dirty state are left out. The cache only uses the
  chunk's buffer, so a chunk is modelled as its buffer identity.
- `CryptoFileSystemStats` becomes the `CacheAccess` and `CacheMiss` effects in
  the log. Dependency injection wiring has no behaviour to model.
- `path.getFileName()` is left out. The filter takes the file name itself, so a
  root path with no file name is not modelled.
- ChunkCache.InvalidateAll: removes entries in recency order. Guava removes them in the
  order of its hash table. The statements that each entry is saved exactly once
  do not depend on this order.
- DirectoryStreamFactory.Close: the registry's `HashMap` iteration order is not
  modelled. The loop picks any remaining entry, and `order` reports the choice.
- DirectoryStreamFactory.Attempts: the ciphertext streams are stated to be
  closed at least once each, not exactly once. Two registered cleartext streams
  that wrapped the same ciphertext stream would close it twice. The source never
  creates such a pair, and the model does not track it.
