/** The per-filesystem factory of cleartext directory listings
    (DirectoryStreamFactory.java): the filter that keeps only encrypted content
    names in a ciphertext listing, and the registry of open listings that the
    factory closes, all of them, when the filesystem closes.

    Handles are opaque identities. The path mapper and `Files.newDirectoryStream`
    are collaborators whose outcome is a parameter; each handle's `close()` is an
    oracle that succeeds or throws. Every operation is one atomic step. For
    `NewDirectoryStream` and `Close` that is what the Java class's `synchronized`
    methods give; the deregistration callback `OnClose` runs without the
    factory's lock in Java, and its races are not modelled. */
module DirectoryStreamFactory {
  import opened Results

  // ---------------------------------------------------------------------------
  // The content-name filter

  /** The naming constants shared with the name-encoding subsystem:
      `MIN_CIPHER_NAME_LENGTH`, `CRYPTOMATOR_FILE_SUFFIX` and `DEFLATED_FILE_SUFFIX`.
      A name is a sequence of Dafny `char`s, which are Unicode scalar values, so
      its length counts code points where Java's `length()` counts UTF-16 code
      units; the two agree on names within the Basic Multilingual Plane. */
  datatype NameConstants = NameConstants(
    minCipherNameLength: nat,
    cryptomatorFileSuffix: string,
    deflatedFileSuffix: string)

  /** Java's `String.endsWith`. */
  predicate EndsWith(name: string, suffix: string)
  {
    |suffix| <= |name| && name[|name| - |suffix|..] == suffix
  }

  /** `matchesEncryptedContentPattern`, applied to the file name of a ciphertext path:
      a name is accepted exactly when it reaches the minimum length and is some
      prefix followed by one of the two suffixes. */
  predicate MatchesEncryptedContentPattern(k: NameConstants, fileName: string): (accepted: bool)
    ensures accepted <==>
              && |fileName| >= k.minCipherNameLength
              && (|| (exists cut :: 0 <= cut <= |fileName| && fileName == fileName[..cut] + k.cryptomatorFileSuffix)
                  || (exists cut :: 0 <= cut <= |fileName| && fileName == fileName[..cut] + k.deflatedFileSuffix))
  {
    EndsWithIffSplit(fileName, k.cryptomatorFileSuffix);
    EndsWithIffSplit(fileName, k.deflatedFileSuffix);
    && |fileName| >= k.minCipherNameLength
    && (EndsWith(fileName, k.cryptomatorFileSuffix) || EndsWith(fileName, k.deflatedFileSuffix))
  }

  /** A name ends with `suffix` exactly when it splits into some prefix followed by `suffix`. */
  lemma EndsWithIffSplit(name: string, suffix: string)
    ensures EndsWith(name, suffix) <==> exists cut :: 0 <= cut <= |name| && name == name[..cut] + suffix
  {
    if EndsWith(name, suffix) {
      var cut := |name| - |suffix|;
      assert name == name[..cut] + name[cut..];
    }
    if exists cut :: 0 <= cut <= |name| && name == name[..cut] + suffix {
      var cut :| 0 <= cut <= |name| && name == name[..cut] + suffix;
      assert name[cut..] == (name[..cut] + suffix)[cut..] == suffix;
    }
  }

  /** `EndsWith` agrees with the character-by-character comparison of the tail. */
  lemma EndsWithByCharacters(name: string, suffix: string)
    ensures EndsWith(name, suffix) <==>
              |suffix| <= |name| &&
              forall j :: 0 <= j < |suffix| ==> name[|name| - |suffix| + j] == suffix[j]
  {
    if |suffix| <= |name| && forall j :: 0 <= j < |suffix| ==> name[|name| - |suffix| + j] == suffix[j] {
      assert name[|name| - |suffix|..] == suffix;
    }
  }

  /** Every name made of some prefix and one of the two suffixes is accepted once
      it is long enough, whatever the prefix. */
  lemma AcceptsSuffixedNames(k: NameConstants, prefix: string)
    ensures |prefix + k.cryptomatorFileSuffix| >= k.minCipherNameLength ==>
              MatchesEncryptedContentPattern(k, prefix + k.cryptomatorFileSuffix)
    ensures |prefix + k.deflatedFileSuffix| >= k.minCipherNameLength ==>
              MatchesEncryptedContentPattern(k, prefix + k.deflatedFileSuffix)
  {
    assert (prefix + k.cryptomatorFileSuffix)[|prefix|..] == k.cryptomatorFileSuffix;
    assert (prefix + k.deflatedFileSuffix)[|prefix|..] == k.deflatedFileSuffix;
  }

  /** Conversely, every accepted name is long enough and is some prefix followed
      by one of the two suffixes. */
  lemma AcceptedNamesAreSuffixed(k: NameConstants, name: string)
    requires MatchesEncryptedContentPattern(k, name)
    ensures |name| >= k.minCipherNameLength
    ensures || (|k.cryptomatorFileSuffix| <= |name| &&
                name == name[..|name| - |k.cryptomatorFileSuffix|] + k.cryptomatorFileSuffix)
            || (|k.deflatedFileSuffix| <= |name| &&
                name == name[..|name| - |k.deflatedFileSuffix|] + k.deflatedFileSuffix)
  {
    if EndsWith(name, k.cryptomatorFileSuffix) {
      assert name == name[..|name| - |k.cryptomatorFileSuffix|] + name[|name| - |k.cryptomatorFileSuffix|..];
    } else {
      assert name == name[..|name| - |k.deflatedFileSuffix|] + name[|name| - |k.deflatedFileSuffix|..];
    }
  }

  /** Both conditions are mandatory: a suffixed name shorter than the minimum is rejected. */
  lemma RejectsShortNames(k: NameConstants, name: string)
    requires |name| < k.minCipherNameLength
    ensures !MatchesEncryptedContentPattern(k, name)
  {
  }

  /** Only the tail of a name decides the suffix check: whatever precedes a tail
      that ends in neither suffix, the name is rejected. */
  lemma RejectsByTail(k: NameConstants, prefix: string, tail: string)
    requires |tail| >= |k.cryptomatorFileSuffix| && |tail| >= |k.deflatedFileSuffix|
    requires !EndsWith(tail, k.cryptomatorFileSuffix) && !EndsWith(tail, k.deflatedFileSuffix)
    ensures !MatchesEncryptedContentPattern(k, prefix + tail)
  {
    var n := prefix + tail;
    assert n[|n| - |k.cryptomatorFileSuffix|..] == tail[|tail| - |k.cryptomatorFileSuffix|..];
    assert n[|n| - |k.deflatedFileSuffix|..] == tail[|tail| - |k.deflatedFileSuffix|..];
  }

  /** The entries a ciphertext directory stream opened with the content filter
      yields from the directory's file names: the accepted ones, in directory order. */
  function ContentEntries(k: NameConstants, names: seq<string>): (r: seq<string>)
    ensures |r| <= |names|
    ensures forall n :: n in r <==> n in names && MatchesEncryptedContentPattern(k, n)
  {
    if names == [] then []
    else
      var rest := ContentEntries(k, names[1..]);
      assert forall n :: n in names <==> n == names[0] || n in names[1..];
      if MatchesEncryptedContentPattern(k, names[0]) then [names[0]] + rest else rest
  }

  // ---------------------------------------------------------------------------
  // The registry of open streams

  /** A cleartext-facing directory stream (`CryptoDirectoryStream`), by identity. */
  datatype CleartextStream = CleartextStream(id: nat)

  /** A ciphertext directory stream (`DirectoryStream<Path>`), by identity. */
  datatype CiphertextStream = CiphertextStream(id: nat)

  /** What the path mapper resolves a cleartext directory to. */
  datatype CiphertextDirectory = CiphertextDirectory(path: string, dirId: string)

  /** An `IOException` from the path mapper, from opening a ciphertext directory
      or from closing a stream. */
  datatype IOException = IOException(message: string)

  /** Why `newDirectoryStream` throws: the filesystem is closed, or an `IOException`
      from the path mapper or from opening the ciphertext directory. */
  datatype OpenError = ClosedFileSystem | OpenFailed(cause: IOException)

  /** The factory's state: the `closed` flag and the map from each open cleartext
      stream to the ciphertext stream it wraps. `nextId` models the identity of
      the next stream object the builder creates. */
  datatype Factory = Factory(closed: bool, streams: map<CleartextStream, CiphertextStream>, nextId: nat)

  /** Every registered stream was created before `nextId`, so a new one is fresh. */
  predicate Valid(f: Factory)
  {
    forall s :: s in f.streams ==> s.id < f.nextId
  }

  /** The factory of a freshly opened filesystem. */
  function Create(): (f: Factory)
    ensures Valid(f) && !f.closed && f.streams == map[]
  {
    Factory(false, map[], 0)
  }

  datatype Opened = Opened(factory: Factory, result: Result<CleartextStream, OpenError>)

  /** `newDirectoryStream`: reject a closed factory; otherwise resolve the
      directory, open its ciphertext listing, wrap it in a new cleartext stream
      and register the pair. `resolved` is what the path mapper returns or
      throws; `open` is what `Files.newDirectoryStream` does for the directory. */
  function NewDirectoryStream(
    f: Factory,
    resolved: Result<CiphertextDirectory, IOException>,
    open: CiphertextDirectory -> Result<CiphertextStream, IOException>): (r: Opened)
    requires Valid(f)
    ensures Valid(r.factory)
    ensures r.factory.closed == f.closed
    ensures f.closed ==> r.result == Err(ClosedFileSystem)
    ensures r.result.Ok? <==> !f.closed && resolved.Ok? && open(resolved.value).Ok?
    ensures !f.closed && resolved.Err? ==> r.result == Err(OpenFailed(resolved.error))
    ensures !f.closed && resolved.Ok? && open(resolved.value).Err? ==>
              r.result == Err(OpenFailed(open(resolved.value).error))
    ensures r.result.Err? ==> r.factory == f
    ensures r.result.Ok? ==>
              && r.result.value !in f.streams
              && r.factory.streams == f.streams[r.result.value := open(resolved.value).value]
              && |r.factory.streams| == |f.streams| + 1
  {
    if f.closed then Opened(f, Err(ClosedFileSystem))
    else match resolved
      case Err(e) => Opened(f, Err(OpenFailed(e)))
      case Ok(dir) =>
        match open(dir)
        case Err(e) => Opened(f, Err(OpenFailed(e)))
        case Ok(ciphertext) =>
          var cleartext := CleartextStream(f.nextId);
          Opened(Factory(f.closed, f.streams[cleartext := ciphertext], f.nextId + 1), Ok(cleartext))
  }

  /** The `onClose` callback a stream runs when closed on its own: its entry, and
      only its entry, leaves the registry. */
  function OnClose(f: Factory, s: CleartextStream): (r: Factory)
    requires Valid(f)
    ensures Valid(r)
    ensures r.closed == f.closed && r.nextId == f.nextId
    ensures s !in r.streams
    ensures forall t :: t in f.streams && t != s ==> t in r.streams && r.streams[t] == f.streams[t]
    ensures r.streams.Keys <= f.streams.Keys
    ensures s in f.streams ==> |r.streams| == |f.streams| - 1
    ensures s !in f.streams ==> r == f
  {
    Factory(f.closed, f.streams - {s}, f.nextId)
  }

  /** Closing a stream right after opening it leaves the registry as it was. */
  lemma OpenThenCloseRestores(
    f: Factory,
    resolved: Result<CiphertextDirectory, IOException>,
    open: CiphertextDirectory -> Result<CiphertextStream, IOException>)
    requires Valid(f)
    ensures var o := NewDirectoryStream(f, resolved, open);
            o.result.Ok? ==> OnClose(o.factory, o.result.value).streams == f.streams
  {
    var o := NewDirectoryStream(f, resolved, open);
    if o.result.Ok? {
      assert OnClose(o.factory, o.result.value).streams == f.streams[o.result.value := open(resolved.value).value] - {o.result.value};
    }
  }

  // ---------------------------------------------------------------------------
  // Closing the factory

  /** One `close()` call made while the factory shuts down. */
  datatype CloseAttempt = CloseCleartext(stream: CleartextStream) | CloseCiphertext(ciphertext: CiphertextStream)

  /** The aggregated `IOException("Close failed")` with its suppressed exceptions. */
  datatype CloseFailure = CloseFailure(suppressed: seq<IOException>)

  predicate NoDuplicates(s: seq<CleartextStream>)
  {
    forall p, q :: 0 <= p < q < |s| ==> s[p] != s[q]
  }

  /** The close calls made for the streams in `order`: for each, its cleartext
      stream and then the ciphertext stream it wraps. */
  function Attempts(m: map<CleartextStream, CiphertextStream>, order: seq<CleartextStream>): (r: seq<CloseAttempt>)
    requires forall s :: s in order ==> s in m
    ensures |r| == 2 * |order|
    ensures forall s :: s in order ==> CloseCleartext(s) in r && CloseCiphertext(m[s]) in r
    ensures forall x :: x in r && x.CloseCleartext? ==> x.stream in order
  {
    if order == [] then []
    else
      var init := order[..|order| - 1];
      var last := order[|order| - 1];
      assert forall s :: s in order ==> s in init || s == last;
      Attempts(m, init) + [CloseCleartext(last), CloseCiphertext(m[last])]
  }

  /** The exception `close()` throws, if any. */
  function Failed<T>(outcome: Option<T>): seq<T>
  {
    match outcome
    case Some(e) => [e]
    case None => []
  }

  /** The exceptions thrown by `attempts`, in order. */
  function Failures(
    attempts: seq<CloseAttempt>,
    closeCleartext: CleartextStream -> Option<IOException>,
    closeCiphertext: CiphertextStream -> Option<IOException>): seq<IOException>
  {
    if attempts == [] then []
    else
      var last := attempts[|attempts| - 1];
      Failures(attempts[..|attempts| - 1], closeCleartext, closeCiphertext)
      + match last
        case CloseCleartext(s) => Failed(closeCleartext(s))
        case CloseCiphertext(c) => Failed(closeCiphertext(c))
  }

  /** Closing one more pair adds the failures of its two close calls. */
  lemma FailuresOfStep(
    a: seq<CloseAttempt>,
    s: CleartextStream,
    c: CiphertextStream,
    closeCleartext: CleartextStream -> Option<IOException>,
    closeCiphertext: CiphertextStream -> Option<IOException>)
    ensures Failures(a + [CloseCleartext(s), CloseCiphertext(c)], closeCleartext, closeCiphertext)
            == Failures(a, closeCleartext, closeCiphertext) + Failed(closeCleartext(s)) + Failed(closeCiphertext(c))
  {
    var a1 := a + [CloseCleartext(s)];
    var a2 := a + [CloseCleartext(s), CloseCiphertext(c)];
    assert a2[..|a2| - 1] == a1 && a2[|a2| - 1] == CloseCiphertext(c);
    assert a1[..|a1| - 1] == a && a1[|a1| - 1] == CloseCleartext(s);
  }

  /** Some close call fails if and only if some stream in `order` fails to close
      on its cleartext or on its ciphertext side. */
  lemma {:induction false} FailuresIffSomeStreamFails(
    m: map<CleartextStream, CiphertextStream>,
    order: seq<CleartextStream>,
    closeCleartext: CleartextStream -> Option<IOException>,
    closeCiphertext: CiphertextStream -> Option<IOException>)
    requires forall s :: s in order ==> s in m
    ensures |Failures(Attempts(m, order), closeCleartext, closeCiphertext)| > 0 <==>
              exists s :: s in order && (closeCleartext(s).Some? || closeCiphertext(m[s]).Some?)
  {
    if order != [] {
      var init := order[..|order| - 1];
      var last := order[|order| - 1];
      var a := Attempts(m, init);
      var step := [CloseCleartext(last), CloseCiphertext(m[last])];
      assert forall s :: s in order <==> s in init || s == last;
      FailuresIffSomeStreamFails(m, init, closeCleartext, closeCiphertext);
      FailuresOfStep(a, last, m[last], closeCleartext, closeCiphertext);
    }
  }

  /** In a duplicate-free order, each cleartext stream is closed exactly once. */
  lemma {:induction false} ClosedOnce(
    m: map<CleartextStream, CiphertextStream>,
    order: seq<CleartextStream>,
    s: CleartextStream)
    requires forall t :: t in order ==> t in m
    requires NoDuplicates(order) && s in order
    ensures multiset(Attempts(m, order))[CloseCleartext(s)] == 1
  {
    var init := order[..|order| - 1];
    var last := order[|order| - 1];
    assert order == init + [last];
    assert NoDuplicates(init);
    var step := [CloseCleartext(last), CloseCiphertext(m[last])];
    assert multiset(Attempts(m, init) + step) == multiset(Attempts(m, init)) + multiset(step);
    if s == last {
      assert s !in init;
      assert multiset(Attempts(m, init))[CloseCleartext(s)] == 0;
    } else {
      assert s in init;
      ClosedOnce(m, init, s);
    }
  }

  lemma EveryStreamClosedOnce(m: map<CleartextStream, CiphertextStream>, order: seq<CleartextStream>)
    requires NoDuplicates(order) && forall t :: t in order <==> t in m
    ensures forall s :: s in m ==> multiset(Attempts(m, order))[CloseCleartext(s)] == 1
  {
    forall s | s in m
      ensures multiset(Attempts(m, order))[CloseCleartext(s)] == 1
    {
      ClosedOnce(m, order, s);
    }
  }

  /** `close`: mark the factory closed, then take every registered pair out and
      close both of its streams, collecting every failure instead of stopping at
      the first; throw one aggregated exception carrying all of them if any
      occurred. The registry's iteration order is arbitrary; `order` reports the
      one taken. A stream's own `onClose` callback, run while it is closed here,
      finds its entry already gone and changes nothing. */
  method Close(
    f: Factory,
    closeCleartext: CleartextStream -> Option<IOException>,
    closeCiphertext: CiphertextStream -> Option<IOException>)
    returns (r: Factory, order: seq<CleartextStream>, attempts: seq<CloseAttempt>, failure: Option<CloseFailure>)
    ensures r.closed && r.streams == map[] && r.nextId == f.nextId
    ensures NoDuplicates(order) && forall s :: s in order <==> s in f.streams
    ensures attempts == Attempts(f.streams, order)
    ensures forall s :: s in f.streams ==> CloseCleartext(s) in attempts && CloseCiphertext(f.streams[s]) in attempts
    ensures forall s :: s in f.streams ==> multiset(attempts)[CloseCleartext(s)] == 1
    ensures failure.Some? <==>
              exists s :: s in f.streams && (closeCleartext(s).Some? || closeCiphertext(f.streams[s]).Some?)
    ensures failure.Some? ==> failure.value.suppressed == Failures(attempts, closeCleartext, closeCiphertext)
  {
    var remaining := f.streams;
    var suppressed: seq<IOException> := [];
    order := [];
    attempts := [];
    while remaining != map[]
      invariant forall s :: s in remaining ==> s in f.streams && remaining[s] == f.streams[s]
      invariant forall s :: s in order ==> s in f.streams && s !in remaining
      invariant forall s :: s in f.streams ==> s in remaining || s in order
      invariant NoDuplicates(order)
      invariant attempts == Attempts(f.streams, order)
      invariant suppressed == Failures(attempts, closeCleartext, closeCiphertext)
      decreases |remaining|
    {
      var s :| s in remaining;
      var c := remaining[s];
      remaining := remaining - {s};
      var step := [CloseCleartext(s), CloseCiphertext(c)];
      FailuresOfStep(attempts, s, c, closeCleartext, closeCiphertext);
      suppressed := suppressed + Failed(closeCleartext(s)) + Failed(closeCiphertext(c));
      attempts := attempts + step;
      order := order + [s];
    }
    r := Factory(true, map[], f.nextId);
    EveryStreamClosedOnce(f.streams, order);
    FailuresIffSomeStreamFails(f.streams, order, closeCleartext, closeCiphertext);
    if |suppressed| > 0 {
      failure := Some(CloseFailure(suppressed));
    } else {
      failure := None;
    }
  }

  /** A second `close` finds the registry empty and throws nothing, whatever
      the close oracles would do. */
  method CloseTwice(
    f: Factory,
    closeCleartext: CleartextStream -> Option<IOException>,
    closeCiphertext: CiphertextStream -> Option<IOException>)
    returns (second: Option<CloseFailure>)
    ensures second == None
  {
    var r, _, _, _ := Close(f, closeCleartext, closeCiphertext);
    var _, _, _, failure := Close(r, closeCleartext, closeCiphertext);
    second := failure;
  }
}
