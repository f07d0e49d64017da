/** What a user of the relay relies on, across push, relay, pull and the encrypted hops between them. */
module EndToEnd {
  import opened Prelude
  import opened Chunking
  import opened Secure
  import opened Forwarding
  import opened RelaySpec
  import opened RelayRuns

  /**
   * From one client to another.  A client pushes a file through any run of stores, retries and failures in which the
   * last store that touched a chunk's file left its slice there; at any later time the hub forwards it, cut to the
   * target's own chunk size and encrypted for the target.  The upload succeeds exactly when the target announced the
   * right count, has a usable key, and takes every chunk and the completion; then it decrypts and joins just the file.
   */
  lemma PushReachesTheTarget(ops: seq<Op>, client: ClientId, id: int, token: string, done: Completed,
                             file: Bytes, more: seq<Op>, suite: Suite, targetKey: Option<Bytes>,
                             prepare: PrepareResponse, ivs: nat -> Block, target: Target)
    requires Bijective(suite)
    requires Completes(ops, client, id, token, done) && DeclaredSize(ops, id) == Some(|file|)
    requires
      var slices := Chunks(file, FILE_CHUNK_SIZE);
      forall i: nat | i < |slices| :: LastDiskWrite(ops, id, i) == Some(slices[i])
    requires forall op <- more :: !PreparesSession(op, id)
    ensures
      var r := Run(ops + [CompleteOp(client, id, token)] + more).relay;
      var (result, bodies) := Upload(suite, targetKey, ReadCompleted(r, done), prepare, ivs, target);
      && (result.Ok? <==>
            && prepare.chunkSize > 0 && prepare.chunkCount == CeilDiv(|file|, prepare.chunkSize)
            && SharedKey(suite, targetKey).Ok?
            && TakesAll(target, prepare.chunkCount) && target.acceptsCompletion)
      && (result.Ok? ==> Received(b => DecryptFor(suite, targetKey, b), bodies) == Some(file))
      && (result.Ok? ==> prepare.chunkSize > 0 && |bodies| == CeilDiv(|file|, prepare.chunkSize) == prepare.chunkCount)
  {
    PushDeliversTheFile(ops, client, id, token, done, file, more);
    UploadDeliversTheFile(suite, targetKey, file, prepare, ivs, target);
    UploadEndsExactly(suite, targetKey, file, prepare, ivs, target);
  }

  /** What the pull of `paste` from a client comes to, given what it serves and what becomes of the file writes. */
  function PullFrom(now: int, paste: Paste, hosts: Option<seq<string>>, suite: Suite, sourceKey: Option<Bytes>,
                    fetch: nat -> Option<Bytes>, writes: nat -> FileWrite): Op
    requires CheckPull(paste, hosts).Ok?
  {
    var count, obtain := CheckPull(paste, hosts).value, i => Obtain(suite, sourceKey, fetch, i);
    var pieces := UntilFailure(Kept(obtain, writes), 0, count);
    PullOp(now, count, pieces, if |pieces| < count then Leftover(obtain, writes, |pieces|) else None)
  }

  /**
   * Through the hub by pull.  A client announces a paste of the file's size and serves the file's slices under its key;
   * the hub pulls it, with all writes succeeding, under an id no push ever had; after any run that leaves that id
   * alone, any reader with a usable key pulls the whole file.
   */
  lemma PulledFileReachesReaders(ops: seq<Op>, now: int, paste: Paste, hosts: Option<seq<string>>, file: Bytes,
                                 suite: Suite, sourceKey: Option<Bytes>, fetch: nat -> Option<Bytes>,
                                 writes: nat -> FileWrite, more: seq<Op>,
                                 readerKey: Option<Bytes>, ivs: nat -> nat -> Block)
    requires Bijective(suite) && CheckPull(paste, hosts).Ok? && AsU64(paste.size) == Some(|file|)
    requires Serves(suite, sourceKey, fetch, Chunks(file, FILE_CHUNK_SIZE)) && SharedKey(suite, readerKey).Ok?
    requires forall i: nat | i < |Chunks(file, FILE_CHUNK_SIZE)| :: writes(i).Whole?
    requires PrepareCount(ops, now) == 0 && forall op <- more :: LeavesAlone(op, now)
    ensures
      var r := Run(ops + [PullFrom(now, paste, hosts, suite, sourceKey, fetch, writes)] + more).relay;
      var read := i => PullFile(suite, r, readerKey, now, i, ivs(i));
      Join(Fetched(suite, readerKey, read, CeilDiv(|file|, FILE_CHUNK_SIZE))) == file
  {
    var slices := Chunks(file, FILE_CHUNK_SIZE);
    ChunkCount(file, FILE_CHUNK_SIZE);
    PullIsCheckedExactly(paste, hosts, file);
    KeptAreTheSlices(suite, sourceKey, fetch, writes, slices);
    var pull := PullFrom(now, paste, hosts, suite, sourceKey, fetch, writes);
    assert pull == PullOf(now, file);
    ChunkCountBound(|file|);
    var r := Run(ops + [pull] + more).relay;
    var read := i => PullFile(suite, r, readerKey, now, i, ivs(i));
    forall i: nat | i < |slices|
      ensures read(i).Some? && DecodeStreamFor(suite, readerKey, read(i).value) == Ok(slices[i])
    {
      PulledFileStaysServed(ops, now, file, more, i);
      StreamForClientRoundTrip(suite, readerKey, slices[i], ivs(i));
    }
    FetchedAreTheSlices(suite, readerKey, read, slices);
    JoinChunks(file, FILE_CHUNK_SIZE);
  }
}
