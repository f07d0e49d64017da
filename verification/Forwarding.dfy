/**
 * What travels between the hub and its clients: payloads and streams under the key on file for a client,
 * the upload of a completed push to one target, and the chunks fetched for a pull.
 */
module Forwarding {
  import opened Prelude
  import opened Chunking
  import opened BigEndian
  import opened Secure
  import opened Stream
  import opened RelaySpec

  /** The AES key shared with a client, given the public key on file for it, if there is one. */
  function SharedKey(suite: Suite, onFile: Option<Bytes>): Result<AesKey, PayloadError> {
    match onFile
    case None => Err(MissingKey)
    case Some(der) =>
      match suite.shared(der)
      case None => Err(BadKey)
      case Some(key) => Ok(key)
  }

  function EncryptFor(suite: Suite, onFile: Option<Bytes>, plaintext: Bytes, iv: Block): Result<Bytes, PayloadError> {
    match onFile
    case None => Err(MissingKey)
    case Some(der) => EncryptForClient(suite, der, plaintext, iv)
  }

  function DecryptFor(suite: Suite, onFile: Option<Bytes>, ciphertext: Bytes): Result<Bytes, PayloadError> {
    match onFile
    case None => Err(MissingKey)
    case Some(der) => DecryptFromClient(suite, der, ciphertext)
  }

  /** The first `n` initialisation vectors drawn. */
  function Drawn(ivs: nat -> Block, n: nat): (r: seq<Block>)
    ensures |r| == n && forall i | 0 <= i < n :: r[i] == ivs(i)
  {
    seq(n, i requires 0 <= i < n => ivs(i))
  }

  /** A stream for a client.  Without any piece to encrypt the key is never looked up. */
  function EncodeStreamFor(suite: Suite, onFile: Option<Bytes>, plaintext: Bytes, ivs: nat -> Block)
    : Result<Bytes, PayloadError>
  {
    if plaintext == [] then Ok([])
    else
      match SharedKey(suite, onFile)
      case Err(e) => Err(e)
      case Ok(key) => Ok(EncodeStream(suite, key, plaintext, Drawn(ivs, |Chunks(plaintext, STREAM_PIECE)|)))
  }

  function DecodeStreamFor(suite: Suite, onFile: Option<Bytes>, c: Bytes): Result<Bytes, StreamError> {
    DecodeWith(b => DecryptFor(suite, onFile, b), c)
  }

  lemma {:induction false} SameDecryptSameStream(f: Bytes -> Result<Bytes, PayloadError>,
                                                   g: Bytes -> Result<Bytes, PayloadError>, c: Bytes)
    requires forall b :: f(b) == g(b)
    ensures DecodeWith(f, c) == DecodeWith(g, c)
    decreases |c|
  {
    if |c| >= 4 {
      var size := U32FromBytes(c[..4]);
      if 4 + size <= |c| {
        assert f(c[4..4 + size]) == g(c[4..4 + size]);
        SameDecryptSameStream(f, g, c[4 + size..]);
      }
    }
  }

  lemma StreamForKnownClient(suite: Suite, onFile: Option<Bytes>, key: AesKey, c: Bytes)
    requires SharedKey(suite, onFile) == Ok(key)
    ensures DecodeStreamFor(suite, onFile, c) == DecodeStream(suite, key, c)
  {
    SameDecryptSameStream(b => DecryptFor(suite, onFile, b), b => DecryptWith(suite, key, b), c);
  }

  /** A stream that the server encodes for a client decodes, under the same key on file, to the same bytes. */
  lemma StreamForClientRoundTrip(suite: Suite, onFile: Option<Bytes>, plaintext: Bytes, ivs: nat -> Block)
    requires Bijective(suite) && EncodeStreamFor(suite, onFile, plaintext, ivs).Ok?
    ensures DecodeStreamFor(suite, onFile, EncodeStreamFor(suite, onFile, plaintext, ivs).value) == Ok(plaintext)
  {
    if plaintext != [] {
      var key := SharedKey(suite, onFile).value;
      var drawn := Drawn(ivs, |Chunks(plaintext, STREAM_PIECE)|);
      StreamForKnownClient(suite, onFile, key, EncodeStream(suite, key, plaintext, drawn));
      StreamRoundTrip(suite, key, plaintext, drawn);
    }
  }

  // ---------- Uploading to a target ----------

  datatype UploadError =
    | Unreadable(cause: RelayError)
    | ZeroChunkSize
    | CountMismatch
    | CannotEncrypt(payload: PayloadError)
    | ChunkRejected(index: nat)
    | CompletionRejected

  /** How a target answers: its verdict on each chunk, and on the completion. */
  datatype Target = Target(acceptsChunk: nat -> bool, acceptsCompletion: bool)

  /**
   * Sends bodies `i` up to `n`; the result and the bodies that were posted.  `body` yields the encrypted piece
   * at each index below `n`, and at `n` the encrypted empty body that announces completion.
   */
  function UploadFrom(body: nat -> Result<Bytes, PayloadError>, n: nat, i: nat, target: Target)
    : (Result<(), UploadError>, seq<Bytes>)
    decreases n - i
  {
    if body(i).Err? then (Err(CannotEncrypt(body(i).error)), [])
    else if i >= n then (if target.acceptsCompletion then Ok(()) else Err(CompletionRejected), [])
    else if !target.acceptsChunk(i) then (Err(ChunkRejected(i)), [body(i).value])
    else
      var (result, rest) := UploadFrom(body, n, i + 1, target);
      (result, [body(i).value] + rest)
  }

  function Body(suite: Suite, onFile: Option<Bytes>, pieces: seq<Bytes>, ivs: nat -> Block, i: nat)
    : Result<Bytes, PayloadError>
  {
    EncryptFor(suite, onFile, if i < |pieces| then pieces[i] else [], ivs(i))
  }

  /** `upload_completed_push_to_target`, given what was read back for the push. */
  function Upload(suite: Suite, onFile: Option<Bytes>, source: Result<Bytes, RelayError>, prepare: PrepareResponse,
                  ivs: nat -> Block, target: Target)
    : (Result<(), UploadError>, seq<Bytes>)
  {
    match source
    case Err(e) => (Err(Unreadable(e)), [])
    case Ok(bytes) =>
      if prepare.chunkSize == 0 then (Err(ZeroChunkSize), [])
      else if CeilDiv(|bytes|, prepare.chunkSize) != prepare.chunkCount then (Err(CountMismatch), [])
      else
        var pieces := Chunks(bytes, prepare.chunkSize);
        UploadFrom(i => Body(suite, onFile, pieces, ivs, i), |pieces|, 0, target)
  }

  /** What a target recovers from the bodies it received, in order. */
  function Received(decrypt: Bytes -> Result<Bytes, PayloadError>, bodies: seq<Bytes>): Option<Bytes> {
    if bodies == [] then Some([])
    else
      match (decrypt(bodies[0]), Received(decrypt, bodies[1..]))
      case (Ok(p), Some(rest)) => Some(p + rest)
      case _ => None
  }

  lemma EncryptForRoundTrip(suite: Suite, onFile: Option<Bytes>, p: Bytes, iv: Block)
    requires Bijective(suite) && EncryptFor(suite, onFile, p, iv).Ok?
    ensures DecryptFor(suite, onFile, EncryptFor(suite, onFile, p, iv).value) == Ok(p)
  {
    var key := suite.shared(onFile.value).value;
    DecryptInvertsEncrypt(suite, key, p, iv);
    PayloadLength(suite, key, p, iv);
  }

  lemma ReceivedOneMore(decrypt: Bytes -> Result<Bytes, PayloadError>, body: Bytes, piece: Bytes,
                        rest: seq<Bytes>, tail: seq<Bytes>)
    requires decrypt(body) == Ok(piece) && Received(decrypt, rest) == Some(Join(tail))
    ensures Received(decrypt, [body] + rest) == Some(Join([piece] + tail))
  {
    assert ([body] + rest)[1..] == rest && ([piece] + tail)[1..] == tail;
  }

  /** However an upload ends, the bodies posted so far decrypt, in order, to a prefix of the pieces. */
  lemma {:induction false} UploadSendsPrefix(body: nat -> Result<Bytes, PayloadError>,
                                             decrypt: Bytes -> Result<Bytes, PayloadError>,
                                             pieces: seq<Bytes>, i: nat, target: Target)
    requires i <= |pieces|
    requires forall j: nat | j < |pieces| && body(j).Ok? :: decrypt(body(j).value) == Ok(pieces[j])
    ensures
      var (result, bodies) := UploadFrom(body, |pieces|, i, target);
      && i + |bodies| <= |pieces|
      && Received(decrypt, bodies) == Some(Join(pieces[i..i + |bodies|]))
      && (result.Ok? ==> i + |bodies| == |pieces|)
      && (result.Err? ==>
            result.error.CannotEncrypt? || result.error.ChunkRejected? || result.error.CompletionRejected?)
    decreases |pieces| - i
  {
    if i < |pieces| && body(i).Ok? {
      if !target.acceptsChunk(i) {
        ReceivedOneMore(decrypt, body(i).value, pieces[i], [], []);
        SliceCons(pieces, i, 0);
        assert [body(i).value] + [] == [body(i).value];
      } else {
        UploadSendsPrefix(body, decrypt, pieces, i + 1, target);
        var rest := UploadFrom(body, |pieces|, i + 1, target).1;
        ReceivedOneMore(decrypt, body(i).value, pieces[i], rest, pieces[i + 1..i + 1 + |rest|]);
        SliceCons(pieces, i, |rest|);
      }
    }
  }

  /** An upload of a file in chunks of size `c`, over any encryption that the target can undo. */
  lemma UploadOfChunks(body: nat -> Result<Bytes, PayloadError>, decrypt: Bytes -> Result<Bytes, PayloadError>,
                       file: Bytes, c: nat, target: Target)
    requires c > 0
    requires forall j: nat | j < |Chunks(file, c)| && body(j).Ok? :: decrypt(body(j).value) == Ok(Chunks(file, c)[j])
    ensures
      var (result, bodies) := UploadFrom(body, |Chunks(file, c)|, 0, target);
      var received := Received(decrypt, bodies);
      && received.Some? && received.value <= file
      && (result.Ok? ==> |bodies| == CeilDiv(|file|, c) && received.value == file)
      && result !in {Err(ZeroChunkSize), Err(CountMismatch)}
  {
    var pieces := Chunks(file, c);
    ChunkCount(file, c);
    UploadSendsPrefix(body, decrypt, pieces, 0, target);
    var k := |UploadFrom(body, |pieces|, 0, target).1|;
    assert pieces[0..0 + k] == pieces[..k];
    JoinFirstChunks(file, c, k);
    if k == |pieces| {
      assert pieces[..k] == pieces;
      JoinChunks(file, c);
    }
  }

  lemma BodiesDecrypt(suite: Suite, onFile: Option<Bytes>, pieces: seq<Bytes>, ivs: nat -> Block, j: nat)
    requires Bijective(suite) && j < |pieces| && Body(suite, onFile, pieces, ivs, j).Ok?
    ensures DecryptFor(suite, onFile, Body(suite, onFile, pieces, ivs, j).value) == Ok(pieces[j])
  {
    EncryptForRoundTrip(suite, onFile, pieces[j], ivs(j));
  }

  /**
   * The file arrives whole.  The count check passes exactly when the target announced ceil(size / chunk size)
   * chunks of positive size; however the upload ends, what was posted decrypts, in order, to a prefix of the
   * file; and a successful upload posts exactly the announced number of bodies, which give the whole file.
   */
  lemma UploadDeliversTheFile(suite: Suite, onFile: Option<Bytes>, file: Bytes, prepare: PrepareResponse,
                              ivs: nat -> Block, target: Target)
    requires Bijective(suite)
    ensures
      var (result, bodies) := Upload(suite, onFile, Ok(file), prepare, ivs, target);
      var received := Received(b => DecryptFor(suite, onFile, b), bodies);
      && (result in {Err(ZeroChunkSize), Err(CountMismatch)} <==>
            prepare.chunkSize == 0 || prepare.chunkCount != CeilDiv(|file|, prepare.chunkSize))
      && received.Some? && received.value <= file
      && (result.Ok? ==> |bodies| == prepare.chunkCount && received.value == file)
  {
    if prepare.chunkSize > 0 {
      var pieces := Chunks(file, prepare.chunkSize);
      forall j: nat | j < |pieces| && Body(suite, onFile, pieces, ivs, j).Ok?
        ensures DecryptFor(suite, onFile, Body(suite, onFile, pieces, ivs, j).value) == Ok(pieces[j])
      {
        BodiesDecrypt(suite, onFile, pieces, ivs, j);
      }
      UploadOfChunks(i => Body(suite, onFile, pieces, ivs, i), b => DecryptFor(suite, onFile, b),
                     file, prepare.chunkSize, target);
    }
  }

  /** The target takes every chunk below `n`. */
  predicate TakesAll(target: Target, n: nat) {
    forall i: nat | i < n :: target.acceptsChunk(i)
  }

  /** Chunk `k` is the first one that the target refuses. */
  predicate RefusesFirst(target: Target, n: nat, k: nat) {
    k < n && !target.acceptsChunk(k) && forall i: nat | i < k :: target.acceptsChunk(i)
  }

  /** How the loop ends, when everything can be encrypted: it stops at the first refusal, if there is one. */
  lemma {:induction false} UploadEnds(body: nat -> Result<Bytes, PayloadError>, n: nat, i: nat, target: Target)
    requires i <= n && forall j: nat | j <= n :: body(j).Ok?
    requires forall j: nat | j < i :: target.acceptsChunk(j)
    ensures
      var (result, bodies) := UploadFrom(body, n, i, target);
      && (forall k: nat | RefusesFirst(target, n, k) :: result == Err(ChunkRejected(k)) && i + |bodies| == k + 1)
      && (TakesAll(target, n) ==>
            i + |bodies| == n && result == if target.acceptsCompletion then Ok(()) else Err(CompletionRejected))
      && (forall j: nat | j < |bodies| :: body(i + j) == Ok(bodies[j]))
    decreases n - i
  {
    if i < n && target.acceptsChunk(i) {
      UploadEnds(body, n, i + 1, target);
    }
  }

  lemma {:induction false} SomeRefusalIsFirst(target: Target, n: nat, i: nat) returns (k: nat)
    requires i <= n && !TakesAll(target, n) && forall j: nat | j < i :: target.acceptsChunk(j)
    ensures RefusesFirst(target, n, k)
    decreases n - i
  {
    if i < n && target.acceptsChunk(i) {
      k := SomeRefusalIsFirst(target, n, i + 1);
    } else {
      k := i;
    }
  }

  /**
   * Every way an upload can end.  The count is checked first, then the key; then the target is sent one body after
   * another until it refuses one.  The upload succeeds if and only if it takes every chunk and the completion.
   */
  lemma UploadEndsExactly(suite: Suite, onFile: Option<Bytes>, file: Bytes, prepare: PrepareResponse, ivs: nat -> Block,
                          target: Target)
    ensures
      var (result, bodies) := Upload(suite, onFile, Ok(file), prepare, ivs, target);
      var n := prepare.chunkCount;
      if prepare.chunkSize == 0 then result == Err(ZeroChunkSize) && bodies == []
      else if n != CeilDiv(|file|, prepare.chunkSize) then result == Err(CountMismatch) && bodies == []
      else if SharedKey(suite, onFile).Err? then
        result == Err(CannotEncrypt(SharedKey(suite, onFile).error)) && bodies == []
      else
        && (result.Ok? <==> TakesAll(target, n) && target.acceptsCompletion)
        && (TakesAll(target, n) ==>
              |bodies| == n && (!target.acceptsCompletion ==> result == Err(CompletionRejected)))
        && (forall k: nat | RefusesFirst(target, n, k) :: result == Err(ChunkRejected(k)) && |bodies| == k + 1)
  {
    if prepare.chunkSize > 0 && prepare.chunkCount == CeilDiv(|file|, prepare.chunkSize) {
      var pieces := Chunks(file, prepare.chunkSize);
      ChunkCount(file, prepare.chunkSize);
      if SharedKey(suite, onFile).Ok? {
        AllBodiesEncrypt(suite, onFile, pieces, ivs);
        UploadEnds(i => Body(suite, onFile, pieces, ivs, i), |pieces|, 0, target);
        if !TakesAll(target, |pieces|) {
          var k := SomeRefusalIsFirst(target, |pieces|, 0);
        }
      }
    }
  }

  lemma AllBodiesEncrypt(suite: Suite, onFile: Option<Bytes>, pieces: seq<Bytes>, ivs: nat -> Block)
    requires SharedKey(suite, onFile).Ok?
    ensures forall j: nat :: Body(suite, onFile, pieces, ivs, j).Ok?
  {
  }

  /** What is posted: the first pieces of the file, each encrypted under its own IV. */
  lemma UploadedBodies(suite: Suite, onFile: Option<Bytes>, pieces: seq<Bytes>, ivs: nat -> Block, target: Target,
                       j: nat)
    requires SharedKey(suite, onFile).Ok?
    ensures
      var bodies := UploadFrom(i => Body(suite, onFile, pieces, ivs, i), |pieces|, 0, target).1;
      j < |bodies| ==> j < |pieces| && EncryptFor(suite, onFile, pieces[j], ivs(j)) == Ok(bodies[j])
  {
    AllBodiesEncrypt(suite, onFile, pieces, ivs);
    var body: nat -> Result<Bytes, PayloadError> := i => Body(suite, onFile, pieces, ivs, i);
    UploadEnds(body, |pieces|, 0, target);
    var bodies := UploadFrom(body, |pieces|, 0, target).1;
    if j < |bodies| {
      assert body(0 + j) == Ok(bodies[j]);
      if !TakesAll(target, |pieces|) {
        var k := SomeRefusalIsFirst(target, |pieces|, 0);
      }
    }
  }

  // ---------- Fetching a pull ----------

  /** One chunk of a pull: the request is encrypted, the reply is decrypted; None if any of it fails. */
  function Obtain(suite: Suite, onFile: Option<Bytes>, fetch: nat -> Option<Bytes>, i: nat): Option<Bytes> {
    if SharedKey(suite, onFile).Err? then None
    else
      match fetch(i)
      case None => None
      case Some(reply) =>
        match DecodeStreamFor(suite, onFile, reply)
        case Err(_) => None
        case Ok(piece) => Some(piece)
  }

  /** A chunk is obtained exactly as its reply decodes; a missing key or reply, or one that does not decode, fails. */
  lemma ObtainedExactly(suite: Suite, onFile: Option<Bytes>, fetch: nat -> Option<Bytes>, i: nat, piece: Bytes)
    ensures Obtain(suite, onFile, fetch, i) == Some(piece) <==>
            && SharedKey(suite, onFile).Ok? && fetch(i).Some?
            && DecodeStreamFor(suite, onFile, fetch(i).value) == Ok(piece)
  {
  }

  /** What is obtained and then written in full. */
  function Kept(obtain: nat -> Option<Bytes>, writes: nat -> FileWrite): nat -> Option<Bytes> {
    i => if writes(i).Whole? then obtain(i) else None
  }

  /** What the write of chunk `i` leaves behind, if the chunk is obtained at all. */
  function Leftover(obtain: nat -> Option<Bytes>, writes: nat -> FileWrite, i: nat): Option<Bytes> {
    match obtain(i)
    case None => None
    case Some(bytes) => LeftBy(writes(i), bytes)
  }

  /** A write that fails once its file is open leaves a prefix of the chunk; one that fails before leaves nothing. */
  lemma LeftoverExactly(obtain: nat -> Option<Bytes>, writes: nat -> FileWrite, i: nat)
    ensures Leftover(obtain, writes, i).Some? <==> obtain(i).Some? && !writes(i).Unopened?
    ensures Leftover(obtain, writes, i).Some? ==> Leftover(obtain, writes, i).value <= obtain(i).value
    ensures writes(i).Torn? && obtain(i).Some? && writes(i).kept <= |obtain(i).value| ==>
              |Leftover(obtain, writes, i).value| == writes(i).kept
  {
  }

  /** The values from `i` on, up to the first failure. */
  function UntilFailure(obtain: nat -> Option<Bytes>, i: nat, count: nat): seq<Bytes>
    decreases count - i
  {
    if i >= count || obtain(i).None? then []
    else [obtain(i).value] + UntilFailure(obtain, i + 1, count)
  }

  /** One turn of a loop that collects values until the first failure. */
  lemma UntilFailureTurn(obtain: nat -> Option<Bytes>, i: nat, count: nat, done: seq<Bytes>, all: seq<Bytes>)
    requires i < count && all == done + UntilFailure(obtain, i, count)
    ensures if obtain(i).None? then all == done
            else all == done + [obtain(i).value] + UntilFailure(obtain, i + 1, count)
  {
  }

  /** What a pull of `count` chunks obtains before its first failure. */
  function Fetched(suite: Suite, onFile: Option<Bytes>, fetch: nat -> Option<Bytes>, count: nat): seq<Bytes> {
    UntilFailure(i => Obtain(suite, onFile, fetch, i), 0, count)
  }

  /** The collected values are those up to the first failure: all before it were obtained, and it was not. */
  lemma {:induction false} UntilFailureExactly(obtain: nat -> Option<Bytes>, i: nat, count: nat)
    requires i <= count
    ensures
      var pieces := UntilFailure(obtain, i, count);
      && i + |pieces| <= count
      && (forall j: nat | j < |pieces| :: obtain(i + j) == Some(pieces[j]))
      && (i + |pieces| < count ==> obtain(i + |pieces|).None?)
    decreases count - i
  {
    if i < count && obtain(i).Some? {
      UntilFailureExactly(obtain, i + 1, count);
    }
  }

  /** A source that serves the slices of a file, each as a stream under its own key. */
  ghost predicate Serves(suite: Suite, onFile: Option<Bytes>, fetch: nat -> Option<Bytes>, slices: seq<Bytes>) {
    && SharedKey(suite, onFile).Ok?
    && forall i: nat | i < |slices| :: fetch(i).Some? && DecodeStreamFor(suite, onFile, fetch(i).value) == Ok(slices[i])
  }

  lemma {:induction false} AllUntilFailure(obtain: nat -> Option<Bytes>, slices: seq<Bytes>, i: nat)
    requires i <= |slices| && forall j: nat | j < |slices| :: obtain(j) == Some(slices[j])
    ensures UntilFailure(obtain, i, |slices|) == slices[i..]
    decreases |slices| - i
  {
    if i < |slices| {
      AllUntilFailure(obtain, slices, i + 1);
      assert slices[i..] == [slices[i]] + slices[i + 1..];
    }
  }

  lemma FetchedAreTheSlices(suite: Suite, onFile: Option<Bytes>, fetch: nat -> Option<Bytes>, slices: seq<Bytes>)
    requires Serves(suite, onFile, fetch, slices)
    ensures Fetched(suite, onFile, fetch, |slices|) == slices
  {
    var obtain := i => Obtain(suite, onFile, fetch, i);
    forall j: nat | j < |slices| ensures obtain(j) == Some(slices[j]) {
      assert fetch(j).Some?;
    }
    AllUntilFailure(obtain, slices, 0);
    assert slices[0..] == slices;
  }

  /** What a pull takes from a source that serves a file, when every file write succeeds. */
  lemma KeptAreTheSlices(suite: Suite, onFile: Option<Bytes>, fetch: nat -> Option<Bytes>, writes: nat -> FileWrite,
                         slices: seq<Bytes>)
    requires Serves(suite, onFile, fetch, slices) && forall i: nat | i < |slices| :: writes(i).Whole?
    ensures UntilFailure(Kept(i => Obtain(suite, onFile, fetch, i), writes), 0, |slices|) == slices
  {
    var kept := Kept(i => Obtain(suite, onFile, fetch, i), writes);
    forall j: nat | j < |slices| ensures kept(j) == Some(slices[j]) {
      assert fetch(j).Some?;
    }
    AllUntilFailure(kept, slices, 0);
    assert slices[0..] == slices;
  }

  /** `pull_file` with the secure header: the stored chunk, as a stream for the reader. */
  function PullFile(suite: Suite, r: Relay, onFile: Option<Bytes>, id: int, index: nat, ivs: nat -> Block)
    : Option<Bytes>
  {
    match ReadFileChunk(r, id, index)
    case Err(_) => None
    case Ok(bytes) =>
      match EncodeStreamFor(suite, onFile, bytes, ivs)
      case Err(_) => None
      case Ok(stream) => Some(stream)
  }
}
