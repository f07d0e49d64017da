/**
 * Whole runs of the file relay: any interleaving of prepares, chunk stores with retries and I/O failures,
 * completions, fan-outs, pulls and restarts.  The reference is the history of the run itself: which bytes were
 * last written to a chunk, which chunks were stored since the session was prepared, and which pull or push a file
 * id last stood for.
 */
module RelayRuns {
  import opened Prelude
  import opened Chunking
  import opened RelaySpec

  datatype Op =
    | PrepareOp(client: ClientId, paired: bool, paste: Paste, now: int, token: string, diskOk: bool)
    | StoreOp(client: ClientId, id: int, index: nat, token: string, bytes: Bytes, io: Io)
    | CompleteOp(client: ClientId, id: int, token: string)
    | FinishOp(done: Completed)
    | PullOp(now: int, count: nat, pieces: seq<Bytes>, left: Option<Bytes>)
    | RestartOp

  /** `fanouts` holds the fan-out tasks that the completion route has spawned and that are still running. */
  datatype World = World(relay: Relay, fanouts: multiset<Completed>)

  const EMPTY: World := World(Relay(map[], map[], map[], map[]), multiset{})

  /** The fan-out that a step spawns: that of the push it completes. */
  function Spawned(r: Relay, op: Op): Option<Completed> {
    if !op.CompleteOp? then None
    else
      match Complete(r, op.client, op.id, op.token).1
      case Err(_) => None
      case Ok((_, done)) => done
  }

  function Step(w: World, op: Op): World {
    World(StepRelay(w, op), StepFanouts(w, op))
  }

  function StepRelay(w: World, op: Op): Relay {
    match op
    case PrepareOp(client, paired, paste, now, token, diskOk) =>
      Prepare(w.relay, client, paired, paste, now, token, diskOk).0
    case StoreOp(client, id, index, token, bytes, io) => Store(w.relay, client, id, index, token, bytes, io).0
    case CompleteOp(client, id, token) => Complete(w.relay, client, id, token).0
    case FinishOp(done) => if done in w.fanouts then FinishFanout(w.relay, done) else w.relay
    case PullOp(now, count, pieces, left) => CachePull(w.relay, now, count, Arrived(op), left)
    case RestartOp => Restart(w.relay)
  }

  /** A task is added when it is spawned, and gone when it has finished or the process has ended. */
  function StepFanouts(w: World, op: Op): multiset<Completed> {
    match op
    case CompleteOp(_, _, _) =>
      (match Spawned(w.relay, op) case None => w.fanouts case Some(done) => w.fanouts + multiset{done})
    case FinishOp(done) => w.fanouts - multiset{done}
    case RestartOp => multiset{}
    case _ => w.fanouts
  }

  /** The pieces that a pull wrote, never more than it asked for. */
  function Arrived(op: Op): seq<Bytes>
    requires op.PullOp?
  {
    op.pieces[..Min(op.count, |op.pieces|)]
  }

  function RunFrom(w: World, ops: seq<Op>): World {
    if ops == [] then w else Step(RunFrom(w, ops[..|ops| - 1]), ops[|ops| - 1])
  }

  function Run(ops: seq<Op>): World {
    RunFrom(EMPTY, ops)
  }

  // ---------- History ----------

  /** A store of this chunk that passes: the caller owns the session, shows its token, and the index is in range. */
  predicate Stores(r: Relay, op: Op, id: int, index: nat) {
    && StoresChunk(op, id, index)
    && CheckSession(r, op.client, id, op.token).Ok?
    && index < r.sessions[id].chunkCount
  }

  predicate StoresChunk(op: Op, id: int, index: nat) {
    op.StoreOp? && op.id == id && op.index == index
  }

  /** What a step leaves in the file of a pushed chunk, if it touches it. */
  function PushedInto(r: Relay, op: Op, id: int, index: nat): Option<Bytes> {
    if Stores(r, op, id, index) then LeftBy(op.io.file, op.bytes) else None
  }

  /** What a step writes to the row of a chunk, if it does. */
  function RowInto(r: Relay, op: Op, id: int, index: nat): Option<Bytes> {
    if Stores(r, op, id, index) && op.io.Succeeds() then Some(op.bytes) else None
  }

  predicate PreparesSession(op: Op, id: int) {
    && op.PrepareOp? && op.paired && op.diskOk && op.now == id
    && AsU64(op.paste.size).Some? && AsU64(op.paste.size).value > 0
  }

  /** What the chunk's file holds: what the last accepted store that touched it left there, torn or whole. */
  function LastDiskWrite(ops: seq<Op>, id: int, index: nat): Option<Bytes> {
    if ops == [] then None
    else
      var before, op := ops[..|ops| - 1], ops[|ops| - 1];
      match PushedInto(Run(before).relay, op, id, index)
      case Some(left) => Some(left)
      case None => LastDiskWrite(before, id, index)
  }

  /** The bytes of the last accepted store of this chunk that reached the table. */
  function LastRowWrite(ops: seq<Op>, id: int, index: nat): Option<Bytes> {
    if ops == [] then None
    else
      var before, op := ops[..|ops| - 1], ops[|ops| - 1];
      match RowInto(Run(before).relay, op, id, index)
      case Some(bytes) => Some(bytes)
      case None => LastRowWrite(before, id, index)
  }

  /** Whether the chunk was stored with success since the session with this id was last prepared. */
  predicate StoredSincePrepare(ops: seq<Op>, id: int, index: nat) {
    if ops == [] then false
    else
      var before, op := ops[..|ops| - 1], ops[|ops| - 1];
      if PreparesSession(op, id) then false
      else RowInto(Run(before).relay, op, id, index).Some? || StoredSincePrepare(before, id, index)
  }

  /** What a pull leaves in the file of chunk `i`, if it touches it. */
  function PulledInto(op: Op, id: int, i: nat): Option<Bytes> {
    if !op.PullOp? || op.now != id then None
    else if i < |Arrived(op)| then Some(Arrived(op)[i])
    else if i == |Arrived(op)| < op.count then op.left
    else None
  }

  /** What the last pull under this id that touched chunk `i` left there. */
  function LastPullWrite(ops: seq<Op>, id: int, i: nat): Option<Bytes> {
    if ops == [] then None
    else if PulledInto(ops[|ops| - 1], id, i).Some? then PulledInto(ops[|ops| - 1], id, i)
    else LastPullWrite(ops[..|ops| - 1], id, i)
  }

  /** The size declared by the last prepare of this id. */
  function DeclaredSize(ops: seq<Op>, id: int): Option<nat> {
    if ops == [] then None
    else if PreparesSession(ops[|ops| - 1], id) then AsU64(ops[|ops| - 1].paste.size)
    else DeclaredSize(ops[..|ops| - 1], id)
  }

  function PrepareCount(ops: seq<Op>, id: int): nat {
    if ops == [] then 0
    else PrepareCount(ops[..|ops| - 1], id) + (if PreparesSession(ops[|ops| - 1], id) then 1 else 0)
  }

  /** How many fan-outs the pushes of this id have started. */
  function SpawnCount(ops: seq<Op>, id: int): nat {
    if ops == [] then 0
    else
      var before, op := ops[..|ops| - 1], ops[|ops| - 1];
      var spawned := Spawned(Run(before).relay, op);
      SpawnCount(before, id) + (if spawned.Some? && spawned.value.pasteId == id then 1 else 0)
  }

  // ---------- The push session machine ----------

  const MAX_CHUNKS: nat := 0x1000_0000_0000

  lemma ChunkCountBound(size: nat)
    requires size < U64_LIMIT
    ensures CeilDiv(size, FILE_CHUNK_SIZE) <= MAX_CHUNKS
  {
    CeilDivBound(size, FILE_CHUNK_SIZE, MAX_CHUNKS);
  }

  /** Every session has its own directory and one slot per chunk. */
  ghost predicate Shaped(r: Relay) {
    forall id <- r.sessions ::
      && r.sessions[id].directory == PushDir(id)
      && r.sessions[id].chunkCount == |r.sessions[id].received| <= MAX_CHUNKS
  }

  /** One step, seen from one session. */
  lemma SessionStep(w: World, op: Op, id: int)
    requires Shaped(w.relay)
    ensures
      var r, r' := w.relay, StepRelay(w, op);
      && (id in r'.sessions ==> PreparesSession(op, id) || id in r.sessions)
      && (Spawned(r, op).Some? && Spawned(r, op).value.pasteId == id ==> id in r.sessions && id !in r'.sessions)
      && (id in r'.sessions && PreparesSession(op, id) ==>
            var n := CeilDiv(AsU64(op.paste.size).value, FILE_CHUNK_SIZE);
            r'.sessions[id] == Session(op.client, op.paste, op.token, n, seq(n, _ => false), PushDir(id)))
      && (id in r'.sessions && !PreparesSession(op, id) ==>
            && r'.sessions[id].directory == r.sessions[id].directory
            && r'.sessions[id].chunkCount == r.sessions[id].chunkCount
            && |r'.sessions[id].received| == |r.sessions[id].received|
            && forall i: nat | i < |r.sessions[id].received| ::
                 r'.sessions[id].received[i] <==> r.sessions[id].received[i] || RowInto(r, op, id, i).Some?)
  {
  }

  lemma StepKeepsShape(w: World, op: Op)
    requires Shaped(w.relay)
    ensures Shaped(StepRelay(w, op))
  {
    var r' := StepRelay(w, op);
    forall id | id in r'.sessions
      ensures r'.sessions[id].directory == PushDir(id)
      ensures r'.sessions[id].chunkCount == |r'.sessions[id].received| <= MAX_CHUNKS
    {
      SessionStep(w, op, id);
      if PreparesSession(op, id) {
        ChunkCountBound(AsU64(op.paste.size).value);
      }
    }
  }

  /** One step, seen from the file of a pushed chunk. */
  lemma PushedFileStep(w: World, op: Op, id: int, i: nat)
    requires Shaped(w.relay)
    ensures
      var disk, disk' := w.relay.disk, StepRelay(w, op).disk;
      Lookup(disk', (PushDir(id), i)) == Latest(PushedInto(w.relay, op, id, i), Lookup(disk, (PushDir(id), i)))
  {
    if op.PullOp? {
      WriteFilesAt(w.relay.disk, PullDir(op.now), Arrived(op), PushDir(id), i);
    }
  }

  /** One step, seen from the file of a pulled chunk. */
  lemma PulledFileStep(w: World, op: Op, id: int, i: nat)
    requires Shaped(w.relay)
    ensures
      var disk, disk' := w.relay.disk, StepRelay(w, op).disk;
      Lookup(disk', (PullDir(id), i)) == Latest(PulledInto(op, id, i), Lookup(disk, (PullDir(id), i)))
  {
    if op.PullOp? {
      WriteFilesAt(w.relay.disk, PullDir(op.now), Arrived(op), PullDir(id), i);
    }
  }

  /** One step, seen from the row of a chunk. */
  lemma RowStep(w: World, op: Op, id: int, i: nat)
    requires Shaped(w.relay) && i < U64_LIMIT
    ensures
      var key, rows, rows' := (id, UsizeAsI64(i)), w.relay.rows, StepRelay(w, op).rows;
      Lookup(rows', key) == Latest(RowInto(w.relay, op, id, i), Lookup(rows, key))
  {
    if op.StoreOp? && Stores(w.relay, op, op.id, op.index) {
      IndexKeysDiffer(op.index, i);
    }
  }

  function Latest<T>(newer: Option<T>, older: Option<T>): Option<T> {
    if newer.Some? then newer else older
  }

  lemma {:induction false} AlwaysShaped(ops: seq<Op>)
    ensures Shaped(Run(ops).relay)
    decreases |ops|
  {
    if ops != [] {
      AlwaysShaped(ops[..|ops| - 1]);
      StepKeepsShape(Run(ops[..|ops| - 1]), ops[|ops| - 1]);
    }
  }

  /** What the history says about a live session: the size it was prepared for, and which of its slots are set. */
  ghost predicate SessionMatches(ops: seq<Op>, id: int, s: Session) {
    && DeclaredSize(ops, id).Some?
    && 0 < DeclaredSize(ops, id).value < U64_LIMIT
    && s.chunkCount == |s.received| == CeilDiv(DeclaredSize(ops, id).value, FILE_CHUNK_SIZE)
    && forall i: nat | i < |s.received| :: s.received[i] <==> StoredSincePrepare(ops, id, i)
  }

  /** In every run, the received vector of every session is exactly what the history says. */
  lemma {:induction false} ReceivedIsExact(ops: seq<Op>, id: int)
    requires id in Run(ops).relay.sessions
    ensures SessionMatches(ops, id, Run(ops).relay.sessions[id])
    decreases |ops|
  {
    var before, op := ops[..|ops| - 1], ops[|ops| - 1];
    AlwaysShaped(before);
    SessionStep(Run(before), op, id);
    if !PreparesSession(op, id) {
      ReceivedIsExact(before, id);
    }
  }

  // ---------- Who may use a session ----------

  /** All chunks of the push that `prepare` declared have been stored since. */
  ghost predicate AllStored(ops: seq<Op>, id: int, prepare: Op)
    requires PreparesSession(prepare, id)
  {
    forall i: nat | i < ChunksDeclared(prepare) :: StoredSincePrepare(ops, id, i)
  }

  function ChunksDeclared(prepare: Op): nat
    requires prepare.PrepareOp? && AsU64(prepare.paste.size).Some?
  {
    CeilDiv(AsU64(prepare.paste.size).value, FILE_CHUNK_SIZE)
  }

  /** The completion that ends a push: by the client that prepared it, with its token, and with nothing missing. */
  ghost predicate Ends(ops: seq<Op>, op: Op, id: int, prepare: Op)
    requires PreparesSession(prepare, id)
  {
    && op.CompleteOp? && op.id == id && op.client == prepare.client && op.token == prepare.token
    && AllStored(ops, id, prepare)
  }

  /** The prepare whose push is open under this id: the last one, unless the push or the process has ended since. */
  ghost function Opened(ops: seq<Op>, id: int): (r: Option<Op>)
    ensures r.Some? ==> PreparesSession(r.value, id)
  {
    if ops == [] then None
    else
      var before, op := ops[..|ops| - 1], ops[|ops| - 1];
      if PreparesSession(op, id) then Some(op)
      else if op.RestartOp? then None
      else
        match Opened(before, id)
        case None => None
        case Some(prepare) => if Ends(before, op, id, prepare) then None else Some(prepare)
  }

  /** What the session map has under an id, given the open push. */
  ghost predicate IsOpenSession(r: Relay, id: int, push: Option<Op>)
    requires push.Some? ==> PreparesSession(push.value, id)
  {
    match push
    case None => id !in r.sessions
    case Some(prepare) =>
      && id in r.sessions
      && r.sessions[id].owner == prepare.client && r.sessions[id].token == prepare.token
      && r.sessions[id].paste == prepare.paste && r.sessions[id].chunkCount == ChunksDeclared(prepare)
  }

  /** One step, seen from one session: it is prepared, lost in a restart, ended by its completion, or kept. */
  lemma OpenStep(w: World, op: Op, id: int)
    ensures
      var r, r' := w.relay, StepRelay(w, op);
      if PreparesSession(op, id) then IsOpenSession(r', id, Some(op))
      else if op.RestartOp? then id !in r'.sessions
      else
        && (id in r'.sessions <==> id in r.sessions && !(op.CompleteOp? && op.id == id && Spawned(r, op).Some?))
        && (id in r'.sessions ==>
              r'.sessions[id].owner == r.sessions[id].owner && r'.sessions[id].token == r.sessions[id].token
              && r'.sessions[id].paste == r.sessions[id].paste
              && r'.sessions[id].chunkCount == r.sessions[id].chunkCount)
  {
  }

  lemma EndsExactly(ops: seq<Op>, op: Op, id: int, prepare: Op)
    requires PreparesSession(prepare, id) && IsOpenSession(Run(ops).relay, id, Some(prepare))
    ensures Ends(ops, op, id, prepare) <==> op.CompleteOp? && op.id == id && Spawned(Run(ops).relay, op).Some?
  {
    ReceivedIsExact(ops, id);
    AlwaysShaped(ops);
    if op.CompleteOp? && op.id == id && CheckSession(Run(ops).relay, op.client, id, op.token).Ok? {
      CompleteExactlyWhenAllReceived(Run(ops).relay, op.client, id, op.token);
    }
  }

  /** In every run, an id has a session exactly while its push is open, and the session is what the prepare made it. */
  lemma {:induction false} SessionIsOpenPush(ops: seq<Op>, id: int)
    ensures IsOpenSession(Run(ops).relay, id, Opened(ops, id))
    decreases |ops|
  {
    if ops != [] {
      var before, op := ops[..|ops| - 1], ops[|ops| - 1];
      SessionIsOpenPush(before, id);
      OpenStep(Run(before), op, id);
      if Opened(before, id).Some? {
        EndsExactly(before, op, id, Opened(before, id).value);
      }
    }
  }

  /** What the checks of a store or completion say, by the history: no open push, another client, or another token. */
  ghost function Refusal(ops: seq<Op>, client: ClientId, id: int, token: string): Option<RelayError> {
    match Opened(ops, id)
    case None => Some(SessionNotFound)
    case Some(prepare) =>
      if prepare.client != client then Some(OwnerMismatch)
      else if prepare.token != token then Some(InvalidToken)
      else None
  }

  /** The reply to every store, in every run. */
  lemma StoreAnswersExactly(ops: seq<Op>, client: ClientId, id: int, index: nat, token: string, bytes: Bytes, io: Io)
    ensures Store(Run(ops).relay, client, id, index, token, bytes, io).1 ==
            match Refusal(ops, client, id, token)
            case Some(e) => Err(e)
            case None =>
              if index >= ChunksDeclared(Opened(ops, id).value) then Err(IndexOutOfRange)
              else if !io.file.Whole? then Err(DiskError)
              else if !io.rowOk then Err(DatabaseError)
              else Ok(())
  {
    SessionIsOpenPush(ops, id);
    AlwaysShaped(ops);
  }

  /**
   * The reply to every completion, in every run.  The client that prepared the push, showing its token, is told exactly
   * the chunks not stored since, in ascending order; the push is handed over exactly when there are none.
   */
  lemma CompleteAnswersExactly(ops: seq<Op>, client: ClientId, id: int, token: string)
    ensures
      var reply := Complete(Run(ops).relay, client, id, token).1;
      match Refusal(ops, client, id, token)
      case Some(e) => reply == Err(e)
      case None =>
        var prepare := Opened(ops, id).value;
        && reply.Ok?
        && var (missing, handedOver) := reply.value;
           && (forall j: nat :: j in missing <==> j < ChunksDeclared(prepare) && !StoredSincePrepare(ops, id, j))
           && (forall a, b | 0 <= a < b < |missing| :: missing[a] < missing[b])
           && handedOver == if missing != [] then None
                            else Some(Completed(id, client, prepare.paste, ChunksDeclared(prepare), PushDir(id)))
  {
    SessionIsOpenPush(ops, id);
    AlwaysShaped(ops);
    if Refusal(ops, client, id, token).None? {
      ReceivedIsExact(ops, id);
      CompleteReportsTheMissing(Run(ops).relay, client, id, token);
    }
  }

  /** The reply to every prepare: who may, what is refused, and one chunk slot for each chunk of such a file. */
  lemma PrepareAnswersExactly(r: Relay, client: ClientId, paired: bool, paste: Paste, now: int, token: string,
                              diskOk: bool, file: Bytes)
    ensures
      var (r', reply) := Prepare(r, client, paired, paste, now, token, diskOk);
      && (reply.Ok? <==> PreparesSession(PrepareOp(client, paired, paste, now, token, diskOk), now))
      && (reply.Ok? && AsU64(paste.size) == Some(|file|) ==>
            reply.value == PrepareResponse(now, |Chunks(file, FILE_CHUNK_SIZE)|, 1024 * 1024, token))
      && (reply.Err? ==> r' == r)
      && (reply == Err(Unpaired) <==> !paired)
      && (reply == Err(MissingSize) <==> paired && AsU64(paste.size).None?)
      && (reply == Err(ZeroSize) <==> paired && AsU64(paste.size) == Some(0))
      && (reply.Err? ==> reply.error in {Unpaired, MissingSize, ZeroSize, DiskError})
  {
    ChunkCount(file, FILE_CHUNK_SIZE);
  }

  // ---------- The two stores ----------

  /** In every run, both stores hold the last bytes that reached them, and nothing else. */
  lemma {:induction false} StoresHoldLastWrites(ops: seq<Op>, id: int, index: nat)
    requires index < U64_LIMIT
    ensures Lookup(Run(ops).relay.disk, (PushDir(id), index)) == LastDiskWrite(ops, id, index)
    ensures Lookup(Run(ops).relay.rows, (id, UsizeAsI64(index))) == LastRowWrite(ops, id, index)
    decreases |ops|
  {
    if ops != [] {
      StoresHoldLastWrites(ops[..|ops| - 1], id, index);
      AlwaysShaped(ops[..|ops| - 1]);
      PushedFileStep(Run(ops[..|ops| - 1]), ops[|ops| - 1], id, index);
      RowStep(Run(ops[..|ops| - 1]), ops[|ops| - 1], id, index);
    }
  }

  /** A chunk that the history counts as stored has been written to both stores. */
  lemma {:induction false} StoredMeansWritten(ops: seq<Op>, id: int, index: nat)
    requires StoredSincePrepare(ops, id, index)
    ensures LastRowWrite(ops, id, index).Some? && LastDiskWrite(ops, id, index).Some?
    decreases |ops|
  {
    var before, op := ops[..|ops| - 1], ops[|ops| - 1];
    if RowInto(Run(before).relay, op, id, index).None? {
      StoredMeansWritten(before, id, index);
    }
  }

  // ---------- End to end: what a completed push contains ----------

  /** The last bytes stored for each of the first `n` chunks. */
  function LastWrites(ops: seq<Op>, id: int, n: nat): seq<Bytes>
    requires forall i: nat | i < n :: LastDiskWrite(ops, id, i).Some?
  {
    seq(n, i requires 0 <= i < n => LastDiskWrite(ops, id, i).value)
  }

  /** The outcome of completing this push now, when it succeeds. */
  ghost predicate Completes(ops: seq<Op>, client: ClientId, id: int, token: string, done: Completed) {
    Complete(Run(ops).relay, client, id, token).1 == Ok(([], Some(done)))
  }

  lemma CompletionFacts(ops: seq<Op>, client: ClientId, id: int, token: string, done: Completed)
    requires Completes(ops, client, id, token, done)
    ensures DeclaredSize(ops, id).Some?
    ensures done.pasteId == id && done.directory == PushDir(id)
    ensures 0 < done.chunkCount == CeilDiv(DeclaredSize(ops, id).value, FILE_CHUNK_SIZE) <= MAX_CHUNKS
    ensures forall i: nat | i < done.chunkCount ::
              StoredSincePrepare(ops, id, i) && LastRowWrite(ops, id, i).Some? && LastDiskWrite(ops, id, i).Some?
  {
    ReceivedIsExact(ops, id);
    AlwaysShaped(ops);
    CompleteExactlyWhenAllReceived(Run(ops).relay, client, id, token);
    CeilDivIsLeastCover(DeclaredSize(ops, id).value, FILE_CHUNK_SIZE);
    forall i: nat | i < done.chunkCount
      ensures StoredSincePrepare(ops, id, i) && LastRowWrite(ops, id, i).Some? && LastDiskWrite(ops, id, i).Some?
    {
      StoredMeansWritten(ops, id, i);
    }
  }

  /** Once a session is gone, nothing but a new prepare of the same id can touch its directory or its rows. */
  lemma {:induction false} GoneMeansFrozen(ops: seq<Op>, more: seq<Op>, id: int, index: nat)
    requires index < U64_LIMIT
    requires id !in Run(ops).relay.sessions
    requires forall op <- more :: !PreparesSession(op, id)
    ensures
      var r, r' := Run(ops).relay, Run(ops + more).relay;
      && id !in r'.sessions
      && Lookup(r'.disk, (PushDir(id), index)) == Lookup(r.disk, (PushDir(id), index))
      && Lookup(r'.rows, (id, UsizeAsI64(index))) == Lookup(r.rows, (id, UsizeAsI64(index)))
    decreases |more|
  {
    if more == [] {
      assert ops + more == ops;
    } else {
      var before, op := more[..|more| - 1], more[|more| - 1];
      assert op in more;
      GoneMeansFrozen(ops, before, id, index);
      assert (ops + more)[..|ops + more| - 1] == ops + before;
      StepKeepsOtherPushes(ops + before, op, id, index);
    }
  }

  lemma StepKeepsOtherPushes(before: seq<Op>, op: Op, id: int, index: nat)
    requires index < U64_LIMIT
    requires id !in Run(before).relay.sessions && !PreparesSession(op, id)
    ensures
      var r, r' := Run(before).relay, Step(Run(before), op).relay;
      && id !in r'.sessions
      && Lookup(r'.disk, (PushDir(id), index)) == Lookup(r.disk, (PushDir(id), index))
      && Lookup(r'.rows, (id, UsizeAsI64(index))) == Lookup(r.rows, (id, UsizeAsI64(index)))
  {
    AlwaysShaped(before);
    SessionStep(Run(before), op, id);
    PushedFileStep(Run(before), op, id, index);
    RowStep(Run(before), op, id, index);
  }

  /**
   * Completion is final.  Whatever happens next, short of a new push under the same id, the session stays
   * refused, the completed push reads as the concatenation of the last bytes stored for each chunk, and
   * each chunk is served as the last bytes that reached the table, before and after the fan-out and a restart.
   */
  lemma CompletedPushIsFinal(ops: seq<Op>, client: ClientId, id: int, token: string, done: Completed, more: seq<Op>)
    requires Completes(ops, client, id, token, done)
    requires forall op <- more :: !PreparesSession(op, id)
    ensures forall i: nat | i < done.chunkCount :: LastDiskWrite(ops, id, i).Some? && LastRowWrite(ops, id, i).Some?
    ensures
      var r := Run(ops + [CompleteOp(client, id, token)] + more).relay;
      && (forall c, t :: CheckSession(r, c, id, t) == Err(SessionNotFound))
      && ReadCompleted(r, done) == Ok(Join(LastWrites(ops, id, done.chunkCount)))
      && (forall i: nat | i < done.chunkCount :: ReadFileChunk(r, id, i) == Ok(LastRowWrite(ops, id, i).value))
  {
    CompletionFacts(ops, client, id, token, done);
    var closed := ops + [CompleteOp(client, id, token)];
    assert closed[..|closed| - 1] == ops;
    CompleteExactlyWhenAllReceived(Run(ops).relay, client, id, token);
    var r := Run(closed + more).relay;
    GoneMeansFrozen(closed, more, id, 0);
    var pieces := LastWrites(ops, id, done.chunkCount);
    forall i: nat | i < done.chunkCount
      ensures Lookup(r.disk, (PushDir(id), i)) == Some(pieces[i])
      ensures ReadFileChunk(r, id, i) == Ok(LastRowWrite(ops, id, i).value)
    {
      StoresHoldLastWrites(ops, id, i);
      GoneMeansFrozen(closed, more, id, i);
    }
    ReadFilesJoins(r.disk, PushDir(id), pieces, 0);
    assert pieces[0..] == pieces;
  }

  /**
   * End to end.  A client declares |F|, stores chunks in any order and with any repetition, and completes.
   * If the last store of every chunk is the slice of F at its place, the relay reads back exactly F; and when
   * the last stores at least have the right lengths, that condition is also necessary.
   */
  lemma PushDeliversTheFile(ops: seq<Op>, client: ClientId, id: int, token: string, done: Completed,
                            file: Bytes, more: seq<Op>)
    requires Completes(ops, client, id, token, done)
    requires DeclaredSize(ops, id) == Some(|file|)
    requires forall op <- more :: !PreparesSession(op, id)
    ensures done.chunkCount == |Chunks(file, FILE_CHUNK_SIZE)|
    ensures forall i: nat | i < done.chunkCount :: LastDiskWrite(ops, id, i).Some?
    ensures
      var r := Run(ops + [CompleteOp(client, id, token)] + more).relay;
      var slices := Chunks(file, FILE_CHUNK_SIZE);
      var inPlace := forall i: nat | i < |slices| :: LastDiskWrite(ops, id, i) == Some(slices[i]);
      var rightLengths := forall i: nat | i < |slices| :: |LastDiskWrite(ops, id, i).value| == |slices[i]|;
      && (inPlace ==> ReadCompleted(r, done) == Ok(file))
      && (rightLengths && ReadCompleted(r, done) == Ok(file) ==> inPlace)
  {
    CompletionFacts(ops, client, id, token, done);
    CompletedPushIsFinal(ops, client, id, token, done, more);
    ChunkCount(file, FILE_CHUNK_SIZE);
    JoinChunks(file, FILE_CHUNK_SIZE);
    var slices := Chunks(file, FILE_CHUNK_SIZE);
    var pieces := LastWrites(ops, id, done.chunkCount);
    if forall i: nat | i < |slices| :: LastDiskWrite(ops, id, i) == Some(slices[i]) {
      assert pieces == slices;
    }
    if Join(pieces) == file && forall i: nat | i < |slices| :: |pieces[i]| == |slices[i]| {
      ChunksWellSplit(file, FILE_CHUNK_SIZE);
      assert WellSplit(pieces, FILE_CHUNK_SIZE);
      WellSplitIsChunks(pieces, FILE_CHUNK_SIZE);
      forall i: nat | i < |slices| ensures LastDiskWrite(ops, id, i) == Some(slices[i]) {
        assert pieces[i] == slices[i];
      }
    }
  }

  /**
   * The two stores of a completed push agree on a chunk exactly when what the last store that touched the file left
   * there is what the last successful store wrote.  Which stores break that is StoreSplitsExactly.
   */
  lemma TwoStoresAgreeExactly(ops: seq<Op>, client: ClientId, id: int, token: string, done: Completed,
                              more: seq<Op>, i: nat)
    requires Completes(ops, client, id, token, done) && i < done.chunkCount
    requires forall op <- more :: !PreparesSession(op, id)
    ensures
      var r := Run(ops + [CompleteOp(client, id, token)] + more).relay;
      && (PushDir(id), i) in r.disk
      && (ReadFileChunk(r, id, i) == Ok(r.disk[(PushDir(id), i)]) <==>
            LastDiskWrite(ops, id, i) == LastRowWrite(ops, id, i))
  {
    CompletionFacts(ops, client, id, token, done);
    CompletedPushIsFinal(ops, client, id, token, done, more);
    var closed := ops + [CompleteOp(client, id, token)];
    assert closed[..|closed| - 1] == ops;
    CompleteExactlyWhenAllReceived(Run(ops).relay, client, id, token);
    StoresHoldLastWrites(ops, id, i);
    GoneMeansFrozen(closed, more, id, i);
  }

  lemma OneMoreWrite(ops: seq<Op>, op: Op, id: int, i: nat)
    ensures LastDiskWrite(ops + [op], id, i) == Latest(PushedInto(Run(ops).relay, op, id, i), LastDiskWrite(ops, id, i))
    ensures LastRowWrite(ops + [op], id, i) == Latest(RowInto(Run(ops).relay, op, id, i), LastRowWrite(ops, id, i))
  {
    assert (ops + [op])[..|ops|] == ops;
  }

  /** After a store of the chunk the two histories are the same if and only if one of three things holds. */
  lemma StoreSplitsExactly(ops: seq<Op>, op: Op, id: int, i: nat)
    requires Stores(Run(ops).relay, op, id, i)
    ensures LastDiskWrite(ops + [op], id, i) == LastRowWrite(ops + [op], id, i) <==>
            || op.io.Succeeds()
            || (op.io.file.Unopened? && LastDiskWrite(ops, id, i) == LastRowWrite(ops, id, i))
            || (!op.io.file.Unopened? && LeftBy(op.io.file, op.bytes) == LastRowWrite(ops, id, i))
  {
    OneMoreWrite(ops, op, id, i);
  }

  /** A store of this chunk that fails after its file was opened. */
  predicate FailsLate(op: Op, id: int, index: nat) {
    StoresChunk(op, id, index) && !op.io.Succeeds() && !op.io.file.Unopened?
  }

  lemma OneMoreAgrees(ops: seq<Op>, op: Op, id: int, i: nat)
    requires LastDiskWrite(ops, id, i) == LastRowWrite(ops, id, i) && !FailsLate(op, id, i)
    ensures LastDiskWrite(ops + [op], id, i) == LastRowWrite(ops + [op], id, i)
  {
    OneMoreWrite(ops, op, id, i);
  }

  /** Stores that succeed, or fail before the file is opened, never take two agreeing stores apart. */
  lemma OnlyLateFailuresSplit(ops: seq<Op>, more: seq<Op>, id: int, i: nat)
    requires LastDiskWrite(ops, id, i) == LastRowWrite(ops, id, i)
    requires forall op <- more :: !FailsLate(op, id, i)
    ensures LastDiskWrite(ops + more, id, i) == LastRowWrite(ops + more, id, i)
  {
    var agrees := run => LastDiskWrite(run, id, i) == LastRowWrite(run, id, i);
    var allowed := op => !FailsLate(op, id, i);
    forall before, op | agrees(before) && allowed(op) ensures agrees(before + [op]) {
      OneMoreAgrees(before, op, id, i);
    }
    AllowedStepsKeep(agrees, allowed, ops, more);
    assert agrees(ops + more);
  }

  const ONE_BYTE: Paste := Paste(None, Some(3), Some(1), "")

  /** A one-chunk push whose only chunk is stored as `x`, then again as `y` with trouble. */
  function RetryThatFails(client: ClientId, id: int, token: string, x: Bytes, y: Bytes, io: Io): seq<Op> {
    [PrepareOp(client, true, ONE_BYTE, id, token, true),
     StoreOp(client, id, 0, token, x, SUCCEEDS),
     StoreOp(client, id, 0, token, y, io)]
  }

  lemma AfterTheRetry(client: ClientId, id: int, token: string, x: Bytes, y: Bytes, io: Io)
    requires !io.Succeeds() && !io.file.Unopened?
    ensures
      var ops := RetryThatFails(client, id, token, x, y, io);
      && Run(ops).relay.sessions == map[id := Session(client, ONE_BYTE, token, 1, [true], PushDir(id))]
      && LastDiskWrite(ops, id, 0) == LeftBy(io.file, y)
      && LastRowWrite(ops, id, 0) == Some(x)
  {
    var ops := RetryThatFails(client, id, token, x, y, io);
    var none: seq<Op> := [];
    var one, two := [ops[0]], [ops[0], ops[1]];
    assert one[..0] == none && two[..1] == one && ops[..2] == two;
    CeilDivSmall(1, FILE_CHUNK_SIZE);
    assert seq(1, _ => false) == [false];
    assert Run(one) == Step(Run(none), ops[0]);
    assert Run(one).relay.sessions == map[id := Session(client, ONE_BYTE, token, 1, [false], PushDir(id))];
    assert Run(two) == Step(Run(one), ops[1]);
    assert [false][0 := true] == [true];
    assert Run(two).relay.sessions == map[id := Session(client, ONE_BYTE, token, 1, [true], PushDir(id))];
    assert Run(ops) == Step(Run(two), ops[2]);
    assert LastRowWrite(two, id, 0) == Some(x);
  }

  /** Every late failure is felt: the push completes, the first store is served, the retry's leftover is forwarded. */
  lemma LateFailureIsFelt(client: ClientId, id: int, token: string, x: Bytes, y: Bytes, io: Io)
    requires !io.Succeeds() && !io.file.Unopened?
    ensures
      var ops := RetryThatFails(client, id, token, x, y, io);
      var done := Completed(id, client, ONE_BYTE, 1, PushDir(id));
      var r := Run(ops + [CompleteOp(client, id, token)]).relay;
      && Completes(ops, client, id, token, done)
      && ReadFileChunk(r, id, 0) == Ok(x)
      && ReadCompleted(r, done) == Ok(LeftBy(io.file, y).value)
  {
    var ops := RetryThatFails(client, id, token, x, y, io);
    AfterTheRetry(client, id, token, x, y, io);
    assert MissingFrom([true], 1) == [];
    assert MissingFrom([true], 0) == [];
    var done := Completed(id, client, ONE_BYTE, 1, PushDir(id));
    assert Completes(ops, client, id, token, done);
    CompletedPushIsFinal(ops, client, id, token, done, []);
    assert ops + [CompleteOp(client, id, token)] + [] == ops + [CompleteOp(client, id, token)];
    var pieces := LastWrites(ops, id, 1);
    assert pieces == [LeftBy(io.file, y).value] && pieces[1..] == [];
    assert Join(pieces) == pieces[0] + Join(pieces[1..]) == pieces[0];
    assert ReadCompleted(Run(ops + [CompleteOp(client, id, token)]).relay, done) == Ok(pieces[0]);
  }

  /** A retry with other bytes that fails at the database: the retry is forwarded, the first store served. */
  lemma DatabaseFailureSplitsTheStores(client: ClientId, id: int, token: string, x: Bytes, y: Bytes)
    ensures
      var ops := RetryThatFails(client, id, token, x, y, Io(Whole, false));
      var done := Completed(id, client, ONE_BYTE, 1, PushDir(id));
      var r := Run(ops + [CompleteOp(client, id, token)]).relay;
      Completes(ops, client, id, token, done) && ReadFileChunk(r, id, 0) == Ok(x) && ReadCompleted(r, done) == Ok(y)
  {
    LateFailureIsFelt(client, id, token, x, y, Io(Whole, false));
  }

  /**
   * A retry with the very same bytes whose file write fails after `kept` of them: the chunk counts as received from
   * the first store, so the push completes, and what is forwarded is cut short.
   */
  lemma DiskFailureTruncatesTheFile(client: ClientId, id: int, token: string, x: Bytes, kept: nat, rowOk: bool)
    requires kept < |x|
    ensures
      var ops := RetryThatFails(client, id, token, x, x, Io(Torn(kept), rowOk));
      var done := Completed(id, client, ONE_BYTE, 1, PushDir(id));
      var r := Run(ops + [CompleteOp(client, id, token)]).relay;
      && Completes(ops, client, id, token, done)
      && ReadFileChunk(r, id, 0) == Ok(x) && ReadCompleted(r, done) == Ok(x[..kept]) && x[..kept] != x
  {
    LateFailureIsFelt(client, id, token, x, x, Io(Torn(kept), rowOk));
  }

  // ---------- Fan-out

  /** Each prepare starts at most one fan-out: a live session is a fan-out not yet spent. */
  lemma {:induction false} FanoutsAreBounded(ops: seq<Op>, id: int)
    ensures SpawnCount(ops, id) + (if id in Run(ops).relay.sessions then 1 else 0) <= PrepareCount(ops, id)
    decreases |ops|
  {
    if ops != [] {
      FanoutsAreBounded(ops[..|ops| - 1], id);
      AlwaysShaped(ops[..|ops| - 1]);
      SessionStep(Run(ops[..|ops| - 1]), ops[|ops| - 1], id);
    }
  }

  /** What a running fan-out works on: a push whose chunks are all in the table. */
  ghost predicate Backed(ops: seq<Op>, done: Completed) {
    && done.directory == PushDir(done.pasteId)
    && PrepareCount(ops, done.pasteId) > 0
    && forall i: nat | i < done.chunkCount :: LastRowWrite(ops, done.pasteId, i).Some?
  }

  lemma BackedLater(ops: seq<Op>, op: Op, done: Completed)
    requires Backed(ops, done)
    ensures Backed(ops + [op], done)
  {
    assert (ops + [op])[..|ops|] == ops;
    forall i: nat | i < done.chunkCount ensures LastRowWrite(ops + [op], done.pasteId, i).Some? {
      assert LastRowWrite(ops, done.pasteId, i).Some?;
    }
  }

  lemma SpawnedIsBacked(ops: seq<Op>, op: Op)
    requires Spawned(Run(ops).relay, op).Some?
    ensures Backed(ops, Spawned(Run(ops).relay, op).value)
  {
    CompletionFacts(ops, op.client, op.id, op.token, Spawned(Run(ops).relay, op).value);
    FanoutsAreBounded(ops, op.id);
  }

  lemma {:induction false} FanoutsAreBacked(ops: seq<Op>)
    ensures forall done <- Run(ops).fanouts :: Backed(ops, done)
    decreases |ops|
  {
    if ops != [] {
      var before, op := ops[..|ops| - 1], ops[|ops| - 1];
      FanoutsAreBacked(before);
      assert before + [op] == ops;
      forall done | done in Run(ops).fanouts ensures Backed(ops, done) {
        if Spawned(Run(before).relay, op) == Some(done) {
          SpawnedIsBacked(before, op);
        } else {
          assert done in Run(before).fanouts;
        }
        BackedLater(before, op, done);
      }
    }
  }

  // ---------- What is served ----------

  /** What an id stands for in the index of stored files. */
  datatype Source = Pulled(count: nat) | Pushed(count: nat)

  predicate Covers(source: Option<Source>, i: nat) {
    source.Some? && source.value.Pulled? && i < source.value.count
  }

  /** The last finished fan-out or complete pull of this id since the last restart. */
  function LastIndexed(ops: seq<Op>, id: int): Option<Source> {
    if ops == [] then None
    else
      var before, op := ops[..|ops| - 1], ops[|ops| - 1];
      if op.RestartOp? then None else Latest(IndexedBy(Run(before), op, id), LastIndexed(before, id))
  }

  lemma {:induction false} DiskHoldsLastPull(ops: seq<Op>, id: int, i: nat)
    ensures Lookup(Run(ops).relay.disk, (PullDir(id), i)) == LastPullWrite(ops, id, i)
    decreases |ops|
  {
    if ops != [] {
      DiskHoldsLastPull(ops[..|ops| - 1], id, i);
      AlwaysShaped(ops[..|ops| - 1]);
      PulledFileStep(Run(ops[..|ops| - 1]), ops[|ops| - 1], id, i);
    }
  }

  /** What a step files an id under, if it does. */
  function IndexedBy(w: World, op: Op, id: int): Option<Source> {
    match op
    case PullOp(now, count, pieces, _) => if now == id && |pieces| >= count then Some(Pulled(count)) else None
    case FinishOp(done) => if done.pasteId == id && done in w.fanouts then Some(Pushed(done.chunkCount)) else None
    case _ => None
  }

  function StoredAs(source: Option<Source>, id: int): Option<Stored> {
    match source
    case None => None
    case Some(Pulled(count)) => Some(Stored(PullDir(id), count))
    case Some(Pushed(count)) => Some(Stored(PushDir(id), count))
  }

  lemma IndexStep(w: World, op: Op, id: int)
    requires forall done <- w.fanouts :: done.directory == PushDir(done.pasteId)
    ensures Lookup(StepRelay(w, op).stored, id) ==
            if op.RestartOp? then None
            else Latest(StoredAs(IndexedBy(w, op, id), id), Lookup(w.relay.stored, id))
  {
  }

  /** The chunks behind an index entry: files of the pulls, or rows of the push. */
  ghost predicate Present(ops: seq<Op>, id: int, source: Option<Source>) {
    match source
    case None => true
    case Some(Pulled(count)) => forall i: nat | i < count :: LastPullWrite(ops, id, i).Some?
    case Some(Pushed(count)) => forall i: nat | i < count :: LastRowWrite(ops, id, i).Some?
  }

  lemma {:induction false} IndexIsExact(ops: seq<Op>, id: int)
    ensures Lookup(Run(ops).relay.stored, id) == StoredAs(LastIndexed(ops, id), id)
    decreases |ops|
  {
    if ops != [] {
      var before, op := ops[..|ops| - 1], ops[|ops| - 1];
      IndexIsExact(before, id);
      FanoutsAreBacked(before);
      IndexStep(Run(before), op, id);
    }
  }

  lemma {:induction false} IndexedIsPresent(ops: seq<Op>, id: int)
    ensures Present(ops, id, LastIndexed(ops, id))
    decreases |ops|
  {
    if ops != [] {
      var before, op := ops[..|ops| - 1], ops[|ops| - 1];
      IndexedIsPresent(before, id);
      PresentLater(before, op, id, LastIndexed(before, id));
      assert before + [op] == ops;
      if op.FinishOp? && op.done in Run(before).fanouts {
        FanoutsAreBacked(before);
        BackedLater(before, op, op.done);
      }
    }
  }

  lemma PresentLater(ops: seq<Op>, op: Op, id: int, source: Option<Source>)
    requires Present(ops, id, source)
    ensures Present(ops + [op], id, source)
  {
    assert (ops + [op])[..|ops|] == ops;
    if source.Some? {
      forall i: nat | i < source.value.count && LastPullWrite(ops, id, i).Some?
        ensures LastPullWrite(ops + [op], id, i).Some?
      {
      }
      forall i: nat | i < source.value.count && LastRowWrite(ops, id, i).Some?
        ensures LastRowWrite(ops + [op], id, i).Some?
      {
      }
    }
  }

  /**
   * What the history says about a request for a chunk: the last row, if there is one; otherwise the bytes of the last
   * pull, if the id last stood for a pull with that many chunks.
   */
  function Served(ops: seq<Op>, id: int, i: nat): Result<Bytes, RelayError> {
    match LastRowWrite(ops, id, i)
    case Some(bytes) => Ok(bytes)
    case None =>
      if LastIndexed(ops, id).None? then Err(FileNotFound)
      else if !Covers(LastIndexed(ops, id), i) then Err(IndexOutOfRange)
      else
        match LastPullWrite(ops, id, i)
        case Some(bytes) => Ok(bytes)
        case None => Err(DiskError)
  }

  /** In every run, every request for a chunk is answered as the history says, and never for want of its file. */
  lemma ServedExactly(ops: seq<Op>, id: int, i: nat)
    requires i < U64_LIMIT
    ensures ReadFileChunk(Run(ops).relay, id, i) == Served(ops, id, i) && Served(ops, id, i) != Err(DiskError)
  {
    StoresHoldLastWrites(ops, id, i);
    DiskHoldsLastPull(ops, id, i);
    IndexIsExact(ops, id);
    IndexedIsPresent(ops, id);
    assert Lookup(Run(ops).relay.rows, (id, UsizeAsI64(i))) == LastRowWrite(ops, id, i);
    assert Lookup(Run(ops).relay.disk, (PullDir(id), i)) == LastPullWrite(ops, id, i);
  }

  // ---------- Pulled files ----------

  /** A complete pull of a file. */
  function PullOf(now: int, file: Bytes): Op {
    PullOp(now, |Chunks(file, FILE_CHUNK_SIZE)|, Chunks(file, FILE_CHUNK_SIZE), None)
  }

  lemma {:induction false} LastPullWriteAfter(ops: seq<Op>, more: seq<Op>, id: int, i: nat)
    ensures LastPullWrite(ops + more, id, i) ==
            if LastPullWrite(more, id, i).Some? then LastPullWrite(more, id, i) else LastPullWrite(ops, id, i)
    decreases |more|
  {
    if more == [] {
      assert ops + more == ops;
    } else {
      LastPullWriteAfter(ops, more[..|more| - 1], id, i);
      assert (ops + more)[..|ops + more| - 1] == ops + more[..|more| - 1];
    }
  }

  /**
   * A pulled file is kept under a paste id that is just the time.  However the run goes on, chunk i is served as
   * pulled if and only if the table's row for it, if any, has the same bytes; and without a row, if the id last stood
   * for a pull that covers i, and no later pull under the id left other bytes in its file.
   */
  lemma PullIsServedExactly(ops: seq<Op>, now: int, file: Bytes, more: seq<Op>, i: nat)
    requires i < |Chunks(file, FILE_CHUNK_SIZE)| && i < U64_LIMIT
    ensures
      var all, slice := ops + [PullOf(now, file)] + more, Chunks(file, FILE_CHUNK_SIZE)[i];
      ReadFileChunk(Run(all).relay, now, i) == Ok(slice) <==>
        match LastRowWrite(all, now, i)
        case Some(bytes) => bytes == slice
        case None => Covers(LastIndexed(all, now), i) && LastPullWrite(more, now, i) in {None, Some(slice)}
  {
    var pull := PullOf(now, file);
    ServedExactly(ops + [pull] + more, now, i);
    LastPullWriteAfter(ops + [pull], more, now, i);
    assert (ops + [pull])[|ops|] == pull;
    assert Arrived(pull) == Chunks(file, FILE_CHUNK_SIZE);
  }

  lemma {:induction false} NoPrepareNoRows(ops: seq<Op>, id: int, i: nat)
    requires PrepareCount(ops, id) == 0
    ensures LastRowWrite(ops, id, i) == None && id !in Run(ops).relay.sessions
    decreases |ops|
  {
    FanoutsAreBounded(ops, id);
    if ops != [] {
      NoPrepareNoRows(ops[..|ops| - 1], id, i);
    }
  }

  /** A run that neither pushes nor pulls under this id, and does not restart the server. */
  predicate LeavesAlone(op: Op, id: int) {
    !PreparesSession(op, id) && !op.RestartOp? && (op.PullOp? ==> op.now != id)
  }

  lemma {:induction false} QuietRunKeepsIndex(ops: seq<Op>, more: seq<Op>, id: int, i: nat)
    requires PrepareCount(ops, id) == 0 && forall op <- more :: LeavesAlone(op, id)
    ensures PrepareCount(ops + more, id) == 0 && LastPullWrite(more, id, i) == None
    ensures LastIndexed(ops + more, id) == LastIndexed(ops, id)
    decreases |more|
  {
    if more == [] {
      assert ops + more == ops;
    } else {
      var before, op := ops + more[..|more| - 1], more[|more| - 1];
      assert op in more;
      QuietRunKeepsIndex(ops, more[..|more| - 1], id, i);
      assert (ops + more)[..|ops + more| - 1] == before;
      FanoutsAreBacked(before);
    }
  }

  /** With a fresh id, a pulled file stays served chunk by chunk for as long as the process lives. */
  lemma PulledFileStaysServed(ops: seq<Op>, now: int, file: Bytes, more: seq<Op>, i: nat)
    requires PrepareCount(ops, now) == 0
    requires forall op <- more :: LeavesAlone(op, now)
    requires i < |Chunks(file, FILE_CHUNK_SIZE)| && i < U64_LIMIT
    ensures ReadFileChunk(Run(ops + [PullOf(now, file)] + more).relay, now, i) == Ok(Chunks(file, FILE_CHUNK_SIZE)[i])
  {
    var pulled := ops + [PullOf(now, file)];
    assert pulled[..|ops|] == ops;
    QuietRunKeepsIndex(pulled, more, now, i);
    NoPrepareNoRows(pulled + more, now, i);
    PullIsServedExactly(ops, now, file, more, i);
  }

  /** A push and a pull in the same millisecond, and the pull is served the push's bytes. */
  lemma SameMillisecondMixesFiles()
    ensures
      var ops := [PrepareOp("a", true, ONE_BYTE, 7, "t", true),
                  StoreOp("a", 7, 0, "t", [1], SUCCEEDS),
                  PullOf(7, [2])];
      ReadFileChunk(Run(ops).relay, 7, 0) == Ok([1])
  {
    var p := PrepareOp("a", true, ONE_BYTE, 7, "t", true);
    var s := StoreOp("a", 7, 0, "t", [1], SUCCEEDS);
    var q := PullOf(7, [2]);
    assert [p, s, q][..2] == [p, s];
    assert [p, s][..1] == [p];
    assert [p][..0] == [];
    CeilDivSmall(1, FILE_CHUNK_SIZE);
    assert Run([p]).relay.sessions[7] == Session("a", ONE_BYTE, "t", 1, [false], PushDir(7));
    assert (7, 0) in Run([p, s]).relay.rows;
  }

  /**
   * Two pulls in the same millisecond, and the first file is served with the second one's bytes, whether the second
   * pull was complete (`count` is 1) or failed after its first chunk.
   */
  lemma SecondPullMixesFiles(now: int, x: Bytes, y: Bytes, count: nat)
    requires count > 0
    ensures
      var ops := [PullOp(now, 1, [x], None), PullOp(now, count, [y], None)];
      ReadFileChunk(Run(ops).relay, now, 0) == Ok(y)
  {
    var first, second := PullOp(now, 1, [x], None), PullOp(now, count, [y], None);
    var ops := [first, second];
    var none: seq<Op> := [];
    assert ops[..1] == [first] && [first][..0] == none;
    assert PrepareCount([first], now) == PrepareCount(none, now) == 0;
    NoPrepareNoRows(ops, now, 0);
    assert LastIndexed([first], now) == Some(Pulled(1));
    ServedExactly(ops, now, 0);
  }

  /**
   * After a restart exactly what reached the table is served, whether its push was completed or not; a pulled
   * file, which never reaches the table, is forgotten although its chunks are still on disk.
   */
  lemma RestartServesExactlyTheRows(ops: seq<Op>, id: int, i: nat)
    requires i < U64_LIMIT
    ensures ReadFileChunk(Run(ops + [RestartOp]).relay, id, i) ==
            match LastRowWrite(ops, id, i)
            case Some(bytes) => Ok(bytes)
            case None => Err(FileNotFound)
  {
    assert (ops + [RestartOp])[..|ops|] == ops;
    StoresHoldLastWrites(ops, id, i);
  }
}
