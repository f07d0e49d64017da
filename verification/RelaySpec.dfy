/**
 * The file relay of the hub as a state machine on values: push sessions, the transfer directory,
 * the table file_chunks and the index of stored files.  Every function below is one hub call.
 */
module RelaySpec {
  import opened Prelude
  import opened Chunking

  const FILE_CHUNK_SIZE: nat := 1024 * 1024

  /** The members of a paste document that the server reads; numbers are JSON numbers. */
  datatype Paste = Paste(id: Option<int>, pasteType: Option<int>, size: Option<int>, rest: string)

  function AsU64(n: Option<int>): Option<nat> {
    if n.Some? && 0 <= n.value < U64_LIMIT then Some(n.value) else None
  }

  function AsI64(n: Option<int>): Option<int> {
    if n.Some? && -(I64_LIMIT as int) <= n.value < I64_LIMIT then n else None
  }

  datatype Directory = PushDir(pasteId: int) | PullDir(pasteId: int)

  datatype Session = Session(
    owner: ClientId,
    paste: Paste,
    token: string,
    chunkCount: nat,
    received: seq<bool>,
    directory: Directory)

  datatype Stored = Stored(directory: Directory, chunkCount: nat)

  datatype Completed = Completed(pasteId: int, owner: ClientId, paste: Paste, chunkCount: nat, directory: Directory)

  datatype PrepareResponse = PrepareResponse(pasteId: int, chunkCount: nat, chunkSize: nat, sessionToken: string)

  type Disk = map<(Directory, nat), Bytes>

  datatype Relay = Relay(
    sessions: map<int, Session>,
    stored: map<int, Stored>,
    disk: Disk,
    rows: map<(int, int), Bytes>)

  datatype RelayError =
    | Unpaired | MissingSize | ZeroSize | MissingId
    | SessionNotFound | OwnerMismatch | InvalidToken | IndexOutOfRange
    | DiskError | DatabaseError | FileNotFound
    | NoSyncInfo | NoReachableHost | SourceFailed

  /**
   * What becomes of writing one file: all of it is written; or the file cannot be opened and stays as it was; or it
   * is opened, which empties it, and only the first bytes get written.
   */
  datatype FileWrite = Whole | Unopened | Torn(kept: nat)

  /** What the outside world does to a chunk: the file is written first, the row second. */
  datatype Io = Io(file: FileWrite, rowOk: bool)
  {
    predicate Succeeds() { file.Whole? && rowOk }
  }

  const SUCCEEDS: Io := Io(Whole, true)

  /** What a write leaves in the file, if it touches the file at all. */
  function LeftBy(write: FileWrite, bytes: Bytes): Option<Bytes> {
    match write
    case Whole => Some(bytes)
    case Unopened => None
    case Torn(kept) => Some(bytes[..Min(kept, |bytes|)])
  }

  function WriteFile(disk: Disk, directory: Directory, index: nat, left: Option<Bytes>): Disk {
    match left
    case None => disk
    case Some(bytes) => disk[(directory, index) := bytes]
  }

  // ---------- Hub calls ----------

  function Prepare(r: Relay, client: ClientId, paired: bool, paste: Paste, now: int, token: string, diskOk: bool)
    : (Relay, Result<PrepareResponse, RelayError>)
  {
    if !paired then (r, Err(Unpaired))
    else
      match AsU64(paste.size)
      case None => (r, Err(MissingSize))
      case Some(size) =>
        if size == 0 then (r, Err(ZeroSize))
        else if !diskOk then (r, Err(DiskError))
        else
          var n := CeilDiv(size, FILE_CHUNK_SIZE);
          var session := Session(client, paste, token, n, seq(n, _ => false), PushDir(now));
          (r.(sessions := r.sessions[now := session]), Ok(PrepareResponse(now, n, FILE_CHUNK_SIZE, token)))
  }

  /** The checks shared by storing and completing, in the order of the code. */
  function CheckSession(r: Relay, client: ClientId, id: int, token: string): Result<Session, RelayError> {
    if id !in r.sessions then Err(SessionNotFound)
    else if r.sessions[id].owner != client then Err(OwnerMismatch)
    else if r.sessions[id].token != token then Err(InvalidToken)
    else Ok(r.sessions[id])
  }

  function Store(r: Relay, client: ClientId, id: int, index: nat, token: string, bytes: Bytes, io: Io)
    : (Relay, Result<(), RelayError>)
  {
    match CheckSession(r, client, id, token)
    case Err(e) => (r, Err(e))
    case Ok(session) =>
      if index >= session.chunkCount || index >= |session.received| then (r, Err(IndexOutOfRange))
      else
        var written := r.(disk := WriteFile(r.disk, session.directory, index, LeftBy(io.file, bytes)));
        if !io.file.Whole? then (written, Err(DiskError))
        else if !io.rowOk then (written, Err(DatabaseError))
        else
          var marked := session.(received := session.received[index := true]);
          (written.(rows := r.rows[(id, UsizeAsI64(index)) := bytes], sessions := r.sessions[id := marked]), Ok(()))
  }

  /** The indices at or after `from` that have not been received, in ascending order. */
  function MissingFrom(received: seq<bool>, from: nat): seq<nat>
    decreases |received| - from
  {
    if from >= |received| then []
    else if received[from] then MissingFrom(received, from + 1)
    else [from] + MissingFrom(received, from + 1)
  }

  function Complete(r: Relay, client: ClientId, id: int, token: string)
    : (Relay, Result<(seq<nat>, Option<Completed>), RelayError>)
  {
    match CheckSession(r, client, id, token)
    case Err(e) => (r, Err(e))
    case Ok(session) =>
      var missing := MissingFrom(session.received, 0);
      if missing != [] then (r, Ok((missing, None)))
      else
        var done := Completed(id, session.owner, session.paste, session.chunkCount, session.directory);
        (r.(sessions := r.sessions - {id}), Ok((missing, Some(done))))
  }

  /** `read_completed_push` from chunk `from` on: files are read in order and the first missing one fails. */
  function ReadFiles(disk: Disk, directory: Directory, from: nat, count: nat): Result<Bytes, RelayError>
    decreases count - from
  {
    if from >= count then Ok([])
    else if (directory, from) !in disk then Err(DiskError)
    else
      match ReadFiles(disk, directory, from + 1, count)
      case Err(e) => Err(e)
      case Ok(rest) => Ok(disk[(directory, from)] + rest)
  }

  function ReadCompleted(r: Relay, done: Completed): Result<Bytes, RelayError> {
    ReadFiles(r.disk, done.directory, 0, done.chunkCount)
  }

  /** The end of a broadcast: the file becomes known to `read_file_chunk`. */
  function FinishFanout(r: Relay, done: Completed): Relay {
    r.(stored := r.stored[done.pasteId := Stored(done.directory, done.chunkCount)])
  }

  function WriteFiles(disk: Disk, directory: Directory, pieces: seq<Bytes>): Disk {
    if pieces == [] then disk
    else
      var n := |pieces| - 1;
      WriteFiles(disk, directory, pieces[..n])[(directory, n) := pieces[n]]
  }

  /** The checks in front of a pull, in order; on success the number of chunks to fetch. */
  function CheckPull(paste: Paste, hosts: Option<seq<string>>): Result<nat, RelayError> {
    if AsI64(paste.id).None? then Err(MissingId)
    else if AsU64(paste.size).None? then Err(MissingSize)
    else if hosts.None? then Err(NoSyncInfo)
    else if hosts.value == [] then Err(NoReachableHost)
    else Ok(CeilDiv(AsU64(paste.size).value, FILE_CHUNK_SIZE))
  }

  /**
   * A pull of `count` chunks of which `pieces` were written before the first failure, if there was one; `left` is
   * what a file write that failed left behind.
   */
  function CachePull(r: Relay, now: int, count: nat, pieces: seq<Bytes>, left: Option<Bytes>): Relay {
    var disk := WriteFiles(r.disk, PullDir(now), pieces);
    if |pieces| < count then r.(disk := WriteFile(disk, PullDir(now), |pieces|, left))
    else r.(disk := disk, stored := r.stored[now := Stored(PullDir(now), count)])
  }

  /** The table is asked first, the directory second. */
  function ReadFileChunk(r: Relay, id: int, index: nat): Result<Bytes, RelayError> {
    if (id, UsizeAsI64(index)) in r.rows then Ok(r.rows[(id, UsizeAsI64(index))])
    else if id !in r.stored then Err(FileNotFound)
    else if index >= r.stored[id].chunkCount then Err(IndexOutOfRange)
    else if (r.stored[id].directory, index) !in r.disk then Err(DiskError)
    else Ok(r.disk[(r.stored[id].directory, index)])
  }

  /** A new process over the same data directory: files and rows survive, memory does not. */
  function Restart(r: Relay): Relay {
    Relay(map[], map[], r.disk, r.rows)
  }

  // ---------- Facts about single calls ----------

  /** The missing list is exactly the complement of what was received, in strictly ascending order. */
  lemma {:induction false} MissingIsComplement(received: seq<bool>, from: nat)
    ensures
      var m := MissingFrom(received, from);
      && (forall j: nat :: j in m <==> from <= j < |received| && !received[j])
      && (forall a, b | 0 <= a < b < |m| :: m[a] < m[b])
    decreases |received| - from
  {
    if from < |received| {
      MissingIsComplement(received, from + 1);
      var rest := MissingFrom(received, from + 1);
      if !received[from] {
        var m := [from] + rest;
        assert forall a | 0 <= a < |rest| :: rest[a] in rest;
        assert forall j: nat :: j in m <==> j == from || j in rest;
      }
    }
  }

  /** What a completion reports: exactly the slots that are not set, in strictly ascending order. */
  lemma CompleteReportsTheMissing(r: Relay, client: ClientId, id: int, token: string)
    requires CheckSession(r, client, id, token).Ok?
    ensures
      var received, reply := r.sessions[id].received, Complete(r, client, id, token).1;
      && reply.Ok?
      && var reported := reply.value.0;
         && (forall j: nat :: j in reported <==> j < |received| && !received[j])
         && (forall a, b | 0 <= a < b < |reported| :: reported[a] < reported[b])
         && (reply.value.1.Some? <==> reported == [])
  {
    MissingIsComplement(r.sessions[id].received, 0);
  }

  lemma CompleteExactlyWhenAllReceived(r: Relay, client: ClientId, id: int, token: string)
    requires CheckSession(r, client, id, token).Ok?
    ensures
      var received := r.sessions[id].received;
      var (r', out) := Complete(r, client, id, token);
      && out.Ok?
      && (out.value.1.Some? <==> forall i | 0 <= i < |received| :: received[i])
      && (out.value.1.Some? ==> id !in r'.sessions && r'.sessions == r.sessions - {id})
      && (out.value.1.None? ==> r' == r)
  {
    var received := r.sessions[id].received;
    MissingIsComplement(received, 0);
    var m := MissingFrom(received, 0);
    if m == [] {
      forall i | 0 <= i < |received| ensures received[i] {
        assert i !in m;
      }
    } else {
      assert m[0] in m;
    }
  }

  /** Storing a list of chunks, one accepted call after another. */
  function StoreEach(r: Relay, client: ClientId, id: int, token: string, indices: seq<nat>, bytes: nat -> Bytes): Relay
    decreases |indices|
  {
    if indices == [] then r
    else
      var stored := Store(r, client, id, indices[0], token, bytes(indices[0]), SUCCEEDS).0;
      StoreEach(stored, client, id, token, indices[1..], bytes)
  }

  lemma {:induction false} StoreEachMarks(r: Relay, client: ClientId, id: int, token: string,
                                            indices: seq<nat>, bytes: nat -> Bytes)
    requires CheckSession(r, client, id, token).Ok? && r.sessions[id].chunkCount == |r.sessions[id].received|
    requires forall k <- indices :: k < r.sessions[id].chunkCount
    ensures
      var r' := StoreEach(r, client, id, token, indices, bytes);
      && CheckSession(r', client, id, token).Ok?
      && |r'.sessions[id].received| == |r.sessions[id].received|
      && forall j: nat | j < |r.sessions[id].received| ::
           r'.sessions[id].received[j] <==> r.sessions[id].received[j] || j in indices
    decreases |indices|
  {
    if indices != [] {
      var stored := Store(r, client, id, indices[0], token, bytes(indices[0]), SUCCEEDS).0;
      assert indices[0] in indices && forall k <- indices[1..] :: k in indices;
      StoreEachMarks(stored, client, id, token, indices[1..], bytes);
      assert forall j: nat :: j in indices <==> j == indices[0] || j in indices[1..];
    }
  }

  /** The missing list is actionable: storing exactly what it names makes the next completion succeed. */
  lemma StoringTheMissingCompletes(r: Relay, client: ClientId, id: int, token: string, bytes: nat -> Bytes)
    requires CheckSession(r, client, id, token).Ok? && r.sessions[id].chunkCount == |r.sessions[id].received|
    ensures
      var first := Complete(r, client, id, token).1;
      && first.Ok?
      && var second := Complete(StoreEach(r, client, id, token, first.value.0, bytes), client, id, token).1;
         second.Ok? && second.value.0 == [] && second.value.1.Some?
  {
    var received := r.sessions[id].received;
    var missing := Complete(r, client, id, token).1.value.0;
    CompleteReportsTheMissing(r, client, id, token);
    forall k | k in missing ensures k < |received| {
    }
    StoreEachMarks(r, client, id, token, missing, bytes);
    var r' := StoreEach(r, client, id, token, missing, bytes);
    CompleteExactlyWhenAllReceived(r', client, id, token);
    forall i: nat | i < |received| ensures r'.sessions[id].received[i] {
      assert received[i] || i in missing;
    }
  }

  /** Reading succeeds exactly when every file is there. */
  lemma {:induction false} ReadFilesSucceeds(disk: Disk, directory: Directory, from: nat, count: nat)
    ensures
      var r := ReadFiles(disk, directory, from, count);
      && (r.Ok? <==> forall i: nat | from <= i < count :: (directory, i) in disk)
      && (r.Err? ==> r.error == DiskError)
    decreases count - from
  {
    if from < count {
      ReadFilesSucceeds(disk, directory, from + 1, count);
    }
  }

  /** A pull asks for exactly the chunks of a file of the declared size; otherwise the first thing amiss is reported. */
  lemma PullIsCheckedExactly(paste: Paste, hosts: Option<seq<string>>, file: Bytes)
    ensures
      var checked := CheckPull(paste, hosts);
      && (checked.Ok? <==> AsI64(paste.id).Some? && AsU64(paste.size).Some? && hosts.Some? && hosts.value != [])
      && (checked.Ok? && AsU64(paste.size) == Some(|file|) ==> checked.value == |Chunks(file, FILE_CHUNK_SIZE)|)
      && (checked == Err(MissingId) <==> AsI64(paste.id).None?)
      && (checked == Err(MissingSize) <==> AsI64(paste.id).Some? && AsU64(paste.size).None?)
      && (checked == Err(NoReachableHost) ==> hosts == Some([]))
      && (checked == Err(NoSyncInfo) ==> hosts == None)
  {
    ChunkCount(file, FILE_CHUNK_SIZE);
  }

  /** If the directory holds the pieces under 0, 1, 2 and so on, reading it gives their concatenation. */
  lemma {:induction false} ReadFilesJoins(disk: Disk, directory: Directory, pieces: seq<Bytes>, from: nat)
    requires from <= |pieces|
    requires forall i: nat | i < |pieces| :: Lookup(disk, (directory, i)) == Some(pieces[i])
    ensures ReadFiles(disk, directory, from, |pieces|) == Ok(Join(pieces[from..]))
    decreases |pieces| - from
  {
    if from < |pieces| {
      ReadFilesJoins(disk, directory, pieces, from + 1);
      assert Lookup(disk, (directory, from)) == Some(pieces[from]);
      assert pieces[from..][1..] == pieces[from + 1..];
    }
  }

  lemma {:induction false} WriteFilesAt(disk: Disk, directory: Directory, pieces: seq<Bytes>, d: Directory, i: nat)
    ensures Lookup(WriteFiles(disk, directory, pieces), (d, i)) ==
            if d == directory && i < |pieces| then Some(pieces[i]) else Lookup(disk, (d, i))
    decreases |pieces|
  {
    if pieces != [] {
      WriteFilesAt(disk, directory, pieces[..|pieces| - 1], d, i);
    }
  }

  lemma WriteOneMore(disk: Disk, directory: Directory, pieces: seq<Bytes>, piece: Bytes)
    ensures WriteFiles(disk, directory, pieces + [piece]) ==
            WriteFiles(disk, directory, pieces)[(directory, |pieces|) := piece]
  {
    assert (pieces + [piece])[..|pieces|] == pieces;
  }

  /** The cast of an index to i64 loses nothing, so different indices have different rows. */
  lemma IndexKeysDiffer(i: nat, j: nat)
    requires i < U64_LIMIT && j < U64_LIMIT
    ensures i < I64_LIMIT ==> UsizeAsI64(i) == i
    ensures UsizeAsI64(i) == UsizeAsI64(j) <==> i == j
  {
  }
}
