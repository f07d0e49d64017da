/**
 * The encrypted file stream of the hub: plaintext is cut into pieces of 256 KiB, and each piece is
 * sent as an encrypted payload behind its length, a big-endian u32.
 */
module Stream {
  import opened Prelude
  import opened Chunking
  import opened BigEndian
  import opened Secure

  const STREAM_PIECE: nat := 256 * 1024

  datatype StreamError = TruncatedLength | TruncatedChunk | Payload(error: PayloadError)

  function Frame(body: Bytes): Bytes
    requires |body| < U32_LIMIT
  {
    U32ToBytes(|body|) + body
  }

  /** One frame per piece, the i-th under the i-th IV. */
  function Frames(suite: Suite, key: AesKey, parts: seq<Bytes>, ivs: seq<Block>): (r: seq<Bytes>)
    requires |ivs| == |parts|
    requires forall p <- parts :: |p| <= STREAM_PIECE
    ensures |r| == |parts|
  {
    if parts == [] then []
    else
      PayloadLength(suite, key, parts[0], ivs[0]);
      [Frame(EncryptWith(suite, key, parts[0], ivs[0]))] + Frames(suite, key, parts[1..], ivs[1..])
  }

  lemma {:induction false} FrameAt(suite: Suite, key: AesKey, parts: seq<Bytes>, ivs: seq<Block>, i: nat)
    requires |ivs| == |parts| && i < |parts|
    requires forall p <- parts :: |p| <= STREAM_PIECE
    ensures |EncryptWith(suite, key, parts[i], ivs[i])| < U32_LIMIT
    ensures Frames(suite, key, parts, ivs)[i] == Frame(EncryptWith(suite, key, parts[i], ivs[i]))
    decreases i
  {
    PayloadLength(suite, key, parts[i], ivs[i]);
    if i > 0 {
      FrameAt(suite, key, parts[1..], ivs[1..], i - 1);
    }
  }

  /** One more frame appends a length prefix, which the cast to u32 does not shorten, and the ciphertext. */
  lemma OneMoreFrame(frames: seq<Bytes>, i: nat, body: Bytes)
    requires i < |frames| && |body| < U32_LIMIT && frames[i] == Frame(body)
    ensures Join(frames[..i + 1]) == Join(frames[..i]) + (U32ToBytes(|body| % U32_LIMIT) + body)
  {
    JoinOneMore(frames, i);
  }

  lemma PiecesAreSmall(plaintext: Bytes)
    ensures forall p <- Chunks(plaintext, STREAM_PIECE) :: |p| <= STREAM_PIECE
  {
    ChunksWellSplit(plaintext, STREAM_PIECE);
  }

  function StreamFrames(suite: Suite, key: AesKey, plaintext: Bytes, ivs: seq<Block>): seq<Bytes>
    requires |ivs| == |Chunks(plaintext, STREAM_PIECE)|
  {
    PiecesAreSmall(plaintext);
    Frames(suite, key, Chunks(plaintext, STREAM_PIECE), ivs)
  }

  function EncodeStream(suite: Suite, key: AesKey, plaintext: Bytes, ivs: seq<Block>): Bytes
    requires |ivs| == |Chunks(plaintext, STREAM_PIECE)|
  {
    Join(StreamFrames(suite, key, plaintext, ivs))
  }

  /** Reading a stream from the front: what each remaining input decodes to, and the first error met. */
  function DecodeWith(decrypt: Bytes -> Result<Bytes, PayloadError>, c: Bytes): Result<Bytes, StreamError>
    decreases |c|
  {
    if c == [] then Ok([])
    else if |c| < 4 then Err(TruncatedLength)
    else
      var size := U32FromBytes(c[..4]);
      if 4 + size > |c| then Err(TruncatedChunk)
      else
        match decrypt(c[4..4 + size])
        case Err(e) => Err(Payload(e))
        case Ok(p) =>
          Prepend(p, DecodeWith(decrypt, c[4 + size..]))
  }

  function DecodeStream(suite: Suite, key: AesKey, c: Bytes): Result<Bytes, StreamError> {
    DecodeWith(b => DecryptWith(suite, key, b), c)
  }

  /** What remains to be decoded at an offset, in terms of the whole input. */
  lemma DecodeAt(decrypt: Bytes -> Result<Bytes, PayloadError>, c: Bytes, offset: nat)
    requires offset < |c|
    ensures DecodeWith(decrypt, c[offset..]) ==
            if offset + 4 > |c| then Err(TruncatedLength)
            else
              var end := offset + 4 + U32FromBytes(c[offset..offset + 4]);
              if end > |c| then Err(TruncatedChunk)
              else
                match decrypt(c[offset + 4..end])
                case Err(e) => Err(Payload(e))
                case Ok(p) => Prepend(p, DecodeWith(decrypt, c[end..]))
  {
    var rest := c[offset..];
    if offset + 4 <= |c| {
      assert rest[..4] == c[offset..offset + 4];
      var end := offset + 4 + U32FromBytes(c[offset..offset + 4]);
      if end <= |c| {
        assert rest[4..end - offset] == c[offset + 4..end];
        assert rest[end - offset..] == c[end..];
      }
    }
  }

  /** One turn of the decoding loop: what has been decoded so far, followed by the outcome of the rest. */
  lemma DecodeTurn(decrypt: Bytes -> Result<Bytes, PayloadError>, c: Bytes, offset: nat, output: Bytes,
                   whole: Result<Bytes, StreamError>)
    requires offset < |c| && whole == Prepend(output, DecodeWith(decrypt, c[offset..]))
    ensures
      if offset + 4 > |c| then whole == Err(TruncatedLength)
      else
        var end := offset + 4 + U32FromBytes(c[offset..offset + 4]);
        if end > |c| then whole == Err(TruncatedChunk)
        else
          match decrypt(c[offset + 4..end])
          case Err(e) => whole == Err(Payload(e))
          case Ok(p) => whole == Prepend(output + p, DecodeWith(decrypt, c[end..]))
  {
    DecodeAt(decrypt, c, offset);
    if offset + 4 <= |c| {
      var end := offset + 4 + U32FromBytes(c[offset..offset + 4]);
      if end <= |c| && decrypt(c[offset + 4..end]).Ok? {
        PrependTwice(output, decrypt(c[offset + 4..end]).value, DecodeWith(decrypt, c[end..]));
      }
    }
  }

  /** The decoding loop, over any way to decrypt one payload; it ends because the offset grows by at least 4. */
  method DecodeLoop(decrypt: Bytes -> Result<Bytes, PayloadError>, ciphertext: Bytes)
    returns (r: Result<Bytes, StreamError>)
    ensures r == DecodeWith(decrypt, ciphertext)
  {
    var offset, output: Bytes := 0, [];
    ghost var whole := DecodeWith(decrypt, ciphertext);
    assert ciphertext[0..] == ciphertext;
    PrependNothing(whole);
    while offset < |ciphertext|
      invariant 0 <= offset <= |ciphertext|
      invariant whole == Prepend(output, DecodeWith(decrypt, ciphertext[offset..]))
      decreases |ciphertext| - offset
    {
      DecodeTurn(decrypt, ciphertext, offset, output, whole);
      if offset + 4 > |ciphertext| { return Err(TruncatedLength); }
      var size := U32FromBytes(ciphertext[offset..offset + 4]);
      offset := offset + 4;
      if offset + size > |ciphertext| { return Err(TruncatedChunk); }
      var piece := decrypt(ciphertext[offset..offset + size]);
      if piece.Err? { return Err(Payload(piece.error)); }
      output := output + piece.value;
      offset := offset + size;
    }
    assert output + [] == output;
    return Ok(output);
  }

  // ---------- Every input ----------

  ghost predicate AreSmall(bodies: seq<Bytes>) {
    forall b <- bodies :: |b| < U32_LIMIT
  }

  function FrameAll(bodies: seq<Bytes>): seq<Bytes>
    requires forall b <- bodies :: |b| < U32_LIMIT
  {
    seq(|bodies|, i requires 0 <= i < |bodies| => Frame(bodies[i]))
  }

  lemma FrameAllCons(body: Bytes, bodies: seq<Bytes>)
    requires |body| < U32_LIMIT && AreSmall(bodies)
    ensures AreSmall([body] + bodies)
    ensures Join(FrameAll([body] + bodies)) == Frame(body) + Join(FrameAll(bodies))
  {
    assert FrameAll([body] + bodies)[1..] == FrameAll(bodies);
  }

  ghost predicate Decrypt(decrypt: Bytes -> Result<Bytes, PayloadError>, bodies: seq<Bytes>, pieces: seq<Bytes>) {
    |bodies| == |pieces| && forall i | 0 <= i < |bodies| :: decrypt(bodies[i]) == Ok(pieces[i])
  }

  /** What is left of an input after its good frames, and the decoder's answer to that. */
  ghost predicate Answers(decrypt: Bytes -> Result<Bytes, PayloadError>, pieces: seq<Bytes>, rest: Bytes,
                          answer: Result<Bytes, StreamError>)
  {
    match answer
    case Ok(p) => rest == [] && p == Join(pieces)
    case Err(TruncatedLength) => 0 < |rest| < 4
    case Err(TruncatedChunk) => |rest| >= 4 && 4 + U32FromBytes(rest[..4]) > |rest|
    case Err(Payload(e)) => exists body :: |body| < U32_LIMIT && Frame(body) <= rest && decrypt(body) == Err(e)
  }

  /** A reading of an input: good frames, the pieces they decrypt to, and a rest that explains the answer. */
  ghost predicate IsReading(decrypt: Bytes -> Result<Bytes, PayloadError>, c: Bytes, bodies: seq<Bytes>,
                            pieces: seq<Bytes>, rest: Bytes, answer: Result<Bytes, StreamError>)
  {
    && AreSmall(bodies) && c == Join(FrameAll(bodies)) + rest
    && Decrypt(decrypt, bodies, pieces)
    && Answers(decrypt, pieces, rest, answer)
  }

  predicate HasFrame(c: Bytes) {
    |c| >= 4 && 4 + U32FromBytes(c[..4]) <= |c|
  }

  function FirstBody(c: Bytes): Bytes
    requires HasFrame(c)
  {
    c[4..4 + U32FromBytes(c[..4])]
  }

  function AfterFirst(c: Bytes): Bytes
    requires HasFrame(c)
  {
    c[4 + U32FromBytes(c[..4])..]
  }

  lemma FirstFrameOf(c: Bytes)
    requires HasFrame(c)
    ensures |FirstBody(c)| < U32_LIMIT && c == Frame(FirstBody(c)) + AfterFirst(c)
  {
    U32BytesRoundTrip(c[..4]);
    assert c == c[..4] + FirstBody(c) + AfterFirst(c);
  }

  lemma NoGoodFrame(decrypt: Bytes -> Result<Bytes, PayloadError>, c: Bytes)
    requires HasFrame(c) ==> decrypt(FirstBody(c)).Err?
    ensures IsReading(decrypt, c, [], [], c, DecodeWith(decrypt, c))
  {
    assert Join(FrameAll([])) + c == c;
    if HasFrame(c) {
      FirstFrameOf(c);
      assert Frame(FirstBody(c)) <= c;
    }
  }

  lemma OneGoodFrame(decrypt: Bytes -> Result<Bytes, PayloadError>, body: Bytes, piece: Bytes, c: Bytes,
                     bodies: seq<Bytes>, pieces: seq<Bytes>, rest: Bytes, answer: Result<Bytes, StreamError>)
    requires |body| < U32_LIMIT && decrypt(body) == Ok(piece)
    requires IsReading(decrypt, c, bodies, pieces, rest, answer)
    ensures IsReading(decrypt, Frame(body) + c, [body] + bodies, [piece] + pieces, rest, Prepend(piece, answer))
  {
    FrameAllCons(body, bodies);
    Reassociate(Frame(body), Join(FrameAll(bodies)), rest);
    AnswersCons(decrypt, piece, pieces, rest, answer);
  }

  lemma Reassociate(a: Bytes, b: Bytes, c: Bytes)
    ensures a + b + c == a + (b + c)
  {
  }

  lemma AnswersCons(decrypt: Bytes -> Result<Bytes, PayloadError>, piece: Bytes, pieces: seq<Bytes>, rest: Bytes,
                    answer: Result<Bytes, StreamError>)
    requires Answers(decrypt, pieces, rest, answer)
    ensures Answers(decrypt, [piece] + pieces, rest, Prepend(piece, answer))
  {
    assert ([piece] + pieces)[1..] == pieces;
  }

  /**
   * The decoder on every input, well-formed or not.  The input is some frames whose payloads decrypt, and a rest: none,
   * and the answer is the pieces joined; or one to three bytes; or a length that promises more than there is; or a
   * frame whose payload does not decrypt, and the answer is the error that fits.
   */
  lemma {:induction false} DecodedExactly(decrypt: Bytes -> Result<Bytes, PayloadError>, c: Bytes)
    returns (bodies: seq<Bytes>, pieces: seq<Bytes>, rest: Bytes)
    ensures IsReading(decrypt, c, bodies, pieces, rest, DecodeWith(decrypt, c))
    decreases |c|
  {
    if HasFrame(c) && decrypt(FirstBody(c)).Ok? {
      var body, piece, tail := FirstBody(c), decrypt(FirstBody(c)).value, AfterFirst(c);
      FirstFrameOf(c);
      bodies, pieces, rest := DecodedExactly(decrypt, tail);
      OneGoodFrame(decrypt, body, piece, tail, bodies, pieces, rest, DecodeWith(decrypt, tail));
      bodies, pieces := [body] + bodies, [piece] + pieces;
    } else {
      NoGoodFrame(decrypt, c);
      bodies, pieces, rest := [], [], c;
    }
  }

  // ---------- Round trip and truncation ----------

  /** The number of whole frames inside the first `m` bytes. */
  function WholeFrames(frames: seq<Bytes>, m: nat): (k: nat)
    ensures k <= |frames| && |Join(frames[..k])| <= m
    ensures k < |frames| ==> m < |Join(frames[..k + 1])|
  {
    if frames == [] then 0
    else if m < |frames[0]| then
      assert frames[..1][1..] == [];
      assert Join(frames[..1]) == frames[0] + [];
      0
    else
      var k := WholeFrames(frames[1..], m - |frames[0]|);
      assert frames[..k + 1][1..] == frames[1..][..k];
      assert k < |frames| - 1 ==> frames[..k + 2][1..] == frames[1..][..k + 1];
      k + 1
  }

  lemma DecodeFrame(suite: Suite, key: AesKey, p: Bytes, iv: Block, rest: Bytes)
    requires Bijective(suite) && |p| <= STREAM_PIECE
    ensures |EncryptWith(suite, key, p, iv)| < U32_LIMIT
    ensures DecodeStream(suite, key, Frame(EncryptWith(suite, key, p, iv)) + rest) ==
            Prepend(p, DecodeStream(suite, key, rest))
  {
    PayloadLength(suite, key, p, iv);
    var body := EncryptWith(suite, key, p, iv);
    var c := Frame(body) + rest;
    U32RoundTrip(|body|);
    assert c[..4] == U32ToBytes(|body|);
    assert c[4..4 + |body|] == body && c[4 + |body|..] == rest;
    DecryptInvertsEncrypt(suite, key, p, iv);
  }

  lemma DecodePartialFrame(suite: Suite, key: AesKey, p: Bytes, iv: Block, m: nat)
    requires |p| <= STREAM_PIECE
    requires |EncryptWith(suite, key, p, iv)| < U32_LIMIT
    requires 0 < m < |Frame(EncryptWith(suite, key, p, iv))|
    ensures DecodeStream(suite, key, Frame(EncryptWith(suite, key, p, iv))[..m]) ==
            if m < 4 then Err(TruncatedLength) else Err(TruncatedChunk)
  {
    var body := EncryptWith(suite, key, p, iv);
    var c := Frame(body)[..m];
    if m >= 4 {
      U32RoundTrip(|body|);
      assert c[..4] == U32ToBytes(|body|);
    }
  }

  /** What the decoder says about the first `m` bytes of an encoding. */
  function TruncationVerdict(frames: seq<Bytes>, parts: seq<Bytes>, m: nat): Result<Bytes, StreamError>
    requires |frames| == |parts| && m <= |Join(frames)|
  {
    var k := WholeFrames(frames, m);
    var left := m - |Join(frames[..k])|;
    if left == 0 then Ok(Join(parts[..k]))
    else if left < 4 then Err(TruncatedLength)
    else Err(TruncatedChunk)
  }

  lemma VerdictStep(frames: seq<Bytes>, parts: seq<Bytes>, m: nat)
    requires |frames| == |parts| > 0 && |frames[0]| <= m <= |Join(frames)|
    ensures Join(frames)[..m] == frames[0] + Join(frames[1..])[..m - |frames[0]|]
    ensures TruncationVerdict(frames, parts, m) ==
            Prepend(parts[0], TruncationVerdict(frames[1..], parts[1..], m - |frames[0]|))
  {
    var k := WholeFrames(frames[1..], m - |frames[0]|);
    assert WholeFrames(frames, m) == k + 1;
    assert frames[..k + 1][1..] == frames[1..][..k];
    assert parts[..k + 1][1..] == parts[1..][..k];
  }

  lemma VerdictInFirst(frames: seq<Bytes>, parts: seq<Bytes>, m: nat)
    requires |frames| == |parts| > 0 && m < |frames[0]|
    ensures m <= |Join(frames)| && Join(frames)[..m] == frames[0][..m]
    ensures TruncationVerdict(frames, parts, m) ==
            if m == 0 then Ok([]) else if m < 4 then Err(TruncatedLength) else Err(TruncatedChunk)
  {
    assert WholeFrames(frames, m) == 0 && frames[..0] == [] && parts[..0] == [];
  }

  lemma FirstFrame(suite: Suite, key: AesKey, parts: seq<Bytes>, ivs: seq<Block>)
    requires |ivs| == |parts| > 0
    requires forall p <- parts :: |p| <= STREAM_PIECE
    ensures |EncryptWith(suite, key, parts[0], ivs[0])| < U32_LIMIT
    ensures Frames(suite, key, parts, ivs)[0] == Frame(EncryptWith(suite, key, parts[0], ivs[0]))
    ensures Frames(suite, key, parts, ivs)[1..] == Frames(suite, key, parts[1..], ivs[1..])
  {
    PayloadLength(suite, key, parts[0], ivs[0]);
  }

  lemma {:induction false} DecodePrefix(suite: Suite, key: AesKey, parts: seq<Bytes>, ivs: seq<Block>, m: nat)
    requires Bijective(suite) && |ivs| == |parts|
    requires forall p <- parts :: |p| <= STREAM_PIECE
    requires m <= |Join(Frames(suite, key, parts, ivs))|
    ensures DecodeStream(suite, key, Join(Frames(suite, key, parts, ivs))[..m]) ==
            TruncationVerdict(Frames(suite, key, parts, ivs), parts, m)
    decreases |parts|
  {
    if parts == [] {
    } else {
      var frames := Frames(suite, key, parts, ivs);
      FirstFrame(suite, key, parts, ivs);
      if m < |frames[0]| {
        VerdictInFirst(frames, parts, m);
        if m > 0 {
          DecodePartialFrame(suite, key, parts[0], ivs[0], m);
        }
      } else {
        VerdictStep(frames, parts, m);
        DecodeFrame(suite, key, parts[0], ivs[0], Join(frames[1..])[..m - |frames[0]|]);
        DecodePrefix(suite, key, parts[1..], ivs[1..], m - |frames[0]|);
      }
    }
  }

  lemma WholeFramesOfAll(frames: seq<Bytes>)
    ensures WholeFrames(frames, |Join(frames)|) == |frames|
  {
    var k := WholeFrames(frames, |Join(frames)|);
    var next: nat := Min(k + 1, |frames|);
    assert frames[..|frames|] == frames;
    JoinPrefixLengths(frames, next, |frames|);
  }

  /**
   * Truncation is exact.  Cut the encoding of a plaintext after any `m` bytes, and let k be the number of
   * whole frames kept.  The decoder returns the first k pieces when the cut is on a frame boundary;
   * otherwise it reports a truncated length (1 to 3 bytes over) or a truncated chunk (4 or more over).
   */
  lemma TruncationIsExact(suite: Suite, key: AesKey, plaintext: Bytes, ivs: seq<Block>, m: nat)
    requires Bijective(suite)
    requires |ivs| == |Chunks(plaintext, STREAM_PIECE)|
    requires m <= |EncodeStream(suite, key, plaintext, ivs)|
    ensures
      var frames := StreamFrames(suite, key, plaintext, ivs);
      var k := WholeFrames(frames, m);
      var left := m - |Join(frames[..k])|;
      DecodeStream(suite, key, EncodeStream(suite, key, plaintext, ivs)[..m]) ==
      if left == 0 then Ok(plaintext[..Min(k * STREAM_PIECE, |plaintext|)])
      else if left < 4 then Err(TruncatedLength)
      else Err(TruncatedChunk)
  {
    var parts := Chunks(plaintext, STREAM_PIECE);
    PiecesAreSmall(plaintext);
    var frames := Frames(suite, key, parts, ivs);
    DecodePrefix(suite, key, parts, ivs, m);
    var k := WholeFrames(frames, m);
    JoinFirstChunks(plaintext, STREAM_PIECE, k);
  }

  /** A full piece travels in a length, an IV, and the padded piece. */
  const FULL_FRAME: nat := 4 + BLOCK + (STREAM_PIECE + BLOCK)

  lemma FrameSizes()
    ensures STREAM_PIECE == 262_144 && FULL_FRAME == 262_180
  {
  }

  lemma {:induction false} JoinOfEqual(frames: seq<Bytes>, size: nat, i: nat)
    requires i <= |frames| && forall j | 0 <= j < i :: |frames[j]| == size
    ensures |Join(frames[..i])| == i * size
    decreases i
  {
    if i > 0 {
      JoinOfEqual(frames, size, i - 1);
      JoinOneMore(frames, i - 1);
      assert i * size == (i - 1) * size + size;
    }
  }

  lemma FullFrameSize(suite: Suite, key: AesKey, parts: seq<Bytes>, ivs: seq<Block>, j: nat)
    requires |ivs| == |parts| && j < |parts| && |parts[j]| == STREAM_PIECE
    requires forall p <- parts :: |p| <= STREAM_PIECE
    ensures |Frames(suite, key, parts, ivs)[j]| == FULL_FRAME
  {
    FrameAt(suite, key, parts, ivs, j);
    PayloadLength(suite, key, parts[j], ivs[j]);
  }

  lemma FrameStart(suite: Suite, key: AesKey, parts: seq<Bytes>, ivs: seq<Block>, i: nat)
    requires |ivs| == |parts| && i < |parts| && WellSplit(parts, STREAM_PIECE)
    requires forall p <- parts :: |p| <= STREAM_PIECE
    ensures |Join(Frames(suite, key, parts, ivs)[..i])| == i * FULL_FRAME
  {
    var frames := Frames(suite, key, parts, ivs);
    forall j | 0 <= j < i ensures |frames[j]| == FULL_FRAME {
      FullFrameSize(suite, key, parts, ivs, j);
    }
    JoinOfEqual(frames, FULL_FRAME, i);
  }

  /** At this place a stream has the length of the payload, big-endian in four bytes, and then the payload. */
  predicate HoldsAt(stream: Bytes, at: nat, payload: Bytes) {
    && at + 4 + |payload| <= |stream|
    && U32FromBytes(stream[at..at + 4]) == |payload|
    && stream[at + 4..at + 4 + |payload|] == payload
  }

  /** Frame i starts where the frames before it end: first its length, then its payload. */
  lemma FrameInJoin(frames: seq<Bytes>, i: nat, at: nat, payload: Bytes)
    requires i < |frames| && |payload| < U32_LIMIT && frames[i] == Frame(payload) && at == |Join(frames[..i])|
    ensures HoldsAt(Join(frames), at, payload)
  {
    U32RoundTrip(|payload|);
    JoinOneMore(frames, i);
    JoinAppend(frames[..i + 1], frames[i + 1..]);
    assert frames == frames[..i + 1] + frames[i + 1..];
    var before, after := Join(frames[..i]), Join(frames[i + 1..]);
    assert Join(frames) == before + U32ToBytes(|payload|) + payload + after;
  }

  lemma FramesLayout(suite: Suite, key: AesKey, parts: seq<Bytes>, ivs: seq<Block>, i: nat)
    requires |ivs| == |parts| && i < |parts| && WellSplit(parts, STREAM_PIECE)
    requires forall p <- parts :: |p| <= STREAM_PIECE
    ensures
      var payload := EncryptWith(suite, key, parts[i], ivs[i]);
      HoldsAt(Join(Frames(suite, key, parts, ivs)), i * FULL_FRAME, payload)
  {
    var frames := Frames(suite, key, parts, ivs);
    FrameStart(suite, key, parts, ivs, i);
    FrameAt(suite, key, parts, ivs, i);
    FrameInJoin(frames, i, i * FULL_FRAME, EncryptWith(suite, key, parts[i], ivs[i]));
  }

  /**
   * Where everything is in a stream.  Frame i starts at i times the size of a full frame; there stand the length of
   * its payload, big-endian in four bytes, and the payload: piece i of the plaintext, encrypted under IV i.
   */
  lemma StreamLayout(suite: Suite, key: AesKey, plaintext: Bytes, ivs: seq<Block>, i: nat)
    requires |ivs| == |Chunks(plaintext, STREAM_PIECE)| && i < |ivs|
    ensures i * STREAM_PIECE < |plaintext|
    ensures
      var stream := EncodeStream(suite, key, plaintext, ivs);
      var piece := plaintext[i * STREAM_PIECE..Min((i + 1) * STREAM_PIECE, |plaintext|)];
      var payload := EncryptWith(suite, key, piece, ivs[i]);
      HoldsAt(stream, i * FULL_FRAME, payload)
  {
    var parts := Chunks(plaintext, STREAM_PIECE);
    PiecesAreSmall(plaintext);
    ChunksWellSplit(plaintext, STREAM_PIECE);
    ChunkAt(plaintext, STREAM_PIECE, i);
    FramesLayout(suite, key, parts, ivs, i);
  }

  lemma StreamRoundTrip(suite: Suite, key: AesKey, plaintext: Bytes, ivs: seq<Block>)
    requires Bijective(suite)
    requires |ivs| == |Chunks(plaintext, STREAM_PIECE)|
    ensures DecodeStream(suite, key, EncodeStream(suite, key, plaintext, ivs)) == Ok(plaintext)
  {
    var parts := Chunks(plaintext, STREAM_PIECE);
    PiecesAreSmall(plaintext);
    var frames := Frames(suite, key, parts, ivs);
    var all := Join(frames);
    assert all[..|all|] == all;
    DecodePrefix(suite, key, parts, ivs, |all|);
    WholeFramesOfAll(frames);
    assert frames[..|frames|] == frames && parts[..|parts|] == parts;
    JoinChunks(plaintext, STREAM_PIECE);
  }
}
