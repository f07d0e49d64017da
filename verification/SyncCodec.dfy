/**
 * The two text forms in which SyncInfo is published: the QR payload, whose bytes are rotated by the
 * pairing token, and the mDNS TXT record, whose base64 text is cut into numbered entries.
 */
module SyncCodec {
  import opened Prelude
  import opened Chunking
  import opened BigEndian
  import B64 = Base64
  import opened Decimal

  // ---------- QR payload ----------

  function RotateRight(b: Bytes, offset: nat): (r: Bytes)
    requires b == [] || offset <= |b|
    ensures |r| == |b|
  {
    if b == [] || offset == 0 then b
    else seq(|b|, i requires 0 <= i < |b| => b[(i + |b| - offset) % |b|])
  }

  /** The rotation that a token asks for, and the one that undoes it. */
  function Turn(b: Bytes, token: nat): Bytes
    requires b != []
  {
    RotateRight(b, token % |b|)
  }

  function TurnBack(b: Bytes, token: nat): Bytes
    requires b != []
  {
    RotateRight(b, (|b| - token % |b|) % |b|)
  }

  function EncodeQrBytes(b: Bytes, token: nat): string
    requires token < U32_LIMIT
  {
    if b == [] then B64.Encode(U32ToBytes(token))
    else B64.Encode(Turn(b, token) + U32ToBytes(token))
  }

  /** The byte level of `decode_qr_payload`, before the JSON is parsed. */
  function DecodeQrBytes(s: string): Option<(Bytes, nat)> {
    match B64.Decode(s)
    case None => None
    case Some(d) =>
      if |d| < 5 then None
      else
        var token := U32FromBytes(d[|d| - 4..]);
        Some((TurnBack(d[..|d| - 4], token), token))
  }

  function EncodeQrPayload<T>(json: Json<T>, info: T, token: nat): string
    requires token < U32_LIMIT
  {
    EncodeQrBytes(json.encode(info), token)
  }

  function DecodeQrPayload<T>(json: Json<T>, s: string): Option<(T, nat)> {
    match DecodeQrBytes(s)
    case None => None
    case Some((b, token)) =>
      match json.decode(b)
      case None => None
      case Some(info) => Some((info, token))
  }

  lemma ModShift(x: nat, n: nat)
    requires n > 0
    ensures x < n ==> x % n == x
    ensures n <= x < 2 * n ==> x % n == x - n
  {
    if n <= x < 2 * n {
      DivUnique(x, n, 1, x - n);
    }
  }

  /** `r` is `b` rotated right, said byte by byte and without the modulus. */
  ghost predicate IsRotation(b: Bytes, offset: nat, r: Bytes)
    requires offset <= |b|
  {
    && |r| == |b|
    && forall i | 0 <= i < |b| :: r[i] == if i < offset then b[i + |b| - offset] else b[i - offset]
  }

  lemma RotateRightRotates(b: Bytes, offset: nat)
    requires b != [] && offset <= |b|
    ensures IsRotation(b, offset, RotateRight(b, offset))
  {
    var r := RotateRight(b, offset);
    forall i | 0 <= i < |b| ensures r[i] == if i < offset then b[i + |b| - offset] else b[i - offset] {
      RotateAt(b, offset, i);
    }
  }

  lemma RotateAt(b: Bytes, offset: nat, i: nat)
    requires i < |b| && offset <= |b|
    ensures RotateRight(b, offset)[i] == if i < offset then b[i + |b| - offset] else b[i - offset]
  {
    if offset != 0 {
      ModShift(i + |b| - offset, |b|);
    }
  }

  lemma RotationsAdd(b: Bytes, j: nat, k: nat, once: Bytes, twice: Bytes, direct: Bytes)
    requires j < |b| && k < |b|
    requires IsRotation(b, j, once) && IsRotation(once, k, twice)
    requires IsRotation(b, if j + k < |b| then j + k else j + k - |b|, direct)
    ensures twice == direct
  {
  }

  /** Rotations compose: their offsets add modulo the length. */
  lemma RotationsCompose(b: Bytes, j: nat, k: nat)
    requires b != [] && j < |b| && k < |b|
    ensures RotateRight(RotateRight(b, j), k) == RotateRight(b, (j + k) % |b|)
  {
    ModShift(j + k, |b|);
    var once := RotateRight(b, j);
    RotateRightRotates(b, j);
    RotateRightRotates(once, k);
    RotateRightRotates(b, (j + k) % |b|);
    RotationsAdd(b, j, k, once, RotateRight(once, k), RotateRight(b, (j + k) % |b|));
  }

  lemma RotationUndone(b: Bytes, offset: nat, back: nat)
    requires b != [] && offset < |b| && back == if offset == 0 then 0 else |b| - offset
    ensures RotateRight(RotateRight(b, offset), back) == b && RotateRight(RotateRight(b, back), offset) == b
  {
    var there, other := RotateRight(b, offset), RotateRight(b, back);
    RotateRightRotates(b, offset);
    RotateRightRotates(b, back);
    RotateRightRotates(there, back);
    RotateRightRotates(other, offset);
    assert IsRotation(b, 0, b);
    RotationsAdd(b, offset, back, there, RotateRight(there, back), b);
    RotationsAdd(b, back, offset, other, RotateRight(other, offset), b);
  }

  /** The offset that undoes a rotation, without the modulus. */
  lemma BackOffset(n: nat, token: nat)
    requires n > 0
    ensures token % n < n
    ensures (n - token % n) % n == if token % n == 0 then 0 else n - token % n
  {
    ModShift(n - token % n, n);
  }

  lemma TurnsCancel(b: Bytes, token: nat)
    requires b != []
    ensures |Turn(b, token)| == |TurnBack(b, token)| == |b|
    ensures TurnBack(Turn(b, token), token) == b && Turn(TurnBack(b, token), token) == b
  {
    BackOffset(|b|, token);
    RotationUndone(b, token % |b|, (|b| - token % |b|) % |b|);
  }

  /**
   * The QR codec is a bijection: a text decodes to (bytes, token) if and only if the bytes are not empty
   * and the text is their encoding under that token.
   */
  lemma QrBijection(s: string, b: Bytes, token: nat)
    requires token < U32_LIMIT
    ensures DecodeQrBytes(s) == Some((b, token)) <==> b != [] && s == EncodeQrBytes(b, token)
  {
    if b != [] && s == EncodeQrBytes(b, token) {
      QrDecodeInvertsEncode(b, token);
    }
    if DecodeQrBytes(s) == Some((b, token)) {
      QrEncodeInvertsDecode(s);
    }
  }

  lemma QrDecodeInvertsEncode(b: Bytes, token: nat)
    requires b != [] && token < U32_LIMIT
    ensures DecodeQrBytes(EncodeQrBytes(b, token)) == Some((b, token))
  {
    var tail := U32ToBytes(token);
    TurnsCancel(b, token);
    U32RoundTrip(token);
    DecodeQrParts(Turn(b, token), tail);
  }

  lemma DecodeQrParts(rotated: Bytes, tail: Bytes)
    requires rotated != [] && |tail| == 4
    ensures DecodeQrBytes(B64.Encode(rotated + tail)) ==
            Some((TurnBack(rotated, U32FromBytes(tail)), U32FromBytes(tail)))
  {
    var d := rotated + tail;
    B64.DecodeInvertsEncode(d);
    assert d[|d| - 4..] == tail && d[..|d| - 4] == rotated;
  }

  lemma QrEncodeInvertsDecode(s: string)
    requires DecodeQrBytes(s).Some?
    ensures var (b, token) := DecodeQrBytes(s).value;
            b != [] && token < U32_LIMIT && EncodeQrBytes(b, token) == s
  {
    var d := B64.Decode(s).value;
    var rotated, tail := d[..|d| - 4], d[|d| - 4..];
    U32BytesRoundTrip(tail);
    TurnsCancel(rotated, U32FromBytes(tail));
    assert d == rotated + tail;
    B64.EncodeInvertsDecode(s, d);
  }

  /** What a QR text carries: the bytes rotated right by the token modulo their number, then the token, big-endian. */
  lemma QrLayout(b: Bytes, token: nat)
    requires b != [] && token < U32_LIMIT
    ensures
      var d := B64.Decode(EncodeQrBytes(b, token));
      && d.Some? && |d.value| == |b| + 4
      && IsRotation(b, token % |b|, d.value[..|b|])
      && U32FromBytes(d.value[|b|..]) == token
  {
    BackOffset(|b|, token);
    var rotated, tail := Turn(b, token), U32ToBytes(token);
    RotateRightRotates(b, token % |b|);
    B64.DecodeInvertsEncode(rotated + tail);
    assert (rotated + tail)[..|b|] == rotated && (rotated + tail)[|b|..] == tail;
    U32RoundTrip(token);
  }

  /** Pairing by QR: every SyncInfo and every token survive the trip through the QR text. */
  lemma QrPayloadRoundTrip<T(!new)>(json: Json<T>, info: T, token: nat)
    requires Lawful(json) && token < U32_LIMIT
    ensures DecodeQrPayload(json, EncodeQrPayload(json, info, token)) == Some((info, token))
  {
    QrBijection(EncodeQrPayload(json, info, token), json.encode(info), token);
  }

  /** An empty document is encoded without its rotation, and the decoder refuses the result. */
  lemma EmptyQrIsRefused(token: nat)
    requires token < U32_LIMIT
    ensures DecodeQrBytes(EncodeQrBytes([], token)) == None
  {
    B64.DecodeInvertsEncode(U32ToBytes(token));
  }

  // ---------- TXT record ----------

  /** The record that `encode_txt_record` must build: entry i, keyed by the decimal text of i, holds piece i. */
  ghost predicate IsTxtRecord(record: map<string, string>, parts: seq<string>) {
    && (forall i | 0 <= i < |parts| :: ToText(i) in record && record[ToText(i)] == parts[i])
    && KeysAreIndices(record, |parts|)
  }

  ghost predicate KeysAreIndices(record: map<string, string>, n: nat) {
    forall k <- record :: exists i :: 0 <= i < n && k == ToText(i)
  }

  lemma NextKeyIsNew(record: map<string, string>, parts: seq<string>)
    requires IsTxtRecord(record, parts)
    ensures ToText(|parts|) !in record
  {
    if ToText(|parts|) in record {
      var i :| 0 <= i < |parts| && ToText(|parts|) == ToText(i);
      TextIsInjective(i, |parts|);
    }
  }

  lemma EntriesAfter(record: map<string, string>, parts: seq<string>, key: string, piece: string)
    requires IsTxtRecord(record, parts) && key !in record && key == ToText(|parts|)
    ensures
      var wider, longer := record[key := piece], parts + [piece];
      forall i | 0 <= i < |longer| :: ToText(i) in wider && wider[ToText(i)] == longer[i]
  {
    var wider, longer := record[key := piece], parts + [piece];
    forall i | 0 <= i < |longer| ensures ToText(i) in wider && wider[ToText(i)] == longer[i] {
      if i < |parts| {
        assert ToText(i) in record && ToText(i) != key;
      }
    }
  }

  lemma KeysAfter(record: map<string, string>, n: nat, key: string, piece: string)
    requires KeysAreIndices(record, n) && key == ToText(n)
    ensures KeysAreIndices(record[key := piece], n + 1)
  {
    var wider := record[key := piece];
    forall k | k in wider ensures exists i :: 0 <= i < n + 1 && k == ToText(i) {
      if k != key {
        var i :| 0 <= i < n && k == ToText(i);
      }
    }
  }

  /** No two entries collide: the next number's key is new, and adding it extends the record by one piece. */
  lemma ExtendRecord(record: map<string, string>, parts: seq<string>, piece: string)
    requires IsTxtRecord(record, parts)
    ensures ToText(|parts|) !in record
    ensures IsTxtRecord(record[ToText(|parts|) := piece], parts + [piece])
  {
    NextKeyIsNew(record, parts);
    EntriesAfter(record, parts, ToText(|parts|), piece);
    KeysAfter(record, |parts|, ToText(|parts|), piece);
  }

  method EncodeTxtRecord(json: Bytes, chunkSize: nat) returns (out: map<string, string>)
    requires chunkSize > 0
    ensures IsTxtRecord(out, Chunks(B64.Encode(json), chunkSize))
    ensures |out| == CeilDiv(4 * CeilDiv(|json|, 3), chunkSize)
    ensures forall k <- out :: 0 < |out[k]| <= chunkSize
  {
    var encoded := B64.Encode(json);
    var parts := Chunks(encoded, chunkSize);
    out := map[];
    for index := 0 to |parts|
      invariant IsTxtRecord(out, parts[..index])
    {
      ExtendRecord(out, parts[..index], parts[index]);
      assert parts[..index + 1] == parts[..index] + [parts[index]];
      out := out[ToText(index) := parts[index]];
    }
    assert parts[..|parts|] == parts;
    RecordSize(out, parts);
    ChunkCount(encoded, chunkSize);
    ChunksWellSplit(encoded, chunkSize);
    B64.EncodedLength(json);
  }

  /** How a reader reassembles a record: entries in numeric order until the next number is missing. */
  function Gather(record: map<string, string>, from: nat, fuel: nat): string
    decreases fuel
  {
    if fuel == 0 || ToText(from) !in record then []
    else record[ToText(from)] + Gather(record, from + 1, fuel - 1)
  }

  function DecodeTxtRecord(record: map<string, string>): Option<Bytes> {
    B64.Decode(Gather(record, 0, |record|))
  }

  lemma {:induction false} GatherJoins(record: map<string, string>, parts: seq<string>, from: nat)
    requires IsTxtRecord(record, parts) && from <= |parts|
    ensures Gather(record, from, |parts| - from) == Join(parts[from..])
    decreases |parts| - from
  {
    if from < |parts| {
      GatherJoins(record, parts, from + 1);
      assert parts[from..][1..] == parts[from + 1..];
    }
  }

  lemma {:induction false} RecordSize(record: map<string, string>, parts: seq<string>)
    requires IsTxtRecord(record, parts)
    ensures |record| == |parts|
    decreases |parts|
  {
    if parts == [] {
      assert forall k :: k !in record;
      assert record.Keys == {};
    } else {
      var n := |parts| - 1;
      var rest := record - {ToText(n)};
      assert rest.Keys == record.Keys - {ToText(n)};
      forall i | 0 <= i < n ensures ToText(i) in rest && rest[ToText(i)] == parts[..n][i] {
        TextIsInjective(i, n);
      }
      forall k | k in rest ensures exists i :: 0 <= i < n && k == ToText(i) {
        var i :| 0 <= i < |parts| && k == ToText(i);
        assert i != n;
      }
      RecordSize(rest, parts[..n]);
    }
  }

  /** Any record of the required form, whatever order its entries are stored in, reassembles to the JSON bytes. */
  lemma TxtRecordReassembles(json: Bytes, chunkSize: nat, record: map<string, string>)
    requires chunkSize > 0
    requires IsTxtRecord(record, Chunks(B64.Encode(json), chunkSize))
    ensures DecodeTxtRecord(record) == Some(json)
  {
    var parts := Chunks(B64.Encode(json), chunkSize);
    RecordSize(record, parts);
    GatherJoins(record, parts, 0);
    assert parts[0..] == parts;
    JoinChunks(B64.Encode(json), chunkSize);
    B64.DecodeInvertsEncode(json);
  }

  /**
   * With 128-byte values, "key=value" fits the 255-byte string limit of section 6.1 of RFC 6763 as long as
   * the index is below 10 to the 126; and that bound is the best one for a full entry.
   */
  lemma TxtEntryFits(json: Bytes, record: map<string, string>, i: nat)
    requires IsTxtRecord(record, Chunks(B64.Encode(json), 128))
    requires i < |Chunks(B64.Encode(json), 128)|
    ensures 0 < |record[ToText(i)]| <= 128
    ensures i < Pow10(126) ==> |ToText(i)| + 1 + |record[ToText(i)]| <= 255
    ensures |record[ToText(i)]| == 128 && |ToText(i)| + 1 + |record[ToText(i)]| <= 255 ==> i < Pow10(126)
  {
    ChunksWellSplit(B64.Encode(json), 128);
    TextLength(i, 126);
  }
}
