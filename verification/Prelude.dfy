/** Small shared vocabulary: optional values, results and bytes. */
module Prelude {

  datatype Option<+T> = None | Some(value: T)

  datatype Result<+T, +E> = Ok(value: T) | Err(error: E)

  /** An octet.  Bytes are integers so that length prefixes and base64 stay in integer arithmetic. */
  type Byte = b: int | 0 <= b < 256

  type Bytes = seq<Byte>

  /** The `appInstanceId` under which a client pairs, pushes and is reached. */
  type ClientId = string

  const U32_LIMIT: nat := 0x1_0000_0000
  const U64_LIMIT: nat := 0x1_0000_0000_0000_0000
  const I64_LIMIT: nat := 0x8000_0000_0000_0000

  function Lookup<K, V>(m: map<K, V>, k: K): Option<V> {
    if k in m then Some(m[k]) else None
  }

  function Min(a: int, b: int): int {
    if a <= b then a else b
  }

  /** Rust's `usize as i64` on a 64-bit target: two's complement reinterpretation. */
  function UsizeAsI64(n: nat): int {
    if n % U64_LIMIT < I64_LIMIT then n % U64_LIMIT else n % U64_LIMIT - U64_LIMIT
  }

  /** A partial result followed by the outcome of the rest: how a loop relates to a recursive function. */
  function Prepend<T, E>(done: seq<T>, rest: Result<seq<T>, E>): Result<seq<T>, E> {
    match rest
    case Err(e) => Err(e)
    case Ok(tail) => Ok(done + tail)
  }

  lemma PrependNothing<T, E>(rest: Result<seq<T>, E>)
    ensures Prepend([], rest) == rest
  {
    assert rest.Ok? ==> [] + rest.value == rest.value;
  }

  lemma PrependTwice<T, E>(a: seq<T>, b: seq<T>, rest: Result<seq<T>, E>)
    ensures Prepend(a, Prepend(b, rest)) == Prepend(a + b, rest)
  {
    assert rest.Ok? ==> a + (b + rest.value) == a + b + rest.value;
  }

  /** The JSON engine as a parameter: an encoder, a decoder, and the law that decoding undoes encoding. */
  datatype Json<!T> = Json(encode: T -> Bytes, decode: Bytes -> Option<T>)

  ghost predicate Lawful<T(!new)>(json: Json<T>) {
    forall x: T :: json.encode(x) != [] && json.decode(json.encode(x)) == Some(x)
  }

  /** What holds of a run and survives each allowed step holds of every allowed continuation. */
  lemma {:induction false} AllowedStepsKeep<Op(!new)>(p: seq<Op> -> bool, allowed: Op -> bool,
                                                        ops: seq<Op>, more: seq<Op>)
    requires p(ops) && forall op <- more :: allowed(op)
    requires forall before, op | p(before) && allowed(op) :: p(before + [op])
    ensures p(ops + more)
    decreases |more|
  {
    if more == [] {
      assert ops + more == ops;
    } else {
      var before, op := more[..|more| - 1], more[|more| - 1];
      assert op in more;
      AllowedStepsKeep(p, allowed, ops, before);
      assert ops + more == ops + before + [op];
    }
  }
}
