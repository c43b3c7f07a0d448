/** The handler's view of the nonce cache: a set of issued nonces. `Add`
    inserts; `Get` is the atomic get-and-delete the Redis implementation runs
    as one Lua script, so it both reports and removes. Expiry is not
    modelled. `fails` stands for a backend error, after which the cache is
    taken to be unchanged: a command the server applied but whose reply was
    lost is not modelled. */
module NonceCache {
  import opened Bytes

  type Cache = set<seq<byte>>

  datatype CacheError = ErrBackend

  /** `Add`: the key is present afterwards, and nothing else changes. */
  function Add(c: Cache, key: seq<byte>, fails: bool): (r: Result<Cache, CacheError>)
    ensures r.Failure? <==> fails
    ensures r.Success? ==> key in r.value && r.value - {key} == c - {key}
  {
    if fails then Failure(ErrBackend) else Success(c + {key})
  }

  /** `Get`: whether the key was present, and the cache without it. */
  function Get(c: Cache, key: seq<byte>, fails: bool): (r: (Result<bool, CacheError>, Cache))
    ensures r.0.Failure? <==> fails
    ensures r.0.Failure? ==> r.1 == c
    ensures r.0.Success? ==> (r.0.value <==> key in c)
    ensures r.0.Success? ==> key !in r.1 && r.1 + {key} == c + {key}
  {
    if fails then (Failure(ErrBackend), c)
    else (Success(key in c), c - {key})
  }

  /** A key is found at most once: the lookup that finds it removes it, and
      the next lookup reports it absent. */
  lemma GetConsumes(c: Cache, key: seq<byte>)
    ensures Get(c, key, false).0 == Success(key in c)
    ensures Get(Get(c, key, false).1, key, false).0 == Success(false)
  {
  }

  /** The nonce just added is found by the next lookup, which leaves the cache
      as it was before the addition when the key was new. */
  lemma AddThenGet(c: Cache, key: seq<byte>)
    requires key !in c
    ensures Add(c, key, false).Success?
    ensures Get(Add(c, key, false).value, key, false) == (Success(true), c)
  {
  }

  /** What one handler call does to the cache: an Init that added `key`, a
      Valid whose token named `key` and whose counter did (`passes`) or did
      not validate, or a call that failed before touching the cache. */
  datatype Op = Put(key: seq<byte>) | Take(key: seq<byte>, passes: bool) | Untouched

  function Indicator(b: bool): nat {
    if b then 1 else 0
  }

  /** The cache after `op`, and the key of the solution it accepted: a `Take`
      accepts only a key it found, and removes it whether it accepts or not. */
  function Apply(c: Cache, op: Op): (r: (Cache, Option<seq<byte>>))
    ensures r.1.Some? <==> op.Take? && op.key in c && op.passes
    ensures r.1.Some? ==> r.1.value == op.key
    ensures op.Put? ==> r.0 == c + {op.key}
    ensures op.Take? ==> r.0 == c - {op.key}
    ensures op.Untouched? ==> r.0 == c
  {
    match op
    case Put(key) => (Add(c, key, false).value, None)
    case Take(key, passes) =>
      var (found, c') := Get(c, key, false);
      (c', if found.value && passes then Some(key) else None)
    case Untouched => (c, None)
  }

  /** How many operations of the sequence accept key `n`. */
  function Accepted(c: Cache, ops: seq<Op>, n: seq<byte>): nat
    decreases |ops|
  {
    if |ops| == 0 then 0
    else
      var (c', accepted) := Apply(c, ops[0]);
      Indicator(accepted == Some(n)) + Accepted(c', ops[1..], n)
  }

  /** How many operations of the sequence add key `n`. */
  function Puts(ops: seq<Op>, n: seq<byte>): nat
    decreases |ops|
  {
    if |ops| == 0 then 0 else Indicator(ops[0] == Put(n)) + Puts(ops[1..], n)
  }

  /** The cache after the whole sequence. */
  function Final(c: Cache, ops: seq<Op>): Cache
    decreases |ops|
  {
    if |ops| == 0 then c else Final(Apply(c, ops[0]).0, ops[1..])
  }

  /** The replay bound of get-and-delete: over any sequence of operations,
      key `n` is accepted at most as often as it was added, plus once if it
      was already present; a key still present at the end counts against
      the same budget. */
  lemma {:induction false} ReplayBound(c: Cache, ops: seq<Op>, n: seq<byte>)
    ensures Accepted(c, ops, n) + Indicator(n in Final(c, ops)) <= Puts(ops, n) + Indicator(n in c)
    decreases |ops|
  {
    if |ops| > 0 {
      var (c', accepted) := Apply(c, ops[0]);
      ReplayBound(c', ops[1..], n);
    }
  }
}
