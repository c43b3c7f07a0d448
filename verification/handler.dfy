/** The server's per-connection logic of server/internal/handler: one request
    is read, an Init request is answered with a fresh challenge whose nonce
    goes into the cache, and a Valid request is answered with a quote when
    its token parses, its nonce is consumed from the cache, and its one
    counter validates.

    Everything the Go code takes from the outside world is a parameter: the
    bytes of the single read, the remote address, the random draw of
    `GenerateRandom`, the formatted `time.Now()`, the quote the book picks,
    whether each cache call and the final write fail, and SHA-1. */
module Handler {
  import opened Bytes
  import opened Hashcash
  import Base64
  import Strconv
  import HashcashParse
  import PowProtocol
  import NonceCache

  /** The difficulty the server is configured with. */
  datatype Config = Config(zeroBits: int)

  /** Why `valid` refuses a solution. */
  datatype ValidError =
    | ParseSolution(parseCause: HashcashParse.ParseError)
    | CheckCache(cacheError: NonceCache.CacheError)
    | ErrUnreconizedRandom
    | ErrInvalidSolutionHeader

  /** Why `Handle` ends without a response, each wrapping the step's error. */
  datatype HandlerError =
    | ReadRequest(readCause: PowProtocol.ProtocolError)
    | InitChallenge(cacheCause: NonceCache.CacheError)
    | ValidateSolution(validCause: ValidError)
    | WriteResponse

  /** What the outside world supplies to one connection. */
  datatype Env = Env(
    remoteAddr: seq<byte>,
    draw: nat,
    date: seq<byte>,
    quote: seq<byte>,
    addFails: bool,
    getFails: bool,
    writeSucceeds: bool)

  /** The token `init` issues for a given draw, address and date. */
  function Challenge(cfg: Config, addr: seq<byte>, draw: nat, date: seq<byte>): (h: Hashcash)
    requires draw < RandLimit
    ensures h.zeroBits == cfg.zeroBits && h.counter == 0
    ensures Base64.Decode(h.rand) == Some(Strconv.Itoa(draw))
  {
    New(cfg.zeroBits, addr, GenerateRandom(draw), date)
  }

  /** `init`: the nonce is added to the cache before the header is returned;
      if the cache refuses it there is no challenge. */
  function Init(cfg: Config, cache: NonceCache.Cache, addr: seq<byte>, draw: nat, date: seq<byte>, addFails: bool)
    : (r: (Result<seq<byte>, NonceCache.CacheError>, NonceCache.Cache))
    requires draw < RandLimit
    ensures r.0.Failure? <==> addFails
    ensures r.0.Failure? ==> r.1 == cache
    ensures r.0.Success? ==> r.1 == cache + {Challenge(cfg, addr, draw, date).rand}
    ensures r.0.Success? ==> r.0.value == Header(Challenge(cfg, addr, draw, date))
  {
    var h := Challenge(cfg, addr, draw, date);
    match NonceCache.Add(cache, h.rand, addFails)
    case Failure(e) => (Failure(e), cache)
    case Success(c) => (Success(Header(h)), c)
  }

  /** The part of `valid` after the parse: consume the token's nonce, then
      check the one counter the token carries against the token's own
      difficulty. A cache fault leaves the cache alone; otherwise the nonce
      is gone afterwards, whether or not the counter validates. */
  function ValidToken(cache: NonceCache.Cache, h: Hashcash, getFails: bool, quote: seq<byte>, sha1: seq<byte> -> HexDigest)
    : (r: (Result<seq<byte>, ValidError>, NonceCache.Cache))
    requires 0 <= h.zeroBits
    ensures getFails ==> r == (Failure(CheckCache(NonceCache.ErrBackend)), cache)
    ensures !getFails ==> r.1 == cache - {h.rand}
    ensures !getFails && h.rand !in cache ==> r.0 == Failure(ErrUnreconizedRandom)
    ensures !getFails && h.rand in cache && !Validate(h, sha1) ==> r.0 == Failure(ErrInvalidSolutionHeader)
    ensures r.0.Success? <==> !getFails && h.rand in cache && Validate(h, sha1)
    ensures r.0.Success? ==> r.0.value == quote
  {
    var (found, cache') := NonceCache.Get(cache, h.rand, getFails);
    match found
    case Failure(e) => (Failure(CheckCache(e)), cache')
    case Success(present) =>
      if !present then (Failure(ErrUnreconizedRandom), cache')
      else if !Validate(h, sha1) then (Failure(ErrInvalidSolutionHeader), cache')
      else (Success(quote), cache')
  }

  /** `valid`: parse, then consume the nonce, then check the counter. The
      configured difficulty, the date and the resource play no part. */
  function Valid(cache: NonceCache.Cache, payload: seq<byte>, getFails: bool, quote: seq<byte>, sha1: seq<byte> -> HexDigest)
    : (r: (Result<seq<byte>, ValidError>, NonceCache.Cache))
    ensures HashcashParse.Parse(payload).Failure? ==>
      r == (Failure(ParseSolution(HashcashParse.Parse(payload).error)), cache)
    ensures getFails && HashcashParse.Parse(payload).Success? ==> r == (Failure(CheckCache(NonceCache.ErrBackend)), cache)
    ensures !getFails && HashcashParse.Parse(payload).Success? ==>
      r.1 == cache - {HashcashParse.Parse(payload).value.rand}
    ensures !getFails && HashcashParse.Parse(payload).Success? && HashcashParse.Parse(payload).value.rand !in cache ==>
      r.0 == Failure(ErrUnreconizedRandom)
    ensures r.0.Success? <==>
      !getFails && HashcashParse.Parse(payload).Success? && HashcashParse.Parse(payload).value.rand in cache
      && Validate(HashcashParse.Parse(payload).value, sha1)
    ensures r.0.Success? ==> r.0.value == quote
  {
    match HashcashParse.Parse(payload)
    case Failure(e) => (Failure(ParseSolution(e)), cache)
    case Success(h) => ValidToken(cache, h, getFails, quote, sha1)
  }

  /** The result of one connection: the bytes written back, the error that
      ended it, and the cache afterwards. */
  datatype Outcome = Outcome(written: Option<seq<byte>>, err: Option<HandlerError>, cache: NonceCache.Cache)

  /** `Handle`: read one request, dispatch on its phase, and write the
      response, which keeps the request's phase byte. Nothing is written once
      a step has failed. */
  function Handle(cfg: Config, cache: NonceCache.Cache, request: PowProtocol.ReadResult, env: Env, sha1: seq<byte> -> HexDigest)
    : (o: Outcome)
    requires PowProtocol.WellSized(request)
    requires env.draw < RandLimit
    ensures o.written.Some? <==> o.err.None?
    ensures o.written.Some? ==>
      request.Received? && |request.data| >= 2 && |o.written.value| >= 2
      && o.written.value[0] == request.data[0] && o.written.value[1] == PowProtocol.Delimiter
    ensures PowProtocol.Read(PowProtocol.New(), request).1.Some? ==>
      o == Outcome(None, Some(ReadRequest(PowProtocol.Read(PowProtocol.New(), request).1.value)), cache)
    ensures o.written.Some? && request.data[0] == PowProtocol.ValidPhase ==> o.written.value[2..] == env.quote
    ensures o.written.Some? && request.data[0] == PowProtocol.InitPhase ==>
      o.written.value[2..] == Header(Challenge(cfg, env.remoteAddr, env.draw, env.date))
    ensures PowProtocol.Read(PowProtocol.New(), request).1.None? && request.data[0] == PowProtocol.InitPhase ==>
      o.cache == if env.addFails then cache else cache + {Challenge(cfg, env.remoteAddr, env.draw, env.date).rand}
    ensures PowProtocol.Read(PowProtocol.New(), request).1.None? && request.data[0] == PowProtocol.InitPhase ==>
      (o.written.Some? <==> !env.addFails && env.writeSucceeds)
      && (env.addFails ==> o.err == Some(InitChallenge(NonceCache.ErrBackend)))
      && (!env.addFails && !env.writeSucceeds ==> o.err == Some(WriteResponse))
    ensures PowProtocol.Read(PowProtocol.New(), request).1.None? && request.data[0] == PowProtocol.ValidPhase ==>
      var v := Valid(cache, request.data[2..], env.getFails, env.quote, sha1);
      && o.cache == v.1
      && (o.written.Some? <==> v.0.Success? && env.writeSucceeds)
      && (v.0.Failure? ==> o.err == Some(ValidateSolution(v.0.error)))
      && (v.0.Success? && !env.writeSucceeds ==> o.err == Some(WriteResponse))
  {
    var (prot, readErr) := PowProtocol.Read(PowProtocol.New(), request);
    if readErr.Some? then Outcome(None, Some(ReadRequest(readErr.value)), cache)
    else
      var (payload, cache') :=
        if prot.phase == PowProtocol.InitPhase then
          var (r, c) := Init(cfg, cache, env.remoteAddr, env.draw, env.date, env.addFails);
          (if r.Success? then Success(r.value) else Failure(InitChallenge(r.error)), c)
        else
          var (r, c) := Valid(cache, prot.payload, env.getFails, env.quote, sha1);
          (if r.Success? then Success(r.value) else Failure(ValidateSolution(r.error)), c);
      if payload.Failure? then Outcome(None, Some(payload.error), cache')
      else
        match PowProtocol.Write(PowProtocol.SetPayload(prot, payload.value), env.writeSucceeds)
        case None => Outcome(None, Some(WriteResponse), cache')
        case Some(bytes) => Outcome(Some(bytes), None, cache')
  }

  /** A solution that was accepted cannot be accepted again: its nonce is
      gone, so the same payload now gets `ErrUnreconizedRandom`. */
  lemma SecondSubmissionRejected(cache: NonceCache.Cache, payload: seq<byte>, getFails: bool, quote: seq<byte>,
                                 quote': seq<byte>, sha1: seq<byte> -> HexDigest)
    requires Valid(cache, payload, getFails, quote, sha1).0.Success?
    ensures Valid(Valid(cache, payload, getFails, quote, sha1).1, payload, false, quote', sha1).0 == Failure(ErrUnreconizedRandom)
  {
  }

  /** A wrong solution uses up its challenge too: the nonce is taken out of
      the cache before the counter is checked. */
  lemma FailedSolutionConsumesNonce(cache: NonceCache.Cache, payload: seq<byte>, quote: seq<byte>, sha1: seq<byte> -> HexDigest)
    requires HashcashParse.Parse(payload).Success?
    requires HashcashParse.Parse(payload).value.rand in cache
    requires !Validate(HashcashParse.Parse(payload).value, sha1)
    ensures Valid(cache, payload, false, quote, sha1) ==
      (Failure(ErrInvalidSolutionHeader), cache - {HashcashParse.Parse(payload).value.rand})
  {
  }

  /** One call into the phase logic, without the framing around it. */
  datatype Call =
    | InitCall(addr: seq<byte>, draw: nat, date: seq<byte>, addFails: bool)
    | ValidCall(payload: seq<byte>, getFails: bool)

  predicate WellFormedCall(c: Call) {
    c.InitCall? ==> c.draw < RandLimit
  }

  /** The nonce a call puts into the cache, if it does. */
  function Issued(c: Call): Option<seq<byte>>
    requires WellFormedCall(c)
  {
    if c.InitCall? && !c.addFails then Some(GenerateRandom(c.draw)) else None
  }

  /** The cache after a call, and the nonce of the solution it accepted. */
  function Step(cfg: Config, cache: NonceCache.Cache, c: Call, sha1: seq<byte> -> HexDigest)
    : (r: (NonceCache.Cache, Option<seq<byte>>))
    requires WellFormedCall(c)
  {
    match c
    case InitCall(addr, draw, date, addFails) =>
      (Init(cfg, cache, addr, draw, date, addFails).1, None)
    case ValidCall(payload, getFails) =>
      var (r, cache') := Valid(cache, payload, getFails, [], sha1);
      (cache', if r.Success? then Some(HashcashParse.Parse(payload).value.rand) else None)
  }

  /** How many calls of the sequence have a solution with nonce `n` accepted. */
  function AcceptedCount(cfg: Config, cache: NonceCache.Cache, calls: seq<Call>, n: seq<byte>, sha1: seq<byte> -> HexDigest): nat
    requires forall i :: 0 <= i < |calls| ==> WellFormedCall(calls[i])
    decreases |calls|
  {
    if |calls| == 0 then 0
    else
      var (cache', accepted) := Step(cfg, cache, calls[0], sha1);
      NonceCache.Indicator(accepted == Some(n)) + AcceptedCount(cfg, cache', calls[1..], n, sha1)
  }

  /** How many calls of the sequence put nonce `n` into the cache. */
  function IssuedCount(calls: seq<Call>, n: seq<byte>): nat
    requires forall i :: 0 <= i < |calls| ==> WellFormedCall(calls[i])
    decreases |calls|
  {
    if |calls| == 0 then 0 else NonceCache.Indicator(Issued(calls[0]) == Some(n)) + IssuedCount(calls[1..], n)
  }

  /** The cache after running the whole sequence. */
  function FinalCache(cfg: Config, cache: NonceCache.Cache, calls: seq<Call>, sha1: seq<byte> -> HexDigest): NonceCache.Cache
    requires forall i :: 0 <= i < |calls| ==> WellFormedCall(calls[i])
    decreases |calls|
  {
    if |calls| == 0 then cache else FinalCache(cfg, Step(cfg, cache, calls[0], sha1).0, calls[1..], sha1)
  }

  /** The cache operation a call performs: a successful Init adds its nonce;
      a Valid whose token parses and whose lookup does not fail takes the
      token's nonce, passing when the counter validates; every other call
      leaves the cache alone. */
  function CacheOp(c: Call, sha1: seq<byte> -> HexDigest): NonceCache.Op
    requires WellFormedCall(c)
  {
    match c
    case InitCall(_, draw, _, addFails) =>
      if addFails then NonceCache.Untouched else NonceCache.Put(GenerateRandom(draw))
    case ValidCall(payload, getFails) =>
      var parsed := HashcashParse.Parse(payload);
      if getFails || parsed.Failure? then NonceCache.Untouched
      else NonceCache.Take(parsed.value.rand, Validate(parsed.value, sha1))
  }

  function CacheOps(calls: seq<Call>, sha1: seq<byte> -> HexDigest): (ops: seq<NonceCache.Op>)
    requires forall i :: 0 <= i < |calls| ==> WellFormedCall(calls[i])
    ensures |ops| == |calls|
    ensures forall i :: 0 <= i < |calls| ==> ops[i] == CacheOp(calls[i], sha1)
    decreases |calls|
  {
    if |calls| == 0 then [] else [CacheOp(calls[0], sha1)] + CacheOps(calls[1..], sha1)
  }

  /** A call acts on the cache exactly as its cache operation does, and
      issues a nonce exactly when that operation adds it. */
  lemma StepIsCacheOp(cfg: Config, cache: NonceCache.Cache, c: Call, sha1: seq<byte> -> HexDigest)
    requires WellFormedCall(c)
    ensures Step(cfg, cache, c, sha1) == NonceCache.Apply(cache, CacheOp(c, sha1))
    ensures forall n :: Issued(c) == Some(n) <==> CacheOp(c, sha1) == NonceCache.Put(n)
  {
  }

  /** Running calls through the handler is running their cache operations. */
  lemma {:induction false} CallsAreCacheOps(cfg: Config, cache: NonceCache.Cache, calls: seq<Call>, n: seq<byte>, sha1: seq<byte> -> HexDigest)
    requires forall i :: 0 <= i < |calls| ==> WellFormedCall(calls[i])
    ensures AcceptedCount(cfg, cache, calls, n, sha1) == NonceCache.Accepted(cache, CacheOps(calls, sha1), n)
    ensures FinalCache(cfg, cache, calls, sha1) == NonceCache.Final(cache, CacheOps(calls, sha1))
    ensures IssuedCount(calls, n) == NonceCache.Puts(CacheOps(calls, sha1), n)
    decreases |calls|
  {
    if |calls| > 0 {
      var ops := CacheOps(calls, sha1);
      assert ops[0] == CacheOp(calls[0], sha1) && ops[1..] == CacheOps(calls[1..], sha1);
      StepIsCacheOp(cfg, cache, calls[0], sha1);
      CallsAreCacheOps(cfg, Step(cfg, cache, calls[0], sha1).0, calls[1..], n, sha1);
    }
  }

  /** The replay bound over any sequence of calls: solutions with nonce `n`
      are accepted at most as often as `n` was issued, plus once if it was
      already waiting in the cache; a nonce still in the cache at the end
      counts against the same budget. */
  lemma ReplayBound(cfg: Config, cache: NonceCache.Cache, calls: seq<Call>, n: seq<byte>, sha1: seq<byte> -> HexDigest)
    requires forall i :: 0 <= i < |calls| ==> WellFormedCall(calls[i])
    ensures AcceptedCount(cfg, cache, calls, n, sha1) + NonceCache.Indicator(n in FinalCache(cfg, cache, calls, sha1))
      <= IssuedCount(calls, n) + NonceCache.Indicator(n in cache)
  {
    CallsAreCacheOps(cfg, cache, calls, n, sha1);
    NonceCache.ReplayBound(cache, CacheOps(calls, sha1), n);
  }

  /** Single use: a nonce issued once and not in the cache beforehand is
      accepted at most once, however the calls interleave. */
  lemma SingleUse(cfg: Config, cache: NonceCache.Cache, calls: seq<Call>, n: seq<byte>, sha1: seq<byte> -> HexDigest)
    requires forall i :: 0 <= i < |calls| ==> WellFormedCall(calls[i])
    requires n !in cache
    requires IssuedCount(calls, n) <= 1
    ensures AcceptedCount(cfg, cache, calls, n, sha1) <= 1
  {
    ReplayBound(cfg, cache, calls, n, sha1);
  }

  /** One connection: what its single read returns, and what the outside
      world supplies to it. */
  datatype Connection = Connection(request: PowProtocol.ReadResult, env: Env)

  predicate Admissible(conn: Connection) {
    PowProtocol.WellSized(conn.request) && conn.env.draw < RandLimit
  }

  /** The call a connection makes once its request reads, if it does. */
  function ConnCall(conn: Connection): (r: Option<Call>)
    requires Admissible(conn)
    ensures r.None? <==> PowProtocol.Read(PowProtocol.New(), conn.request).1.Some?
    ensures r.Some? ==> WellFormedCall(r.value)
  {
    var (prot, readErr) := PowProtocol.Read(PowProtocol.New(), conn.request);
    if readErr.Some? then None
    else if prot.phase == PowProtocol.InitPhase then
      Some(InitCall(conn.env.remoteAddr, conn.env.draw, conn.env.date, conn.env.addFails))
    else Some(ValidCall(prot.payload, conn.env.getFails))
  }

  /** `Handle` does to the cache what `Step` does on the connection's call;
      a request that does not read leaves the cache alone. A Valid request
      is answered exactly when `Step` accepts its solution and the write
      succeeds. */
  lemma HandleIsStep(cfg: Config, cache: NonceCache.Cache, conn: Connection, sha1: seq<byte> -> HexDigest)
    requires Admissible(conn)
    ensures var o := Handle(cfg, cache, conn.request, conn.env, sha1);
      && (ConnCall(conn).None? ==> o.cache == cache && o.written.None?)
      && (ConnCall(conn).Some? ==> o.cache == Step(cfg, cache, ConnCall(conn).value, sha1).0)
      && (ConnCall(conn).Some? && ConnCall(conn).value.ValidCall? ==>
            (o.written.Some? <==> Step(cfg, cache, ConnCall(conn).value, sha1).1.Some? && conn.env.writeSucceeds))
  {
    var (prot, readErr) := PowProtocol.Read(PowProtocol.New(), conn.request);
    if readErr.None? && prot.phase == PowProtocol.ValidPhase {
      assert prot.payload == conn.request.data[2..];
    }
  }

  /** A connection answered with a quote for a token whose nonce is `n`. */
  predicate Answers(conn: Connection, n: seq<byte>)
    requires Admissible(conn)
  {
    && ConnCall(conn).Some? && ConnCall(conn).value.ValidCall?
    && HashcashParse.Parse(ConnCall(conn).value.payload).Success?
    && HashcashParse.Parse(ConnCall(conn).value.payload).value.rand == n
  }

  /** How many connections of the sequence, handled one after the other
      against a shared cache, are answered with a quote for nonce `n`. */
  function Served(cfg: Config, cache: NonceCache.Cache, conns: seq<Connection>, n: seq<byte>, sha1: seq<byte> -> HexDigest): nat
    requires forall i :: 0 <= i < |conns| ==> Admissible(conns[i])
    decreases |conns|
  {
    if |conns| == 0 then 0
    else
      assert Admissible(conns[0]);
      var o := Handle(cfg, cache, conns[0].request, conns[0].env, sha1);
      NonceCache.Indicator(o.written.Some? && Answers(conns[0], n)) + Served(cfg, o.cache, conns[1..], n, sha1)
  }

  /** How many connections of the sequence make a call that issues `n`. */
  function IssuedBy(conns: seq<Connection>, n: seq<byte>): nat
    requires forall i :: 0 <= i < |conns| ==> Admissible(conns[i])
    decreases |conns|
  {
    if |conns| == 0 then 0
    else
      var c := ConnCall(conns[0]);
      NonceCache.Indicator(c.Some? && Issued(c.value) == Some(n)) + IssuedBy(conns[1..], n)
  }

  /** The cache after handling the whole sequence. */
  function CacheAfter(cfg: Config, cache: NonceCache.Cache, conns: seq<Connection>, sha1: seq<byte> -> HexDigest): NonceCache.Cache
    requires forall i :: 0 <= i < |conns| ==> Admissible(conns[i])
    decreases |conns|
  {
    if |conns| == 0 then cache
    else
      assert Admissible(conns[0]);
      CacheAfter(cfg, Handle(cfg, cache, conns[0].request, conns[0].env, sha1).cache, conns[1..], sha1)
  }

  /** The cache operation of a connection: its call's, or none when the
      request does not read. */
  function ConnOp(conn: Connection, sha1: seq<byte> -> HexDigest): NonceCache.Op
    requires Admissible(conn)
  {
    match ConnCall(conn)
    case None => NonceCache.Untouched
    case Some(c) => CacheOp(c, sha1)
  }

  function ConnOps(conns: seq<Connection>, sha1: seq<byte> -> HexDigest): (ops: seq<NonceCache.Op>)
    requires forall i :: 0 <= i < |conns| ==> Admissible(conns[i])
    ensures |ops| == |conns|
    ensures forall i :: 0 <= i < |conns| ==> ops[i] == ConnOp(conns[i], sha1)
  {
    seq(|conns|, i requires 0 <= i < |conns| => ConnOp(conns[i], sha1))
  }

  /** One connection acts on the cache as its operation does, a quote for
      nonce `n` is only written when that operation accepts `n`, and `n` is
      issued exactly when the operation adds it. */
  lemma HandleIsCacheOp(cfg: Config, cache: NonceCache.Cache, conn: Connection, n: seq<byte>, sha1: seq<byte> -> HexDigest)
    requires Admissible(conn)
    ensures var o := Handle(cfg, cache, conn.request, conn.env, sha1);
      && o.cache == NonceCache.Apply(cache, ConnOp(conn, sha1)).0
      && (o.written.Some? && Answers(conn, n) ==> NonceCache.Apply(cache, ConnOp(conn, sha1)).1 == Some(n))
      && (ConnCall(conn).Some? && Issued(ConnCall(conn).value) == Some(n) <==> ConnOp(conn, sha1) == NonceCache.Put(n))
  {
    HandleIsStep(cfg, cache, conn, sha1);
    if ConnCall(conn).Some? {
      StepIsCacheOp(cfg, cache, ConnCall(conn).value, sha1);
    }
  }

  /** Handling connections in sequence is running their cache operations:
      the answered count is at most the accepted count, the caches agree, and
      so do the issue counts. */
  lemma {:induction false} ConnectionsAreCacheOps(cfg: Config, cache: NonceCache.Cache, conns: seq<Connection>, n: seq<byte>,
                                                  sha1: seq<byte> -> HexDigest)
    requires forall i :: 0 <= i < |conns| ==> Admissible(conns[i])
    ensures Served(cfg, cache, conns, n, sha1) <= NonceCache.Accepted(cache, ConnOps(conns, sha1), n)
    ensures CacheAfter(cfg, cache, conns, sha1) == NonceCache.Final(cache, ConnOps(conns, sha1))
    ensures IssuedBy(conns, n) == NonceCache.Puts(ConnOps(conns, sha1), n)
    decreases |conns|
  {
    if |conns| > 0 {
      var ops := ConnOps(conns, sha1);
      assert ops[1..] == ConnOps(conns[1..], sha1);
      HandleIsCacheOp(cfg, cache, conns[0], n, sha1);
      ConnectionsAreCacheOps(cfg, Handle(cfg, cache, conns[0].request, conns[0].env, sha1).cache, conns[1..], n, sha1);
    }
  }

  /** The replay bound at the server's entry point: over any sequence of
      connections, quotes for nonce `n` are written at most as often as `n`
      was issued, plus once if it was already in the cache. */
  lemma ServedBound(cfg: Config, cache: NonceCache.Cache, conns: seq<Connection>, n: seq<byte>, sha1: seq<byte> -> HexDigest)
    requires forall i :: 0 <= i < |conns| ==> Admissible(conns[i])
    ensures Served(cfg, cache, conns, n, sha1) + NonceCache.Indicator(n in CacheAfter(cfg, cache, conns, sha1))
      <= IssuedBy(conns, n) + NonceCache.Indicator(n in cache)
  {
    ConnectionsAreCacheOps(cfg, cache, conns, n, sha1);
    NonceCache.ReplayBound(cache, ConnOps(conns, sha1), n);
  }

  /** A challenge issued once is answered with a quote at most once. */
  lemma ServedOnce(cfg: Config, cache: NonceCache.Cache, conns: seq<Connection>, n: seq<byte>, sha1: seq<byte> -> HexDigest)
    requires forall i :: 0 <= i < |conns| ==> Admissible(conns[i])
    requires n !in cache
    requires IssuedBy(conns, n) <= 1
    ensures Served(cfg, cache, conns, n, sha1) <= 1
  {
    ServedBound(cfg, cache, conns, n, sha1);
  }

  /** The remote address of an IPv4 client, "a.b.c.d:port", as the resource
      field: non-empty, no "::", and no ':' at either end. */
  predicate PlainAddress(addr: seq<byte>) {
    0 < |addr| && HashcashParse.NoDoubleDelimiter(addr) && addr[0] != Delimiter && addr[|addr| - 1] != Delimiter
  }

  /** The whole exchange: a challenge issued to a client with a plain address
      parses back to the issued token; any counter that meets the
      difficulty is accepted with the quote once, and a second submission of
      it is refused as an unknown nonce. */
  lemma ChallengeSolvedOnce(cfg: Config, cache: NonceCache.Cache, addr: seq<byte>, draw: nat, date: seq<byte>,
                            c: int, quote: seq<byte>, sha1: seq<byte> -> HexDigest)
    requires draw < RandLimit
    requires 1 <= cfg.zeroBits <= MaxInt64
    requires IsDate(date) && PlainAddress(addr)
    requires IsInt64(c)
    requires Validate(Challenge(cfg, addr, draw, date).(counter := c), sha1)
    ensures var (issued, cache1) := Init(cfg, cache, addr, draw, date, false);
      var t := Challenge(cfg, addr, draw, date);
      issued.Success? && HashcashParse.Parse(issued.value) == Success(t)
      && Valid(cache1, Header(t.(counter := c)), false, quote, sha1).0 == Success(quote)
      && Valid(Valid(cache1, Header(t.(counter := c)), false, quote, sha1).1, Header(t.(counter := c)), false, quote, sha1).0
         == Failure(ErrUnreconizedRandom)
  {
    var t := Challenge(cfg, addr, draw, date);
    HashcashParse.NewHeaderRoundTrip(cfg.zeroBits, addr, t.rand, date, 0);
    assert t.(counter := 0) == t;
    HashcashParse.NewHeaderRoundTrip(cfg.zeroBits, addr, t.rand, date, c);
  }

  /** The server never compares the token's difficulty, date or resource with
      what it issued: a token of difficulty 1, for any date and resource that
      parse, is accepted whatever difficulty the server is configured with. */
  lemma DifficultyNotEnforced(cfg: Config, cache: NonceCache.Cache, resource: seq<byte>, rand: seq<byte>, date: seq<byte>,
                              c: int, env: Env, sha1: seq<byte> -> HexDigest)
    requires env.draw < RandLimit && !env.getFails && env.writeSucceeds
    requires IsDate(date) && PlainAddress(resource) && Base64.IsValid(rand) && IsInt64(c)
    requires rand in cache
    requires var t := New(1, resource, rand, date).(counter := c);
      Validate(t, sha1) && |Header(t)| <= PowProtocol.ReadBufferSize - 2
    ensures var t := New(1, resource, rand, date).(counter := c);
      Handle(cfg, cache, PowProtocol.Received([PowProtocol.ValidPhase, PowProtocol.Delimiter] + Header(t)), env, sha1)
      == Outcome(Some([PowProtocol.ValidPhase, PowProtocol.Delimiter] + env.quote), None, cache - {rand})
  {
    var t := New(1, resource, rand, date).(counter := c);
    HashcashParse.NewHeaderRoundTrip(1, resource, rand, date, c);
    PowProtocol.MessageRoundTrip(PowProtocol.New(), PowProtocol.Protocol(PowProtocol.ValidPhase, Header(t)));
  }
}
