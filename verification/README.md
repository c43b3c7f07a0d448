# go-pow in Dafny

go-pow is a TCP "word of wisdom" server protected by a hashcash proof of
work. A client opens a connection and sends an Init message (`0_`). The
server answers with a challenge header:

    1:<bits>:<date>:<resource>::<rand>:<counter>

- The resource is the client's remote address.
- The rand is a fresh base64 nonce, which the server remembers in a cache.

The client searches for a counter whose SHA-1 hex digest starts with
`<bits>` '0' characters. It then sends the solved header back in a Valid
message (`1_<header>`). The server checks four things:

- the header parses;
- the nonce is in the cache, and the check removes it;
- the digest has the leading zeros the token itself asks for;
- if all of that holds, it answers with a quote.

This project models that core as pure Dafny functions over byte sequences,
one module per source package:

| module | models |
|---|---|
| `Bytes` | bytes, Go's `int` range, `bytes.Index`, and the `Result`/`Option` carriers |
| `Strconv` | `strconv.Itoa` and `strconv.Atoi`, as hashcash and the legacy framing use them |
| `Base64` | `base64.StdEncoding` encode and decode: padded, with `\r`/`\n` skipped |
| `Hashcash` | the token, header construction, nonce generation, the leading-zero check, validation and the bounded solver (`pkg/hashcash/hashcash.go`) |
| `HashcashParse` | the header parser and `toCounter` (`pkg/hashcash/parse.go`) |
| `PowProtocol` | the binary `phase '_' payload` codec (`pkg/pow/protocol.go`) |
| `LegacyProto` | the older text framing (`pkg/proto/proto.go`) |
| `NonceCache` | the nonce cache: a set with add and atomic get-and-delete (`server/pkg/cache/redis.go`) |
| `Handler` | one connection of the server handler: read, init or valid, write (`server/internal/handler/handler.go`) |
| `HashcashExamples` | the concrete headers and counters of the package's own tests |

Effects are parameters:

- **SHA-1** is a function `sha1` that returns 40 lowercase hex characters.
- **The date** is the bytes `time.Now().Format("060102150405")` would give.
- **The random draw** is a number below 1000.
- **The quote** is whatever the book returns.
- **Backend and write failures** are booleans.
- **The bytes one `conn.Read` returned** are a `ReadResult`.

## Model

| member | source | states |
|---|---|---|
| Bytes.Index | pkg/hashcash/parse.go:51-54 | `bytes.Index`: -1 when the separator never occurs, otherwise the first position where it does |
| Bytes.LacksBeforeIndex | pkg/hashcash/parse.go:81-86 | the text before the first occurrence of a byte holds no copy of that byte |
| Bytes.IndexFrom | pkg/hashcash/parse.go:70-73 | the search from a start position: the first occurrence at or after it, or -1 when there is none |
| Strconv.Itoa | pkg/hashcash/hashcash.go:44 | the decimal text of an int is non-empty and holds only digits, with an optional leading '-' |
| Strconv.Atoi | pkg/hashcash/parse.go:75-78 | only an optional sign followed by at least one digit converts; the result lies in Go's int range; its sign follows the text's |
| Strconv.DigitsRoundTrip | pkg/hashcash/hashcash.go:85 | reading back the digits printed for a natural number gives that number |
| Strconv.AtoiItoa | pkg/hashcash/parse.go:119 | `Atoi(Itoa(n)) == n` for every int in Go's range, negative values included |
| Strconv.ItoaExcludes | pkg/proto/proto.go:51-53 | decimal text contains neither the hashcash ':' nor the framing '_' |
| Base64.Char | pkg/hashcash/hashcash.go:76-78 | every 6-bit value maps to a character of the standard alphabet |
| Base64.Val | pkg/hashcash/parse.go:89-93 | decoding a character inverts the alphabet: `Char(Val(c)) == c` |
| Base64.ValChar | pkg/hashcash/parse.go:113 | `Val(Char(v)) == v` for every 6-bit value |
| Base64.Encode | pkg/hashcash/hashcash.go:86-87 | the padded length is 4 per started group of 3 bytes; every output byte is from the alphabet or '=' |
| Base64.StripNewlines | pkg/hashcash/parse.go:90 | no '\r' or '\n' survives the decoder's newline skipping |
| Base64.DecodeQuanta | pkg/hashcash/parse.go:90 | only whole four-character quanta decode |
| Base64.Decode | pkg/hashcash/parse.go:90 | `DecodeString` accepts only input that is whole quanta once '\r' and '\n' are dropped; its inverse is stated by `Base64.DecodeEncode` |
| Base64.DecodeQuantaLength | pkg/hashcash/parse.go:113 | n quanta decode to between 3n - 2 and 3n bytes: three per quantum, less one per '=' |
| Base64.StripNewlinesNoop | pkg/hashcash/parse.go:90 | text without newlines passes through the skipping unchanged |
| Base64.BlockRoundTrip | pkg/hashcash/parse.go:113 | decoding the four characters of one encoded block gives its three bytes back |
| Base64.TailOneRoundTrip | pkg/hashcash/parse.go:113 | a final quantum with two '=' decodes to the single byte it encoded |
| Base64.TailTwoRoundTrip | pkg/hashcash/parse.go:113 | a final quantum with one '=' decodes to the two bytes it encoded |
| Base64.DecodeQuantaEncode | pkg/hashcash/parse.go:113 | decoding the quanta of `Encode(s)` gives `s` back, for every byte string |
| Base64.DecodeEncode | pkg/hashcash/parse.go:113-116 | `DecodeString(EncodeToString(s)) == s`: the counter and nonce encodings are always decodable |
| Base64.DecodeQuantaAlphabet | pkg/hashcash/parse.go:90-93 | a decodable text holds only alphabet characters and '=' |
| Base64.ValidCharacters | pkg/hashcash/parse.go:86-93 | an accepted nonce holds only alphabet characters, '=', '\r' and '\n', and so never the ':' that ends it |
| Base64.StripKeeps | pkg/hashcash/parse.go:90 | every byte other than '\r' and '\n' survives newline skipping |
| Hashcash.New | pkg/hashcash/hashcash.go:36-66 | a fresh token has the given bits and nonce and counter 0; its header starts "1:" and ends "::" + rand + ":" |
| Hashcash.GenerateRandom | pkg/hashcash/hashcash.go:69-81 | the nonce decodes to the decimal text of the drawn number |
| Hashcash.Header | pkg/hashcash/hashcash.go:84-92 | the full header starts with the stored header |
| Hashcash.HeaderDecodes | pkg/hashcash/hashcash.go:84-92 | what `Header` appends to the stored header decodes to the counter's decimal form |
| Hashcash.AllZero | pkg/hashcash/hashcash.go:115-119 | true exactly when every byte is '0' |
| Hashcash.IsValid | pkg/hashcash/hashcash.go:110-122 | true exactly when the hash is at least `zeroBits` long and its first `zeroBits` bytes are '0' |
| Hashcash.Validate | pkg/hashcash/hashcash.go:125-133 | true exactly when the SHA-1 hex digest of the full header has `zeroBits` leading '0's |
| Hashcash.DifficultyBeyondDigest | pkg/hashcash/hashcash.go:111-113 | a difficulty above 40 can never be met, because the hex digest has only 40 characters |
| Hashcash.Calculate | pkg/hashcash/hashcash.go:136-149 | the counters tried run from the start upwards; every one skipped fails; success means a counter within the bound that validates; failure leaves the counter past the bound; digests are counted |
| Hashcash.FreshHeaderEndsInMA | pkg/hashcash/hashcash.go:84-92 | a fresh token's full header ends in "MA==", the encoding of counter 0 |
| HashcashParse.ToCounter | pkg/hashcash/parse.go:111-125 | a counter that converts lies in Go's int range |
| HashcashParse.ToCounterOfHeader | pkg/hashcash/parse.go:111-125 | `toCounter` reads back every counter that `Header` encodes |
| HashcashParse.ParseBits | pkg/hashcash/parse.go:64-78 | accepted bits are an integer of at least 1; every failure is an invalid delimiter or invalid bits |
| HashcashParse.ParseBitsDelimiter | pkg/hashcash/parse.go:64-73 | a byte 1 other than ':', or no ':' after it, is an invalid delimiter |
| HashcashParse.ParseBitsOf | pkg/hashcash/parse.go:69-78 | with the field between byte 1 and the next ':', the bits are accepted exactly when `Atoi` converts the field to at least 1, and then equal that value; otherwise they are invalid bits |
| HashcashParse.ParseTail | pkg/hashcash/parse.go:80-99 | on success the part after "::" is nonce + ':' + counter text, the nonce holds no ':' and decodes, and the counter text converts to the counter; every failure is an invalid delimiter, rand or counter |
| HashcashParse.ParseTailDelimiter | pkg/hashcash/parse.go:80-84 | a tail without ':' is an invalid delimiter |
| HashcashParse.ParseTailOf | pkg/hashcash/parse.go:86-99 | with the nonce before the first ':': a nonce that does not decode is an invalid rand, then a counter text `toCounter` refuses is an invalid counter, and otherwise nonce, text and counter value are returned |
| HashcashParse.ParseFields | pkg/hashcash/parse.go:56-107 | on success the bits are at least 1, the nonce decodes, and the stored header is a prefix of the input |
| HashcashParse.ParseSpec | pkg/hashcash/parse.go:49-108 | for every header whose first "::" ends the first part: version, then byte 1, then bits, then tail decide the error in that order; a success has the bits of the first part, the nonce and counter of the second, and the header without the counter text |
| HashcashParse.ParseOfShortFirst | pkg/hashcash/parse.go:59-67 | a first part that is empty or lacks the '1' is an invalid version; a lone '1' is an invalid delimiter |
| HashcashParse.ParseOfFields | pkg/hashcash/parse.go:64-107 | past the version byte, the bits fail first, then the tail, and otherwise their values are assembled |
| HashcashParse.CutAtFirst | pkg/hashcash/parse.go:51-57 | every header with a "::" is the part before its first "::", the "::" and the rest, and that part holds no "::" and does not end in ':' |
| HashcashParse.KeptHeader | pkg/hashcash/parse.go:105 | the header kept, everything but the counter text, is the first part, "::", the nonce and ':' |
| HashcashParse.Parse | pkg/hashcash/parse.go:49-108 | no "::" gives an invalid delimiter; a first byte other than '1' gives an invalid version; a success has bits of at least 1, a decodable nonce and a header prefix |
| HashcashParse.ParseInto | pkg/hashcash/parse.go:101-107 | the receiver is left alone on error and overwritten with every field on success |
| HashcashParse.ParseAsWritten | pkg/hashcash/parse.go:49-108 | the Go parser panics exactly when the first "::" is at position 0, or at 1 behind a '1'; otherwise it returns what the corrected `Parse` does |
| HashcashParse.ParseShortFirstPart | pkg/hashcash/parse.go:59-67 | the corrected parser reports those two inputs as an invalid version and an invalid delimiter |
| HashcashParse.PanicExample | pkg/hashcash/parse.go:64-67 | "1::" panics in Go, and the corrected parser rejects it as an invalid delimiter |
| HashcashParse.FirstDoubleDelimiter | pkg/hashcash/parse.go:51 | the "::" found is the one after the first part when that part has none |
| HashcashParse.ParseBitsOfPrefix | pkg/hashcash/parse.go:69-78 | the bits `New` prints are read back when they are at least 1, and rejected as invalid bits otherwise |
| HashcashParse.ParseTailOfHeader | pkg/hashcash/parse.go:80-99 | a decodable nonce followed by ':' and an encoded counter parses back to both |
| HashcashParse.ParseWellFormed | pkg/hashcash/parse.go:49-108 | a header built from bits of at least 1, fields without an early "::", a valid nonce and an encoded counter parses back to exactly those fields |
| HashcashParse.ParseHeaderRoundTrip | pkg/hashcash/parse.go:49-108 | `Parse(Header(h)) == h` for every token `New` builds and every counter, when the fields keep the nonce's "::" first |
| HashcashParse.NewIsPrefix | pkg/hashcash/hashcash.go:36-58 | `New`'s header is version, bits, date and resource, then "::", nonce and ':' |
| HashcashParse.SimpleFieldsKeepDelimiterFirst | pkg/hashcash/hashcash.go:46-54 | a date without ':' and a resource that neither holds "::" nor starts or ends with ':' put no "::" before the nonce |
| HashcashParse.NewHeaderRoundTrip | pkg/hashcash/parse.go:49-108 | every token the server issues for a 12-digit date and an IPv4-style address parses back to itself, for every counter |
| HashcashParse.LowDifficultyRejected | pkg/hashcash/parse.go:75-78 | a token built with difficulty below 1 never parses: it fails with invalid bits |
| HashcashParse.TailDecidesParse | pkg/hashcash/parse.go:80-99 | once the first part is accepted, a header fails exactly as its tail after "::" does |
| HashcashParse.BracketNonceRejected | pkg/hashcash/parse.go:89-93 | a nonce "1]" is not base64 and is rejected as an invalid rand |
| HashcashParse.LoopbackHeader | pkg/hashcash/hashcash.go:36-58 | for the address "[::1]:5000" the first "::" of the header lies inside the address |
| HashcashParse.IPv6ResourceBreaksParse | server/internal/handler/handler.go:79 | a challenge issued to the IPv6 loopback client "[::1]:5000" never parses: it fails with invalid rand |
| PowProtocol.New | pkg/pow/protocol.go:66-77 | a fresh protocol is in the Init phase with an empty payload |
| PowProtocol.Message | pkg/pow/protocol.go:80-88 | the wire form is the phase byte, '_', then the payload; `Read` inverts it (`PowProtocol.MessageRoundTrip`) |
| PowProtocol.SetPhase | pkg/pow/protocol.go:95-98 | the phase changes and the payload does not |
| PowProtocol.SetPayload | pkg/pow/protocol.go:105-108 | the payload changes and the phase does not |
| PowProtocol.Read | pkg/pow/protocol.go:111-160 | on error nothing changes; on success the phase is the first byte and is Init or Valid; the payload is replaced by the bytes after "_", except that a bare "0_" keeps the old payload |
| PowProtocol.Write | pkg/pow/protocol.go:163-169 | a successful write sends the phase, '_' and the payload, and a failed one sends nothing |
| PowProtocol.ReadErrors | pkg/pow/protocol.go:126-157 | too short gives invalid message, then a missing '_' gives invalid delimiter, then an unknown phase gives invalid phase; "1_" gives invalid message |
| PowProtocol.MessageRoundTrip | pkg/pow/protocol.go:80-160 | reading what `Message` wrote gives back phase and payload, for both phases and every non-empty payload that fits in one read |
| PowProtocol.SettersThenMessage | pkg/pow/protocol.go:80-108 | `SetPhase` and `SetPayload` then `Message` produce exactly phase, '_' and payload |
| PowProtocol.ReadExamples | pkg/pow/protocol_test.go:19-54 | "0_" and "1_abc" read as Init and Valid "abc"; "0", "1_", "0abc" and "2_abc" fail with the errors the tests expect |
| LegacyProto.Split | pkg/proto/proto.go:78 | `strings.Split`: one piece more than there are separators, no separator inside a piece, and the pieces join back to the input |
| LegacyProto.String | pkg/proto/proto.go:51-53 | the printed message has exactly one '_' more than the header, and the header follows the last '_' added |
| LegacyProto.Parse | pkg/proto/proto.go:76-108 | on error the message is unchanged; a success takes its phase from `Atoi` of the first piece; invalid phase exactly when that piece does not convert or is neither 0 nor 1; invalid message exactly when phase 0 comes with a '_' or phase 1 without exactly one; phase 0 keeps the header; phase 1 takes the header after the '_' |
| LegacyProto.ParseNeverReportsDelimiter | pkg/proto/proto.go:78-81 | the invalid-delimiter error is unreachable, because `Split` never returns an empty list |
| LegacyProto.ValidRoundTrip | pkg/proto/proto.go:51-53 | parsing a printed phase-1 message whose header has no '_' gives that message back |
| LegacyProto.InitNeverRoundTrips | pkg/proto/proto.go:90-95 | a printed phase-0 message never parses back: it is an invalid message and the receiver is untouched |
| NonceCache.Add | server/pkg/cache/redis.go:55-58 | after a successful add the key is present and nothing else changed; a backend fault is reported |
| NonceCache.Get | server/pkg/cache/redis.go:15-24 | the result says whether the key was present, and the key is gone afterwards with nothing else changed |
| NonceCache.GetConsumes | server/pkg/cache/redis.go:60-75 | a second lookup of the same key reports it absent |
| NonceCache.AddThenGet | server/pkg/cache/redis.go:55-75 | the nonce just added is found once, and the cache returns to its earlier contents |
| NonceCache.Apply | server/pkg/cache/redis.go:55-75 | an add inserts the key; a take removes it whether or not the solution passes, and accepts only a key it found whose solution passes |
| NonceCache.ReplayBound | server/pkg/cache/redis.go:15-24 | over any sequence of adds and takes, a key is accepted at most as often as it was added, plus once if it was already present |
| Handler.Challenge | server/internal/handler/handler.go:110-115 | the challenge carries the configured difficulty, counter 0 and a nonce that decodes to the drawn number |
| Handler.Init | server/internal/handler/handler.go:110-129 | a backend fault fails with the cache untouched; otherwise the nonce is cached and the full challenge header is returned |
| Handler.Valid | server/internal/handler/handler.go:132-174 | a parse error or cache fault leaves the cache alone; otherwise the nonce is removed before the work is checked; success holds exactly when the nonce was cached and the token validates, and then the answer is the quote |
| Handler.ValidToken | server/internal/handler/handler.go:150-173 | after the parse: a cache fault leaves the cache alone; otherwise the nonce is removed; an unknown nonce and a counter that fails are reported as such; success means the nonce was cached and the counter validates, and the answer is the quote |
| Handler.Handle | server/internal/handler/handler.go:58-107 | a response is written exactly when no step failed; it repeats the request's phase byte and '_'; a read error leaves the cache alone; Init answers the challenge header, caches its nonce unless the cache fails, and writes exactly when the add and the write succeed; Valid leaves the cache as `valid` does, answers the quote, and writes exactly when `valid` succeeds and the write does; each failure is reported with its cause |
| Handler.ConnCall | server/internal/handler/handler.go:63-94 | a connection makes a call exactly when its request reads |
| Handler.HandleIsStep | server/internal/handler/handler.go:58-107 | a connection changes the cache as `Step` on its call does, and an unread request leaves it alone; a Valid request is answered exactly when `Step` accepts it and the write succeeds |
| Handler.HandleIsCacheOp | server/internal/handler/handler.go:58-174 | one connection changes the cache as its cache operation does; a quote for nonce n is written only when that operation accepts n; n is issued exactly when the operation adds it |
| Handler.ConnectionsAreCacheOps | server/internal/handler/handler.go:58-107 | over any sequence of connections, the quotes written number at most the acceptances of their cache operations, and the final cache and issued nonces agree |
| Handler.ServedBound | server/internal/handler/handler.go:139-173 | over any sequence of connections, quotes for a nonce are written at most as often as it was issued, plus once if it was already cached |
| Handler.ServedOnce | server/internal/handler/handler.go:139-173 | a nonce issued at most once and not cached before earns at most one quote |
| Handler.SecondSubmissionRejected | server/internal/handler/handler.go:150-161 | an accepted solution resubmitted is refused as an unknown nonce |
| Handler.FailedSolutionConsumesNonce | server/internal/handler/handler.go:150-168 | a wrong counter still uses up the nonce, so the client cannot retry it |
| Handler.StepIsCacheOp | server/internal/handler/handler.go:110-168 | one call changes the cache and accepts a nonce exactly as its cache operation does: a successful init adds the nonce; a parsed solution takes its nonce; every other call leaves the cache alone |
| Handler.CallsAreCacheOps | server/internal/handler/handler.go:58-107 | over any sequence of calls, the acceptances, the final cache and the issued nonces are those of the corresponding cache operations |
| Handler.ReplayBound | server/internal/handler/handler.go:150-161 | over any sequence of handler calls, a nonce is accepted at most as often as it was issued, plus once if it was already cached |
| Handler.SingleUse | server/internal/handler/handler.go:150-161 | a nonce issued at most once is accepted at most once, however the calls interleave |
| Handler.ChallengeSolvedOnce | server/internal/handler/handler.go:110-174 | an issued challenge parses back to the issued token; a counter that meets the difficulty is answered with the quote once and refused the second time |
| Handler.DifficultyNotEnforced | server/internal/handler/handler.go:139-168 | a difficulty-1 token with a cached nonce is accepted whatever difficulty the server is configured with |
| HashcashExamples.ToCounterValid | pkg/hashcash/parse_test.go:126-131 | "MTIzNA==" converts to 1234 |
| HashcashExamples.ToCounterCorrupt | pkg/hashcash/parse_test.go:132-137 | "NTQ2==" is corrupt base64 |
| HashcashExamples.ToCounterNotInteger | pkg/hashcash/parse_test.go:138-143 | "YWJjZA==" decodes to "abcd", which is not an integer |
| HashcashExamples.ParseTestHeader | pkg/hashcash/parse_test.go:19-23 | the test's valid header parses to bits 20, nonce "NTQ2", counter 0 and the header up to the counter |
| HashcashExamples.ParseTestWrongVersion | pkg/hashcash/parse_test.go:29-33 | version '0' is an invalid version |
| HashcashExamples.ParseTestNoCounter | pkg/hashcash/parse_test.go:24-28 | a header without the counter's ':' is an invalid delimiter |
| HashcashExamples.ParseTestZeroBits | pkg/hashcash/parse_test.go:34-38 | bits 0 are invalid bits |
| HashcashExamples.ParseTestBadCounter | pkg/hashcash/parse_test.go:44-48 | counter text "NTQ2==" is an invalid counter |
| HashcashExamples.IsValidExamples | pkg/hashcash/hashcash_test.go:58-83 | "000abcdef" meets difficulty 3; "00abcdef" fails 4; "00abc" is too short for 6 |

The model also proves the following properties of the Go code:

- **No difficulty floor.** The server never compares a token's difficulty
  with its own configuration. It also never looks at the date or the
  resource (`Handler.DifficultyNotEnforced`).
- **The IPv6 loopback client is locked out.** The address "[::1]:5000"
  puts a "::" ahead of the nonce's, so the challenge issued to it cannot be
  parsed (`HashcashParse.IPv6ResourceBreaksParse`). IPv6 addresses written
  without "::" are not covered by this result.
- **Bad difficulty setting.** With a difficulty below 1 the server issues
  challenges whose own header never parses
  (`HashcashParse.LowDifficultyRejected`). A client can still answer by
  sending the same nonce in a token of difficulty 1
  (`Handler.DifficultyNotEnforced`).

## Left out

- **Sockets:** connection handling, read deadlines and the default
  five-second timeout. `Read` is given the outcome of its single
  `conn.Read`. `Write` is given whether the write succeeded.
- **Server structure:** the server's accept loop, its goroutines and the
  handler's unused mutex. Calls are modelled one after another. A sequence
  of calls stands for any interleaving of connections, since the cache
  script is atomic.
- **Cache expiry and `Delete`:** the cache's expiry time is not modelled,
  so nonces never expire. `Delete` is declared in the cache interface but
  the handler never calls it.
- **Effects as parameters:** SHA-1, `crypto/rand`, `time.Now` and the
  quote book are parameters. The date is any 12-digit text. Only its shape
  matters to parsing.
- **Logging** is not modelled.
- **The client program** is not modelled. Its `SetValidPhase` call is not
  defined in `pkg/pow/protocol.go`, so the client source does not compile
  against the codec modelled here.
- **Slice aliasing:** `Header` appends the counter to the stored header. It
  may write into spare capacity the stored slice shares. Each call's
  result is modelled as a fresh sequence, which matches what every caller
  sees as long as it uses the result before the next call.
- **Unmatched parser tests:** the parser's tests expect `ErrInvalidHeader`
  for a missing counter and `ErrInvalidDate`, and `TestToDate` calls
  `toDate`. None of these exist in `pkg/hashcash/parse.go`, so those test
  cases cannot compile. The model follows the code: the missing-counter
  header is an invalid delimiter (`HashcashExamples.ParseTestNoCounter`),
  and dates are not checked at all.
- Hashcash.Calculate: the counter is an unbounded integer. Go's wrap-around
  past the largest `int` is not modelled. When the bound is exceeded the
  counter is left at `maxIterations + 1`, as the code does, and not at the
  bound.
- Hashcash.IsValid: requires a non-negative difficulty. With a negative one
  the Go slice expression panics. Tokens that reach `Validate` through
  `Parse` always have a difficulty of at least 1.
- Hashcash.Validate: requires a non-negative difficulty, for the same
  reason.
- HashcashParse.Parse: its own contract gives the first two errors and the
  facts every success shares. The full outcome for every header with a
  "::" is `HashcashParse.ParseSpec`, and `HashcashParse.CutAtFirst` puts
  every such header in the form `ParseSpec` takes.
- HashcashParse.ParseFields: states only the facts every success shares.
  Its outcome field by field is in `HashcashParse.ParseSpec`.
- NonceCache.Get: a backend fault is assumed to leave the cache unchanged.
  The Lua script is atomic, but a fault after it ran is not modelled.
- NonceCache.Add: a backend fault is assumed not to have stored the key.
  A `SET` the server applied but whose reply was lost would leave the nonce
  cached without the Init counting as an issue. `NonceCache.ReplayBound`,
  `Handler.ReplayBound`, `Handler.SingleUse` and `Handler.ServedBound`
  count only successful adds as issues, so they hold under this assumption.
- Strconv.Atoi: text with both an overflowing digit run and a later
  non-digit is a syntax error here, where Go reports the range error it
  meets first. Every caller maps both kinds to one error of its own, so
  no outcome of the core depends on it.
- LegacyProto.Parse: the phase is an unbounded integer. Go's conversion of
  a parsed `int` to `PhaseProt` is not modelled, because only 0 and 1 are
  accepted.

## Findings

| source | as written | input that shows it | evidently intended | confidence | as-written member | corrected member |
|---|---|---|---|---|---|---|
| pkg/hashcash/parse.go:56-67 | `firstPart[0]` and `firstPart[1]` are read without checking the first part's length | the header "1::", reaching the server as the Valid message "1_1::" (also "::" alone) | reject as an invalid version or an invalid delimiter, as for every other malformed first part | high; not executed | HashcashParse.ParseAsWritten | HashcashParse.Parse |

The contract of `HashcashParse.ParseAsWritten` characterises the inputs that
make the code as written panic, and `HashcashParse.PanicExample` exhibits one.
`HashcashParse.ParseShortFirstPart` states the corrected behaviour on those
inputs. The handler uses the corrected `Parse`.
