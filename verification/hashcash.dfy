/** The hashcash token of pkg/hashcash: construction, serialisation, the
    leading-zero check, single-counter validation and the bounded search.

    SHA-1 is not modelled: every operation that hashes takes the digest
    function `sha1` as a parameter, constrained only to return 40 lowercase
    hexadecimal characters, as Go's `fmt.Sprintf("%x", sha1.Sum(data))` does. */
module Hashcash {
  import opened Bytes
  import Strconv
  import Base64

  /** The field delimiter ':'. */
  const Delimiter: byte := 58
  /** Version 1 of the format, the byte '1'. */
  const FirstVersion: byte := 49
  /** The byte a leading hex digit must equal, '0'. */
  const ZeroByte: byte := 48
  /** Nonces are drawn from [0, RandLimit). */
  const RandLimit: nat := 1000
  /** Length of a SHA-1 digest written in hex. */
  const DigestLength: nat := 40
  /** Length of the date `New` writes, layout "060102150405" (YYMMDDhhmmss). */
  const DateLength: nat := 12

  /** A date as `time.Now().Format("060102150405")` writes it: twelve digits. */
  predicate IsDate(date: seq<byte>) {
    |date| == DateLength && Strconv.AllDigits(date)
  }

  predicate IsLowerHex(b: byte) {
    48 <= b <= 57 || 97 <= b <= 102
  }

  /** What `calculateHash` returns: 40 lowercase hex characters. */
  type HexDigest = d: seq<byte> | |d| == DigestLength && forall i :: 0 <= i < |d| ==> IsLowerHex(d[i])
    witness seq(40, i => 48)

  /** The Go struct: difficulty, counter, nonce, and the header text up to and
      including the ':' that precedes the counter. */
  datatype Hashcash = Hashcash(zeroBits: int, counter: int, rand: seq<byte>, header: seq<byte>)

  datatype HashcashError = ErrMaxIterationsExceeded

  /** `New`: version, bits, date, resource, "::", nonce, ":", at counter 0.
      The date is `time.Now()` formatted by the caller's clock. */
  function New(zeroBits: int, resource: seq<byte>, rand: seq<byte>, date: seq<byte>): (h: Hashcash)
    ensures h.zeroBits == zeroBits && h.counter == 0 && h.rand == rand
    ensures |h.header| >= |rand| + 5
    ensures h.header[..2] == [FirstVersion, Delimiter]
    ensures h.header[|h.header| - |rand| - 3..] == [Delimiter, Delimiter] + rand + [Delimiter]
  {
    var header := [FirstVersion, Delimiter] + Strconv.Itoa(zeroBits) + [Delimiter] + date + [Delimiter]
      + resource + [Delimiter, Delimiter] + rand + [Delimiter];
    assert header[|header| - |rand| - 3..] == [Delimiter, Delimiter] + rand + [Delimiter];
    Hashcash(zeroBits, 0, rand, header)
  }

  /** `GenerateRandom`, given the random draw `n` in [0, RandLimit): the decimal
      text of `n`, base64-encoded. */
  function GenerateRandom(n: nat): (r: seq<byte>)
    requires n < RandLimit
    ensures Base64.Decode(r) == Some(Strconv.Itoa(n))
  {
    Base64.DecodeEncode(Strconv.Itoa(n));
    Base64.Encode(Strconv.Itoa(n))
  }

  /** `Header`: the stored prefix followed by the counter, as decimal text
      encoded in base64. Computed afresh from the fields on every call. */
  function Header(h: Hashcash): (r: seq<byte>)
    ensures |h.header| <= |r| && r[..|h.header|] == h.header
  {
    h.header + Base64.Encode(Strconv.Itoa(h.counter))
  }

  /** What `Header` appends to the prefix decodes back to the counter's
      decimal form. */
  lemma HeaderDecodes(h: Hashcash)
    ensures Base64.Decode(Header(h)[|h.header|..]) == Some(Strconv.Itoa(h.counter))
  {
    Base64.DecodeEncode(Strconv.Itoa(h.counter));
    assert Header(h)[|h.header|..] == Base64.Encode(Strconv.Itoa(h.counter));
  }

  /** The first `n` characters of `hash` exist and are all '0'. */
  predicate HasLeadingZeros(hash: seq<byte>, n: nat) {
    n <= |hash| && forall i :: 0 <= i < n ==> hash[i] == ZeroByte
  }

  function AllZero(s: seq<byte>): (r: bool)
    ensures r <==> forall i :: 0 <= i < |s| ==> s[i] == ZeroByte
  {
    if |s| == 0 then true else s[0] == ZeroByte && AllZero(s[1..])
  }

  /** `isValid`: false when `zeroBits` exceeds the hash length, otherwise the
      first `zeroBits` characters must all be '0'. A negative `zeroBits`
      makes Go's slice expression panic, hence the precondition. */
  function IsValid(zeroBits: int, hash: seq<byte>): (r: bool)
    requires 0 <= zeroBits
    ensures r <==> HasLeadingZeros(hash, zeroBits)
  {
    if zeroBits > |hash| then false else AllZero(hash[..zeroBits])
  }

  /** `Validate`: the check of exactly one counter, the one stored. */
  function Validate(h: Hashcash, sha1: seq<byte> -> HexDigest): (r: bool)
    requires 0 <= h.zeroBits
    ensures r <==> HasLeadingZeros(sha1(Header(h)), h.zeroBits)
  {
    IsValid(h.zeroBits, sha1(Header(h)))
  }

  /** A difficulty beyond the digest length can never be met. */
  lemma DifficultyBeyondDigest(h: Hashcash, sha1: seq<byte> -> HexDigest)
    requires h.zeroBits > DigestLength
    ensures !Validate(h, sha1)
  {
    assert |sha1(Header(h))| == DigestLength;
  }

  /** Counter `c` was tried on `h` and its digest lacks the leading zeros. */
  predicate FailsAt(h: Hashcash, c: int, sha1: seq<byte> -> HexDigest) {
    0 <= h.zeroBits && !Validate(h.(counter := c), sha1)
  }

  /** `Calculate`: tries counters from the current one up to `maxIterations`
      inclusive and stops at the first that validates. `digests` counts the
      SHA-1 evaluations performed. */
  method Calculate(h: Hashcash, maxIterations: int, sha1: seq<byte> -> HexDigest)
    returns (solved: Hashcash, err: Option<HashcashError>, digests: nat)
    requires h.counter <= maxIterations ==> 0 <= h.zeroBits
    ensures solved == h.(counter := solved.counter)
    ensures h.counter <= solved.counter
    ensures forall c :: h.counter <= c < solved.counter ==> FailsAt(h, c, sha1)
    ensures err.None? ==> solved.counter <= maxIterations && Validate(solved, sha1)
    ensures err.None? ==> digests == solved.counter - h.counter + 1
    ensures err.Some? ==> err.value == ErrMaxIterationsExceeded
    ensures err.Some? ==> solved.counter == if h.counter <= maxIterations then maxIterations + 1 else h.counter
    ensures err.Some? ==> digests == solved.counter - h.counter
  {
    var counter := h.counter;
    digests := 0;
    while counter <= maxIterations
      invariant h.counter <= counter
      invariant h.counter <= maxIterations ==> counter <= maxIterations + 1
      invariant h.counter > maxIterations ==> counter == h.counter
      invariant digests == counter - h.counter
      invariant forall c :: h.counter <= c < counter ==> FailsAt(h, c, sha1)
      decreases maxIterations - counter
    {
      digests := digests + 1;
      if Validate(h.(counter := counter), sha1) {
        return h.(counter := counter), None, digests;
      }
      assert FailsAt(h, counter, sha1);
      counter := counter + 1;
    }
    return h.(counter := counter), Some(ErrMaxIterationsExceeded), digests;
  }

  /** A fresh token serialises with counter 0, whose base64 form is "MA==". */
  lemma FreshHeaderEndsInMA(zeroBits: int, resource: seq<byte>, rand: seq<byte>, date: seq<byte>)
    ensures var r := Header(New(zeroBits, resource, rand, date)); |r| >= 4 && r[|r| - 4..] == [77, 65, 61, 61]
  {
    assert Strconv.Itoa(0) == [48];
    assert Base64.Encode([48]) == [77, 65, 61, 61];
  }
}
