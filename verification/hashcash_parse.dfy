/** `Parse` and `toCounter` of pkg/hashcash: reading a header back into a
    token, with the source's ordered list of checks. Two versions exist:
    `ParseAsWritten` keeps the index-out-of-range panic the Go code has when
    the first "::" leaves fewer than two bytes before it, and `Parse` is the
    corrected function the rest of the model uses. */
module HashcashParse {
  import opened Bytes
  import Strconv
  import Base64
  import opened Hashcash

  const DoubleDelimiter: seq<byte> := [Delimiter, Delimiter]

  datatype ParseError =
    | ErrInvalidDelimiter
    | ErrInvalidVersion
    | ErrInvalidBits
    | ErrInvalidRand
    | ErrInvalidCounter

  datatype CounterError = CorruptBase64 | NotAnInteger(cause: Strconv.NumError)

  /** A Go call either returns its value or panics. */
  datatype GoCall<T> = Returns(value: T) | Panics

  /** `toCounter`: base64-decode, then `strconv.Atoi` the decoded text. */
  function ToCounter(counter: seq<byte>): (r: Result<int, CounterError>)
    ensures r.Success? ==> IsInt64(r.value)
  {
    match Base64.Decode(counter)
    case None => Failure(CorruptBase64)
    case Some(text) =>
      match Strconv.Atoi(text)
      case Failure(e) => Failure(NotAnInteger(e))
      case Success(n) => Success(n)
  }

  /** `toCounter` reads back every counter `Header` writes, negative ones too. */
  lemma ToCounterOfHeader(c: int)
    requires IsInt64(c)
    ensures ToCounter(Base64.Encode(Strconv.Itoa(c))) == Success(c)
  {
    Base64.DecodeEncode(Strconv.Itoa(c));
    Strconv.AtoiItoa(c);
  }

  /** The bits field: byte 1 must be ':', then the text up to the next ':'
      must be an integer of at least 1. */
  function ParseBits(firstPart: seq<byte>): (r: Result<int, ParseError>)
    requires 2 <= |firstPart|
    ensures r.Success? ==> 1 <= r.value && IsInt64(r.value)
    ensures r.Failure? ==> r.error in {ErrInvalidDelimiter, ErrInvalidBits}
  {
    if firstPart[1] != Delimiter then Failure(ErrInvalidDelimiter)
    else
      var j := Index(firstPart[2..], [Delimiter]);
      if j == -1 then Failure(ErrInvalidDelimiter)
      else
        match Strconv.Atoi(firstPart[2..2 + j])
        case Failure(_) => Failure(ErrInvalidBits)
        case Success(bits) => if bits < 1 then Failure(ErrInvalidBits) else Success(bits)
  }

  /** What follows "::": the nonce, and the counter with its base64 text. */
  datatype Tail = Tail(rand: seq<byte>, counterText: seq<byte>, counter: int)

  /** The text after the first "::": the nonce must be valid base64 and the
      rest must pass `toCounter`. */
  function ParseTail(secondPart: seq<byte>): (r: Result<Tail, ParseError>)
    ensures r.Success? ==> secondPart == r.value.rand + [Delimiter] + r.value.counterText
    ensures r.Success? ==> Lacks(r.value.rand, Delimiter)
    ensures r.Failure? ==> r.error in {ErrInvalidDelimiter, ErrInvalidRand, ErrInvalidCounter}
    ensures r.Success? ==> Base64.IsValid(r.value.rand)
    ensures r.Success? ==> ToCounter(r.value.counterText) == Success(r.value.counter)
  {
    var m := Index(secondPart, [Delimiter]);
    if m == -1 then Failure(ErrInvalidDelimiter)
    else
      var rand := secondPart[..m];
      var counterText := secondPart[m + 1..];
      if !Base64.IsValid(rand) then Failure(ErrInvalidRand)
      else
        match ToCounter(counterText)
        case Failure(_) => Failure(ErrInvalidCounter)
        case Success(counter) =>
          SplitAround(secondPart, Delimiter, m);
          LacksBeforeIndex(secondPart, Delimiter);
          Success(Tail(rand, counterText, counter))
  }

  /** The checks after the version byte, on the parts before and after the
      first "::" of `header`. Fields are assigned only once every check has
      passed; the stored header keeps everything up to the ':' before the
      counter. */
  function ParseFields(firstPart: seq<byte>, secondPart: seq<byte>, header: seq<byte>): (r: Result<Hashcash, ParseError>)
    requires 2 <= |firstPart| && |secondPart| <= |header|
    ensures r.Success? ==> 1 <= r.value.zeroBits && IsInt64(r.value.zeroBits) && IsInt64(r.value.counter)
    ensures r.Success? ==> Base64.IsValid(r.value.rand)
    ensures r.Success? ==> |r.value.header| <= |header| && r.value.header == header[..|r.value.header|]
  {
    match ParseBits(firstPart)
    case Failure(e) => Failure(e)
    case Success(bits) =>
      match ParseTail(secondPart)
      case Failure(e) => Failure(e)
      case Success(tail) =>
        Success(Hashcash(bits, tail.counter, tail.rand, header[..|header| - |tail.counterText|]))
  }

  /** `Parse` exactly as the Go code runs it: `firstPart[0]` and `firstPart[1]`
      are indexed without a length check, so a first "::" at position 0, or at
      position 1 behind a '1', is a runtime panic. Those are the only
      panics: everywhere else it returns what the corrected `Parse` does. */
  function ParseAsWritten(header: seq<byte>): (r: GoCall<Result<Hashcash, ParseError>>)
    ensures r.Panics? <==>
      OccursAt(header, DoubleDelimiter, 0) || (OccursAt(header, DoubleDelimiter, 1) && header[0] == FirstVersion)
    ensures r.Returns? ==> r.value == Parse(header)
  {
    var k := Index(header, DoubleDelimiter);
    if k == -1 then Returns(Failure(ErrInvalidDelimiter))
    else if k == 0 then Panics
    else if header[0] != FirstVersion then Returns(Failure(ErrInvalidVersion))
    else if k == 1 then Panics
    else Returns(ParseFields(header[..k], header[k + 2..], header))
  }

  /** `Parse`, corrected: a missing version byte is an invalid version and a
      missing ':' after it an invalid delimiter, instead of a panic. */
  function Parse(header: seq<byte>): (r: Result<Hashcash, ParseError>)
    ensures !Contains(header, DoubleDelimiter) ==> r == Failure(ErrInvalidDelimiter)
    ensures Contains(header, DoubleDelimiter) && header[0] != FirstVersion ==> r == Failure(ErrInvalidVersion)
    ensures r.Success? ==> 1 <= r.value.zeroBits && IsInt64(r.value.zeroBits) && IsInt64(r.value.counter)
    ensures r.Success? ==> Base64.IsValid(r.value.rand)
    ensures r.Success? ==> |r.value.header| <= |header| && r.value.header == header[..|r.value.header|]
  {
    var k := Index(header, DoubleDelimiter);
    if k == -1 then Failure(ErrInvalidDelimiter)
    else if header[0] != FirstVersion then Failure(ErrInvalidVersion)
    else if k < 2 then Failure(ErrInvalidDelimiter)
    else ParseFields(header[..k], header[k + 2..], header)
  }

  /** The Go method on its receiver: on error the receiver is left as it was,
      on success it holds the parsed fields. */
  function ParseInto(receiver: Hashcash, header: seq<byte>): (r: (Hashcash, Option<ParseError>))
    ensures r.1.Some? ==> r.0 == receiver && Parse(header) == Failure(r.1.value)
    ensures r.1.None? ==> Parse(header) == Success(r.0)
  {
    match Parse(header)
    case Failure(e) => (receiver, Some(e))
    case Success(h) => (h, None)
  }

  /** The headers that crash the Go code get a named error from `Parse`. */
  lemma ParseShortFirstPart(header: seq<byte>)
    ensures OccursAt(header, DoubleDelimiter, 0) ==> Parse(header) == Failure(ErrInvalidVersion)
    ensures OccursAt(header, DoubleDelimiter, 1) && header[0] == FirstVersion ==> Parse(header) == Failure(ErrInvalidDelimiter)
  {
  }

  /** A three-byte header, "1::", that a client can put in a Valid message. */
  lemma PanicExample()
    ensures ParseAsWritten([FirstVersion, Delimiter, Delimiter]) == Panics
    ensures Parse([FirstVersion, Delimiter, Delimiter]) == Failure(ErrInvalidDelimiter)
  {
    ParseShortFirstPart([FirstVersion, Delimiter, Delimiter]);
    assert OccursAt([FirstVersion, Delimiter, Delimiter], DoubleDelimiter, 1);
  }

  /** No "::" anywhere in `s`. */
  predicate NoDoubleDelimiter(s: seq<byte>) {
    forall i :: 0 <= i < |s| - 1 ==> !(s[i] == Delimiter && s[i + 1] == Delimiter)
  }

  /** Everything `New` writes before the "::": version, bits, then the date and
      resource text, which `Parse` never looks into. */
  function Prefix(bits: int, middle: seq<byte>): seq<byte> {
    [FirstVersion, Delimiter] + Strconv.Itoa(bits) + [Delimiter] + middle
  }

  lemma FirstDoubleDelimiter(p: seq<byte>, rest: seq<byte>)
    requires NoDoubleDelimiter(p + [Delimiter])
    ensures Index(p + DoubleDelimiter + rest, DoubleDelimiter) == |p|
  {
    var h := p + DoubleDelimiter + rest;
    var q := p + [Delimiter];
    assert h[|p|..|p| + 2] == DoubleDelimiter;
    forall i | 0 <= i < |p|
      ensures !OccursAt(h, DoubleDelimiter, i)
    {
      assert h[i] == q[i] && h[i + 1] == q[i + 1];
    }
    IndexIs(h, DoubleDelimiter, |p|);
  }

  lemma FirstDelimiter(a: seq<byte>, rest: seq<byte>)
    requires forall i :: 0 <= i < |a| ==> a[i] != Delimiter
    ensures Index(a + [Delimiter] + rest, [Delimiter]) == |a|
  {
    var h := a + [Delimiter] + rest;
    forall i | 0 <= i < |a|
      ensures !OccursAt(h, [Delimiter], i)
    {
      OccursAtByte(h, Delimiter, i);
    }
    OccursAtByte(h, Delimiter, |a|);
    IndexIs(h, [Delimiter], |a|);
  }

  lemma ParseBitsOfPrefix(bits: int, middle: seq<byte>)
    requires IsInt64(bits)
    ensures ParseBits(Prefix(bits, middle)) == if 1 <= bits then Success(bits) else Failure(ErrInvalidBits)
  {
    var p := Prefix(bits, middle);
    var digits := Strconv.Itoa(bits);
    Strconv.ItoaExcludes(bits, Delimiter);
    assert p[1] == Delimiter;
    assert p[2..] == digits + [Delimiter] + middle;
    FirstDelimiter(digits, middle);
    assert Index(p[2..], [Delimiter]) == |digits|;
    assert p[2..2 + |digits|] == digits;
    Strconv.AtoiItoa(bits);
  }

  lemma ParseTailOfHeader(rand: seq<byte>, c: int)
    requires Base64.IsValid(rand)
    requires IsInt64(c)
    ensures var text := Base64.Encode(Strconv.Itoa(c));
      ParseTail(rand + [Delimiter] + text) == Success(Tail(rand, text, c))
  {
    var text := Base64.Encode(Strconv.Itoa(c));
    forall i | 0 <= i < |rand|
      ensures rand[i] != Delimiter
    {
      Base64.ValidCharacters(rand, i);
    }
    FirstDelimiter(rand, text);
    var t := rand + [Delimiter] + text;
    assert t[..|rand|] == rand && t[|rand| + 1..] == text;
    ToCounterOfHeader(c);
  }

  /** The bits field is refused as an invalid delimiter when byte 1 is not
      ':' or when no ':' follows it. */
  lemma ParseBitsDelimiter(firstPart: seq<byte>)
    requires 2 <= |firstPart|
    ensures firstPart[1] != Delimiter ==> ParseBits(firstPart) == Failure(ErrInvalidDelimiter)
    ensures Lacks(firstPart[2..], Delimiter) ==> ParseBits(firstPart) == Failure(ErrInvalidDelimiter)
  {
    if firstPart[1] == Delimiter && Lacks(firstPart[2..], Delimiter) {
      var j := Index(firstPart[2..], [Delimiter]);
      if j >= 0 {
        OccursAtByte(firstPart[2..], Delimiter, j);
        assert false;
      }
    }
  }

  /** Otherwise the field is the text between byte 1 and the next ':', and the
      bits are exactly its `strconv.Atoi` value when that converts and is at
      least 1; every other field is invalid bits. */
  lemma ParseBitsOf(v: byte, field: seq<byte>, rest: seq<byte>)
    requires Lacks(field, Delimiter)
    ensures var r := ParseBits([v, Delimiter] + field + [Delimiter] + rest);
      && (r.Success? <==> Strconv.Atoi(field).Success? && Strconv.Atoi(field).value >= 1)
      && (r.Success? ==> r.value == Strconv.Atoi(field).value)
      && (r.Failure? ==> r.error == ErrInvalidBits)
  {
    var p := [v, Delimiter] + field + [Delimiter] + rest;
    assert p[2..] == field + [Delimiter] + rest;
    FirstDelimiter(field, rest);
    assert p[2..2 + |field|] == field;
  }

  /** The tail is refused as an invalid delimiter when it has no ':'. */
  lemma ParseTailDelimiter(secondPart: seq<byte>)
    requires Lacks(secondPart, Delimiter)
    ensures ParseTail(secondPart) == Failure(ErrInvalidDelimiter)
  {
    var m := Index(secondPart, [Delimiter]);
    if m >= 0 {
      OccursAtByte(secondPart, Delimiter, m);
      assert false;
    }
  }

  /** Otherwise the nonce is the text before the first ':' and the counter
      text all that follows: a nonce that does not decode is an invalid rand,
      then a counter text `toCounter` refuses is an invalid counter, and
      otherwise both are returned with the counter's value. */
  lemma ParseTailOf(rand: seq<byte>, counterText: seq<byte>)
    requires Lacks(rand, Delimiter)
    ensures var r := ParseTail(rand + [Delimiter] + counterText);
      && (!Base64.IsValid(rand) ==> r == Failure(ErrInvalidRand))
      && (Base64.IsValid(rand) && ToCounter(counterText).Failure? ==> r == Failure(ErrInvalidCounter))
      && (Base64.IsValid(rand) && ToCounter(counterText).Success? ==>
            r == Success(Tail(rand, counterText, ToCounter(counterText).value)))
  {
    FirstDelimiter(rand, counterText);
    var t := rand + [Delimiter] + counterText;
    assert t[..|rand|] == rand && t[|rand| + 1..] == counterText;
  }

  /** Every header with a "::" is `first` + "::" + `second`, where `first`
      holds no "::" and does not end in ':'. Its outcome, in the order the
      checks run: the version byte, then byte 1 and the bits, then the tail;
      a success takes its bits from the first part, its nonce and counter
      from the second, and keeps the header up to the counter text. */
  lemma ParseSpec(header: seq<byte>, first: seq<byte>, second: seq<byte>)
    requires header == first + DoubleDelimiter + second
    requires NoDoubleDelimiter(first + [Delimiter])
    ensures var r := Parse(header);
      && (|first| == 0 || first[0] != FirstVersion ==> r == Failure(ErrInvalidVersion))
      && (|first| == 1 && first[0] == FirstVersion ==> r == Failure(ErrInvalidDelimiter))
      && (|first| >= 2 && first[0] == FirstVersion && ParseBits(first).Failure? ==>
            r == Failure(ParseBits(first).error))
      && (|first| >= 2 && first[0] == FirstVersion && ParseBits(first).Success? && ParseTail(second).Failure? ==>
            r == Failure(ParseTail(second).error))
      && (|first| >= 2 && first[0] == FirstVersion && ParseBits(first).Success? && ParseTail(second).Success? ==>
            r == Success(Hashcash(ParseBits(first).value, ParseTail(second).value.counter, ParseTail(second).value.rand,
                                  header[..|header| - |ParseTail(second).value.counterText|])))
  {
    if |first| >= 2 && first[0] == FirstVersion {
      ParseOfFields(header, first, second);
    } else {
      ParseOfShortFirst(first, second);
    }
  }

  /** `ParseSpec` when the first part is too short or lacks the version. */
  lemma ParseOfShortFirst(first: seq<byte>, second: seq<byte>)
    requires NoDoubleDelimiter(first + [Delimiter])
    requires |first| < 2 || first[0] != FirstVersion
    ensures |first| == 0 || first[0] != FirstVersion ==> Parse(first + DoubleDelimiter + second) == Failure(ErrInvalidVersion)
    ensures |first| == 1 && first[0] == FirstVersion ==> Parse(first + DoubleDelimiter + second) == Failure(ErrInvalidDelimiter)
  {
    SplitAtFirst(first, second);
  }

  /** `ParseSpec` once version and length are right: the bits decide, then
      the tail. */
  lemma ParseOfFields(header: seq<byte>, first: seq<byte>, second: seq<byte>)
    requires header == first + DoubleDelimiter + second
    requires NoDoubleDelimiter(first + [Delimiter])
    requires |first| >= 2 && first[0] == FirstVersion
    ensures Parse(header) ==
      match ParseBits(first)
      case Failure(e) => Failure(e)
      case Success(bits) =>
        match ParseTail(second)
        case Failure(e) => Failure(e)
        case Success(tail) => Success(Hashcash(bits, tail.counter, tail.rand, header[..|header| - |tail.counterText|]))
  {
    ParseAtFirst(first, second);
    FieldsOfParts(first, second, header);
  }

  /** Past the version byte, `Parse` hands the parts around the first "::"
      to `ParseFields`. */
  lemma ParseAtFirst(first: seq<byte>, second: seq<byte>)
    requires NoDoubleDelimiter(first + [Delimiter])
    requires |first| >= 2 && first[0] == FirstVersion
    ensures Parse(first + DoubleDelimiter + second) == ParseFields(first, second, first + DoubleDelimiter + second)
  {
    SplitAtFirst(first, second);
  }

  /** `ParseFields` in the order of its checks, the bits first. */
  lemma FieldsOfParts(first: seq<byte>, second: seq<byte>, header: seq<byte>)
    requires 2 <= |first| && |second| <= |header|
    ensures ParseFields(first, second, header) ==
      match ParseBits(first)
      case Failure(e) => Failure(e)
      case Success(bits) =>
        match ParseTail(second)
        case Failure(e) => Failure(e)
        case Success(tail) => Success(Hashcash(bits, tail.counter, tail.rand, header[..|header| - |tail.counterText|]))
  {
  }

  /** A header with its first "::" right after `first`, cut there. */
  lemma SplitAtFirst(first: seq<byte>, second: seq<byte>)
    requires NoDoubleDelimiter(first + [Delimiter])
    ensures var h := first + DoubleDelimiter + second;
      && Index(h, DoubleDelimiter) == |first|
      && h[..|first|] == first && h[|first| + 2..] == second
      && (|first| > 0 ==> h[0] == first[0])
  {
    FirstDoubleDelimiter(first, second);
    var h := first + DoubleDelimiter + second;
    assert h[..|first|] == first;
    assert h[|first| + 2..] == second;
  }

  /** Every header with a "::" has the form `ParseSpec` takes: the part
      before its first "::", the "::" and the rest, where that first part
      holds no "::" and does not end in ':'. */
  lemma CutAtFirst(header: seq<byte>)
    requires Index(header, DoubleDelimiter) >= 0
    ensures var k := Index(header, DoubleDelimiter);
      && header == header[..k] + DoubleDelimiter + header[k + 2..]
      && NoDoubleDelimiter(header[..k] + [Delimiter])
  {
    var k := Index(header, DoubleDelimiter);
    var q := header[..k] + [Delimiter];
    assert header[k..k + 2] == DoubleDelimiter;
    forall i | 0 <= i < |q| - 1
      ensures !(q[i] == Delimiter && q[i + 1] == Delimiter)
    {
      assert !OccursAt(header, DoubleDelimiter, i);
      assert q[i] == header[i] && q[i + 1] == header[i + 1];
    }
  }

  /** The header `Parse` keeps, everything but the counter text, is the
      first part, "::", the nonce and ':'. */
  lemma KeptHeader(first: seq<byte>, second: seq<byte>, rand: seq<byte>, counterText: seq<byte>)
    requires second == rand + [Delimiter] + counterText
    ensures var h := first + DoubleDelimiter + second;
      h[..|h| - |counterText|] == first + DoubleDelimiter + rand + [Delimiter]
  {
    var h := first + DoubleDelimiter + second;
    assert h == (first + DoubleDelimiter + rand + [Delimiter]) + counterText;
  }

  /** `Parse` accepts every header of the shape `New` and `Header` produce, as
      long as no "::" comes before the one that introduces the nonce, and
      returns exactly the fields written. */
  lemma ParseWellFormed(bits: int, middle: seq<byte>, rand: seq<byte>, c: int)
    requires 1 <= bits <= MaxInt64
    requires IsInt64(c)
    requires Base64.IsValid(rand)
    requires NoDoubleDelimiter(Prefix(bits, middle) + [Delimiter])
    ensures var kept := Prefix(bits, middle) + DoubleDelimiter + rand + [Delimiter];
      Parse(kept + Base64.Encode(Strconv.Itoa(c))) == Success(Hashcash(bits, c, rand, kept))
  {
    var p := Prefix(bits, middle);
    var text := Base64.Encode(Strconv.Itoa(c));
    var kept := p + DoubleDelimiter + rand + [Delimiter];
    var h := kept + text;
    assert h == p + DoubleDelimiter + (rand + [Delimiter] + text);
    FirstDoubleDelimiter(p, rand + [Delimiter] + text);
    assert h[..|p|] == p;
    assert h[|p| + 2..] == rand + [Delimiter] + text;
    ParseBitsOfPrefix(bits, middle);
    ParseTailOfHeader(rand, c);
    assert h[..|h| - |text|] == kept;
  }

  /** `Parse(Header(t))` gives back `t` for every token `New` can build and
      every counter, when the date and resource leave the "::" before the
      nonce as the first one. */
  lemma ParseHeaderRoundTrip(zeroBits: int, resource: seq<byte>, rand: seq<byte>, date: seq<byte>, c: int)
    requires 1 <= zeroBits <= MaxInt64
    requires IsInt64(c)
    requires Base64.IsValid(rand)
    requires NoDoubleDelimiter(Prefix(zeroBits, date + [Delimiter] + resource) + [Delimiter])
    ensures var h := New(zeroBits, resource, rand, date).(counter := c); Parse(Header(h)) == Success(h)
  {
    NewIsPrefix(zeroBits, resource, rand, date);
    ParseWellFormed(zeroBits, date + [Delimiter] + resource, rand, c);
  }

  /** The header `New` stores, in the shape `Parse` reads it. */
  lemma NewIsPrefix(zeroBits: int, resource: seq<byte>, rand: seq<byte>, date: seq<byte>)
    ensures New(zeroBits, resource, rand, date).header
      == Prefix(zeroBits, date + [Delimiter] + resource) + DoubleDelimiter + rand + [Delimiter]
  {
    var digits := Strconv.Itoa(zeroBits);
    var p0 := [FirstVersion, Delimiter] + digits + [Delimiter];
    assert Prefix(zeroBits, date + [Delimiter] + resource) == p0 + date + [Delimiter] + resource;
  }

  lemma {:induction false} NoDoubleDelimiterAppend(a: seq<byte>, b: seq<byte>)
    requires NoDoubleDelimiter(a) && NoDoubleDelimiter(b)
    requires |a| == 0 || |b| == 0 || a[|a| - 1] != Delimiter || b[0] != Delimiter
    ensures NoDoubleDelimiter(a + b)
  {
    var s := a + b;
    forall i | 0 <= i < |s| - 1
      ensures !(s[i] == Delimiter && s[i + 1] == Delimiter)
    {
      if i + 1 < |a| {
        assert s[i] == a[i] && s[i + 1] == a[i + 1];
      } else if i >= |a| {
        assert s[i] == b[i - |a|] && s[i + 1] == b[i - |a| + 1];
      }
    }
  }

  /** Plain sufficient conditions for the round trip: a non-empty date without
      ':', and a non-empty resource with no "::" that neither starts nor ends
      with ':' (an IPv4 "host:port" address, for instance). */
  lemma SimpleFieldsKeepDelimiterFirst(zeroBits: int, resource: seq<byte>, date: seq<byte>)
    requires 0 < |date| && forall i :: 0 <= i < |date| ==> date[i] != Delimiter
    requires 0 < |resource| && NoDoubleDelimiter(resource)
    requires resource[0] != Delimiter && resource[|resource| - 1] != Delimiter
    ensures NoDoubleDelimiter(Prefix(zeroBits, date + [Delimiter] + resource) + [Delimiter])
  {
    var digits := Strconv.Itoa(zeroBits);
    Strconv.ItoaExcludes(zeroBits, Delimiter);
    var s1 := [FirstVersion, Delimiter];
    NoDoubleDelimiterAppend(s1, digits);
    var s2 := s1 + digits;
    NoDoubleDelimiterAppend(s2, [Delimiter]);
    var s3 := s2 + [Delimiter];
    NoDoubleDelimiterAppend(s3, date);
    var s4 := s3 + date;
    NoDoubleDelimiterAppend(s4, [Delimiter]);
    var s5 := s4 + [Delimiter];
    NoDoubleDelimiterAppend(s5, resource);
    var s6 := s5 + resource;
    NoDoubleDelimiterAppend(s6, [Delimiter]);
    assert Prefix(zeroBits, date + [Delimiter] + resource) + [Delimiter] == s6 + [Delimiter];
  }

  /** The round trip for the tokens a server issues: a twelve-digit date and
      a resource that is non-empty, has no "::" and neither starts nor ends
      with ':', such as an IPv4 "host:port" address. */
  lemma NewHeaderRoundTrip(zeroBits: int, resource: seq<byte>, rand: seq<byte>, date: seq<byte>, c: int)
    requires 1 <= zeroBits <= MaxInt64
    requires IsInt64(c)
    requires Base64.IsValid(rand)
    requires IsDate(date)
    requires 0 < |resource| && NoDoubleDelimiter(resource)
    requires resource[0] != Delimiter && resource[|resource| - 1] != Delimiter
    ensures var h := New(zeroBits, resource, rand, date).(counter := c); Parse(Header(h)) == Success(h)
  {
    assert forall i :: 0 <= i < |date| ==> date[i] != Delimiter by {
      forall i | 0 <= i < |date| ensures date[i] != Delimiter {
        assert Strconv.IsDigit(date[i]);
      }
    }
    SimpleFieldsKeepDelimiterFirst(zeroBits, resource, date);
    ParseHeaderRoundTrip(zeroBits, resource, rand, date, c);
  }

  /** The text of an IPv6 loopback remote address, "[::1]:5000". */
  const LoopbackV6: seq<byte> := [91, 58, 58, 49, 93, 58, 53, 48, 48, 48]

  /** A tail that starts "1]:" fails on its nonce, whatever follows. */
  lemma BracketNonceRejected(rest: seq<byte>)
    ensures ParseTail([49, 93, Delimiter] + rest) == Failure(ErrInvalidRand)
  {
    var t := [49, 93, Delimiter] + rest;
    assert t == [49, 93] + [Delimiter] + rest;
    FirstDelimiter([49, 93], rest);
    assert t[..2] == [49, 93];
    Base64.StripNewlinesNoop([49, 93]);
  }

  /** A token whose difficulty is below 1 cannot be read back: `Parse` refuses
      its bits field, for every date and resource that keep the "::" before
      the nonce first. */
  lemma LowDifficultyRejected(zeroBits: int, resource: seq<byte>, rand: seq<byte>, date: seq<byte>, c: int)
    requires MinInt64 <= zeroBits < 1
    requires NoDoubleDelimiter(Prefix(zeroBits, date + [Delimiter] + resource) + [Delimiter])
    ensures Parse(Header(New(zeroBits, resource, rand, date).(counter := c))) == Failure(ErrInvalidBits)
  {
    var p := Prefix(zeroBits, date + [Delimiter] + resource);
    var after := rand + [Delimiter] + Base64.Encode(Strconv.Itoa(c));
    NewIsPrefix(zeroBits, resource, rand, date);
    assert Header(New(zeroBits, resource, rand, date).(counter := c)) == p + DoubleDelimiter + after;
    ParseBitsOfPrefix(zeroBits, date + [Delimiter] + resource);
    ParseSpec(p + DoubleDelimiter + after, p, after);
  }

  /** With the first "::" after a well-formed version and bits field, `Parse`
      fails exactly as the tail after it does. */
  lemma TailDecidesParse(bits: int, middle: seq<byte>, after: seq<byte>)
    requires 1 <= bits <= MaxInt64
    requires NoDoubleDelimiter(Prefix(bits, middle) + [Delimiter])
    requires ParseTail(after).Failure?
    ensures Parse(Prefix(bits, middle) + DoubleDelimiter + after) == Failure(ParseTail(after).error)
  {
    ParseSpec(Prefix(bits, middle) + DoubleDelimiter + after, Prefix(bits, middle), after);
    ParseBitsOfPrefix(bits, middle);
  }

  lemma LoopbackRegroup(p0: seq<byte>, rand: seq<byte>, text: seq<byte>)
    ensures p0 + LoopbackV6 + [Delimiter, Delimiter] + rand + [Delimiter] + text
      == (p0 + [91]) + DoubleDelimiter + ([49, 93, Delimiter] + ([53, 48, 48, 48, Delimiter, Delimiter] + rand + [Delimiter] + text))
  {
    assert LoopbackV6 + [Delimiter, Delimiter] == [91] + DoubleDelimiter + [49, 93, Delimiter] + [53, 48, 48, 48, Delimiter, Delimiter];
  }

  /** Where the first "::" falls in a header whose resource is the IPv6
      loopback address. */
  lemma LoopbackHeader(zeroBits: int, rand: seq<byte>, date: seq<byte>, c: int)
    ensures Header(New(zeroBits, LoopbackV6, rand, date).(counter := c)) ==
      Prefix(zeroBits, date + [Delimiter] + [91]) + DoubleDelimiter
      + ([49, 93, Delimiter] + ([53, 48, 48, 48, Delimiter, Delimiter] + rand + [Delimiter] + Base64.Encode(Strconv.Itoa(c))))
  {
    var p0 := [FirstVersion, Delimiter] + Strconv.Itoa(zeroBits) + [Delimiter] + date + [Delimiter];
    var text := Base64.Encode(Strconv.Itoa(c));
    assert Header(New(zeroBits, LoopbackV6, rand, date).(counter := c))
      == p0 + LoopbackV6 + [Delimiter, Delimiter] + rand + [Delimiter] + text;
    assert Prefix(zeroBits, date + [Delimiter] + [91]) == p0 + [91];
    LoopbackRegroup(p0, rand, text);
  }

  /** An IPv6 remote address carries "::", which `Parse` takes for the one
      before the nonce: the nonce it then reads, "1]", is not base64, so the
      challenge issued to such a client never parses. */
  lemma IPv6ResourceBreaksParse(zeroBits: int, rand: seq<byte>, date: seq<byte>, c: int)
    requires 1 <= zeroBits <= MaxInt64
    requires IsDate(date)
    ensures Parse(Header(New(zeroBits, LoopbackV6, rand, date).(counter := c))) == Failure(ErrInvalidRand)
  {
    var open := [91];
    assert forall i :: 0 <= i < |date| ==> date[i] != Delimiter by {
      forall i | 0 <= i < |date| ensures date[i] != Delimiter {
        assert Strconv.IsDigit(date[i]);
      }
    }
    SimpleFieldsKeepDelimiterFirst(zeroBits, open, date);
    var middle := date + [Delimiter] + open;
    var rest := [53, 48, 48, 48, Delimiter, Delimiter] + rand + [Delimiter] + Base64.Encode(Strconv.Itoa(c));
    var after := [49, 93, Delimiter] + rest;
    LoopbackHeader(zeroBits, rand, date, c);
    BracketNonceRejected(rest);
    TailDecidesParse(zeroBits, middle, after);
  }
}
