/** The older text framing of pkg/proto: "<phase>_<header>" with the phase in
    decimal, parsed by splitting on every '_'. Go strings are byte strings. */
module LegacyProto {
  import opened Bytes
  import Strconv

  const Underscore: byte := 95
  const InitPhase: int := 0
  const ValidPhase: int := 1

  datatype Message = Message(phase: int, header: seq<byte>)

  datatype ProtoError = ErrInvalidMessage | ErrInvalidPhase | ErrInvalidDelimiter

  function Count(s: seq<byte>, b: byte): nat {
    if |s| == 0 then 0 else (if s[0] == b then 1 else 0) + Count(s[1..], b)
  }

  function Join(parts: seq<seq<byte>>, sep: byte): seq<byte>
    requires |parts| >= 1
  {
    if |parts| == 1 then parts[0] else parts[0] + [sep] + Join(parts[1..], sep)
  }

  /** `strings.Split(s, "_")`: the pieces between the separators, one more
      than there are separators, never none; joining them back gives `s`. */
  function Split(s: seq<byte>, sep: byte): (parts: seq<seq<byte>>)
    ensures |parts| == Count(s, sep) + 1
    ensures Join(parts, sep) == s
    ensures forall k, i :: 0 <= k < |parts| && 0 <= i < |parts[k]| ==> parts[k][i] != sep
  {
    if |s| == 0 then [[]]
    else
      var rest := Split(s[1..], sep);
      if s[0] == sep then
        assert [] + [sep] + Join(rest, sep) == s;
        [[]] + rest
      else
        var parts := [[s[0]] + rest[0]] + rest[1..];
        assert parts[1..] == rest[1..];
        assert Join(parts, sep) == s by {
          if |rest| == 1 {
          } else {
            assert rest == [rest[0]] + rest[1..];
            assert Join(rest, sep) == rest[0] + [sep] + Join(rest[1..], sep);
          }
        }
        parts
  }

  /** `String`: the decimal phase, '_', then the header. The digits bring no
      '_' of their own, so the printed message has exactly one '_' more than
      the header, and the header is what follows the last '_' it adds. */
  function String(m: Message): (r: seq<byte>)
    ensures Count(r, Underscore) == Count(m.header, Underscore) + 1
    ensures |m.header| < |r| && r[|r| - |m.header|..] == m.header && r[|r| - |m.header| - 1] == Underscore
  {
    var digits := Strconv.Itoa(m.phase);
    Strconv.ItoaExcludes(m.phase, Underscore);
    CountAbsent(digits, Underscore);
    CountAppend(digits + [Underscore], m.header, Underscore);
    CountAppend(digits, [Underscore], Underscore);
    assert Count([Underscore], Underscore) == 1;
    digits + [Underscore] + m.header
  }

  /** `Parse` on the receiver: phase 0 only for a message without '_' (and the
      header is left alone), phase 1 only with exactly one '_' (the header is
      what follows it). On error the receiver is unchanged. */
  function Parse(m: Message, msg: seq<byte>): (r: (Message, Option<ProtoError>))
    ensures r.1.Some? ==> r.0 == m
    ensures r.1.None? ==> r.0.phase == InitPhase || r.0.phase == ValidPhase
    ensures r.1.None? ==> Strconv.Atoi(Split(msg, Underscore)[0]) == Success(r.0.phase)
    ensures r.1 == Some(ErrInvalidPhase) <==>
      Strconv.Atoi(Split(msg, Underscore)[0]).Failure?
      || (Strconv.Atoi(Split(msg, Underscore)[0]).value != InitPhase && Strconv.Atoi(Split(msg, Underscore)[0]).value != ValidPhase)
    ensures r.1 == Some(ErrInvalidMessage) <==>
      (Strconv.Atoi(Split(msg, Underscore)[0]) == Success(InitPhase) && Count(msg, Underscore) != 0)
      || (Strconv.Atoi(Split(msg, Underscore)[0]) == Success(ValidPhase) && Count(msg, Underscore) != 1)
    ensures r.1.None? && r.0.phase == InitPhase ==> Count(msg, Underscore) == 0 && r.0.header == m.header
    ensures r.1.None? && r.0.phase == ValidPhase ==>
      Count(msg, Underscore) == 1 && |r.0.header| < |msg| && msg[|msg| - |r.0.header|..] == r.0.header
      && msg[|msg| - |r.0.header| - 1] == Underscore
  {
    var parts := Split(msg, Underscore);
    if |parts| == 0 then (m, Some(ErrInvalidDelimiter))
    else
      match Strconv.Atoi(parts[0])
      case Failure(_) => (m, Some(ErrInvalidPhase))
      case Success(phase) =>
        if phase == InitPhase then
          if |parts| != 1 then (m, Some(ErrInvalidMessage)) else (m.(phase := phase), None)
        else if phase == ValidPhase then
          if |parts| != 2 then (m, Some(ErrInvalidMessage))
          else
            assert parts[1..] == [parts[1]];
            assert Join(parts[1..], Underscore) == parts[1];
            assert Join(parts, Underscore) == parts[0] + [Underscore] + parts[1];
            assert msg == parts[0] + [Underscore] + parts[1];
            (m.(phase := phase, header := parts[1]), None)
        else (m, Some(ErrInvalidPhase))
  }

  /** The `ErrInvalidDelimiter` branch is dead: `Split` never returns nothing. */
  lemma ParseNeverReportsDelimiter(m: Message, msg: seq<byte>)
    ensures Parse(m, msg).1 != Some(ErrInvalidDelimiter)
  {
  }

  lemma {:induction false} CountAppend(a: seq<byte>, b: seq<byte>, x: byte)
    ensures Count(a + b, x) == Count(a, x) + Count(b, x)
    decreases |a|
  {
    if |a| > 0 {
      assert (a + b)[0] == a[0];
      assert (a + b)[1..] == a[1..] + b;
      CountAppend(a[1..], b, x);
    } else {
      assert a + b == b;
    }
  }

  lemma {:induction false} CountAbsent(a: seq<byte>, x: byte)
    requires forall i :: 0 <= i < |a| ==> a[i] != x
    ensures Count(a, x) == 0
    decreases |a|
  {
    if |a| > 0 {
      CountAbsent(a[1..], x);
    }
  }

  /** The printer and parser agree for phase 1 with a header free of '_'. */
  lemma ValidRoundTrip(m: Message, header: seq<byte>)
    requires forall i :: 0 <= i < |header| ==> header[i] != Underscore
    ensures Parse(m, String(Message(ValidPhase, header))) == (Message(ValidPhase, header), None)
  {
    assert Strconv.Itoa(ValidPhase) == [49];
    var s := String(Message(ValidPhase, header));
    CountAbsent(header, Underscore);
    var parts := Split(s, Underscore);
    assert |parts| == 2;
    assert s[0] == 49;
    assert parts[0] == [49] by {
      assert s == [49, Underscore] + header;
      assert Split(s, Underscore) == [[49] + Split(s[1..], Underscore)[0]] + Split(s[1..], Underscore)[1..];
      assert s[1..] == [Underscore] + header;
      assert Split(s[1..], Underscore) == [[]] + Split(header, Underscore);
    }
    Strconv.AtoiItoa(ValidPhase);
    assert Join(parts, Underscore) == parts[0] + [Underscore] + parts[1];
    assert parts[1] == header;
  }

  /** The Init round trip is broken: `String` always prints a '_', and `Parse`
      refuses phase 0 whenever one is present. */
  lemma InitNeverRoundTrips(m: Message, header: seq<byte>)
    ensures Parse(m, String(Message(InitPhase, header))) == (m, Some(ErrInvalidMessage))
  {
    var s := String(Message(InitPhase, header));
    var parts := Split(s, Underscore);
    assert parts[0] == [48] by {
      assert Strconv.Itoa(InitPhase) == [48];
      assert s == [48, Underscore] + header;
      assert Split(s, Underscore) == [[48] + Split(s[1..], Underscore)[0]] + Split(s[1..], Underscore)[1..];
      assert s[1..] == [Underscore] + header;
      assert Split(s[1..], Underscore) == [[]] + Split(header, Underscore);
    }
    Strconv.AtoiItoa(InitPhase);
  }
}
