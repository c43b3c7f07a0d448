/** The binary message codec of pkg/pow: a phase byte, the delimiter '_',
    then the payload, one message per read of at most 1024 bytes. The socket
    is not modelled: `Read` is given what one `conn.Read` returned. */
module PowProtocol {
  import opened Bytes

  const InitPhase: byte := 48
  const ValidPhase: byte := 49
  const Delimiter: byte := 95
  /** Size of the buffer handed to the single `conn.Read`. */
  const ReadBufferSize: nat := 1024

  /** The protocol state a connection carries: phase and payload. */
  datatype Protocol = Protocol(phase: byte, payload: seq<byte>)

  datatype ProtocolError =
    | ErrReadConn
    | ErrWriteConn
    | ErrInvalidMessage
    | ErrInvalidPhase
    | ErrInvalidDelimiter

  /** The result of the one `conn.Read` call: the bytes read, or an I/O
      failure (a timeout included). */
  datatype ReadResult = Received(data: seq<byte>) | ReadFailed

  predicate WellSized(r: ReadResult) {
    r.Received? ==> |r.data| <= ReadBufferSize
  }

  /** `New`: Init phase with an empty payload. */
  function New(): (p: Protocol)
    ensures p.phase == InitPhase && p.payload == []
  {
    Protocol(InitPhase, [])
  }

  /** `SetPhase`: the phase changes and the payload does not. */
  function SetPhase(p: Protocol, phase: byte): (r: Protocol)
    ensures r.phase == phase && r.payload == p.payload
  {
    p.(phase := phase)
  }

  /** `SetPayload`: the payload changes and the phase does not. */
  function SetPayload(p: Protocol, payload: seq<byte>): (r: Protocol)
    ensures r.payload == payload && r.phase == p.phase
  {
    p.(payload := payload)
  }

  /** `Message`: the wire form, the phase byte, '_', then the payload. */
  function Message(p: Protocol): (r: seq<byte>)
    ensures |r| == |p.payload| + 2 && r[0] == p.phase && r[1] == Delimiter && r[2..] == p.payload
  {
    [p.phase, Delimiter] + p.payload
  }

  /** The decoding half of `Read` over the receiver: the delimiter is checked
      before the phase; an Init message replaces the payload only when it
      carries one; a Valid message must carry one. On error nothing changes. */
  function Read(p: Protocol, input: ReadResult): (r: (Protocol, Option<ProtocolError>))
    requires WellSized(input)
    ensures r.1.Some? ==> r.0 == p
    ensures r.1.None? ==> input.Received? && |input.data| >= 2 && r.0.phase == input.data[0]
    ensures r.1.None? ==> r.0.phase == InitPhase || r.0.phase == ValidPhase
    ensures r.1.None? && |input.data| > 2 ==> Message(r.0) == input.data
    ensures r.1.None? && |input.data| == 2 ==> input.data == [InitPhase, Delimiter] && r.0 == p.(phase := InitPhase)
  {
    match input
    case ReadFailed => (p, Some(ErrReadConn))
    case Received(data) =>
      if |data| < 2 then (p, Some(ErrInvalidMessage))
      else if data[1] != Delimiter then (p, Some(ErrInvalidDelimiter))
      else if data[0] == InitPhase then
        (Protocol(InitPhase, if |data| > 2 then data[2..] else p.payload), None)
      else if data[0] == ValidPhase then
        if |data| < 3 then (p, Some(ErrInvalidMessage))
        else (Protocol(ValidPhase, data[2..]), None)
      else (p, Some(ErrInvalidPhase))
  }

  /** `Write`: one write of `Message`, which may fail. */
  function Write(p: Protocol, writeSucceeds: bool): (r: Option<seq<byte>>)
    ensures r.Some? <==> writeSucceeds
    ensures r.Some? ==> |r.value| == |p.payload| + 2 && r.value[0] == p.phase && r.value[1] == Delimiter && r.value[2..] == p.payload
  {
    if writeSucceeds then Some(Message(p)) else None
  }

  /** The error a read of `data` produces, in the order the checks run. */
  lemma ReadErrors(p: Protocol, data: seq<byte>)
    requires |data| <= ReadBufferSize
    ensures |data| < 2 ==> Read(p, Received(data)).1 == Some(ErrInvalidMessage)
    ensures |data| >= 2 && data[1] != Delimiter ==> Read(p, Received(data)).1 == Some(ErrInvalidDelimiter)
    ensures |data| >= 2 && data[1] == Delimiter && data[0] != InitPhase && data[0] != ValidPhase ==>
      Read(p, Received(data)).1 == Some(ErrInvalidPhase)
    ensures data == [ValidPhase, Delimiter] ==> Read(p, Received(data)).1 == Some(ErrInvalidMessage)
  {
  }

  /** Reading what `Message` wrote gives back phase and payload, for both
      phases and every non-empty payload that fits in one read. */
  lemma MessageRoundTrip(p: Protocol, q: Protocol)
    requires q.phase == InitPhase || q.phase == ValidPhase
    requires 0 < |q.payload| <= ReadBufferSize - 2
    ensures Read(p, Received(Message(q))) == (q, None)
  {
    assert Message(q)[2..] == q.payload;
  }

  /** The setters followed by `Message` produce exactly the phase, '_' and the
      payload given, whatever the protocol held before. */
  lemma SettersThenMessage(p: Protocol, phase: byte, payload: seq<byte>)
    ensures Message(SetPayload(SetPhase(p, phase), payload)) == [phase, Delimiter] + payload
  {
  }

  /** The cases of the codec's tests: "0_" is Init keeping the empty payload,
      "1_abc" is Valid with "abc", and "0", "1_", "0abc", "2_abc" fail. */
  lemma ReadExamples()
    ensures Read(New(), Received([InitPhase, Delimiter])) == (New(), None)
    ensures Read(New(), Received([ValidPhase, Delimiter, 97, 98, 99])) == (Protocol(ValidPhase, [97, 98, 99]), None)
    ensures Read(New(), Received([InitPhase])) == (New(), Some(ErrInvalidMessage))
    ensures Read(New(), Received([ValidPhase, Delimiter])) == (New(), Some(ErrInvalidMessage))
    ensures Read(New(), Received([InitPhase, 97, 98, 99])) == (New(), Some(ErrInvalidDelimiter))
    ensures Read(New(), Received([50, Delimiter, 97, 98, 99])) == (New(), Some(ErrInvalidPhase))
  {
  }
}
