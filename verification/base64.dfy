/** Standard base64 with '=' padding (section 4 of RFC 4648), as Go's
    `base64.StdEncoding` encodes and decodes it. The decoder is the non-strict
    one: it skips '\r' and '\n' anywhere in the input, insists on correct
    padding, and ignores the unused low bits of a padded final quantum. */
module Base64 {
  import opened Bytes

  const Pad: byte := 61
  const LF: byte := 10
  const CR: byte := 13

  predicate IsAlphabet(b: byte) {
    65 <= b <= 90 || 97 <= b <= 122 || 48 <= b <= 57 || b == 43 || b == 47
  }

  /** The character for a 6-bit value: A-Z, a-z, 0-9, '+', '/'. */
  function Char(v: int): (c: byte)
    requires 0 <= v < 64
    ensures IsAlphabet(c)
  {
    if v < 26 then 65 + v
    else if v < 52 then 97 + (v - 26)
    else if v < 62 then 48 + (v - 52)
    else if v == 62 then 43
    else 47
  }

  /** The 6-bit value of an alphabet character; the inverse of `Char`. */
  function Val(c: byte): (v: int)
    requires IsAlphabet(c)
    ensures 0 <= v < 64
    ensures Char(v) == c
  {
    if 65 <= c <= 90 then c - 65
    else if 97 <= c <= 122 then c - 97 + 26
    else if 48 <= c <= 57 then c - 48 + 52
    else if c == 43 then 62
    else 63
  }

  lemma ValChar(v: int)
    requires 0 <= v < 64
    ensures Val(Char(v)) == v
  {
  }

  function EncodeBlock(b0: byte, b1: byte, b2: byte): seq<byte> {
    [Char(b0 / 4), Char(b0 % 4 * 16 + b1 / 16), Char(b1 % 16 * 4 + b2 / 64), Char(b2 % 64)]
  }

  /** `StdEncoding.Encode`: every three bytes become four characters; a final
      one or two bytes are padded with '=' to a full quantum. */
  function Encode(s: seq<byte>): (r: seq<byte>)
    ensures |r| == (|s| + 2) / 3 * 4
    ensures forall i :: 0 <= i < |r| ==> IsAlphabet(r[i]) || r[i] == Pad
    decreases |s|
  {
    if |s| == 0 then []
    else if |s| == 1 then [Char(s[0] / 4), Char(s[0] % 4 * 16), Pad, Pad]
    else if |s| == 2 then [Char(s[0] / 4), Char(s[0] % 4 * 16 + s[1] / 16), Char(s[1] % 16 * 4), Pad]
    else EncodeBlock(s[0], s[1], s[2]) + Encode(s[3..])
  }

  /** The input with every '\r' and '\n' removed, which the decoder skips. */
  function StripNewlines(s: seq<byte>): (r: seq<byte>)
    ensures forall i :: 0 <= i < |r| ==> r[i] != CR && r[i] != LF
    ensures |r| <= |s|
  {
    if |s| == 0 then []
    else (if s[0] == CR || s[0] == LF then [] else [s[0]]) + StripNewlines(s[1..])
  }

  /** Four alphabet characters carry three bytes. */
  function DecodeBlock(a: byte, b: byte, c: byte, d: byte): seq<byte>
    requires IsAlphabet(a) && IsAlphabet(b) && IsAlphabet(c) && IsAlphabet(d)
  {
    [Val(a) * 4 + Val(b) / 16, Val(b) % 16 * 16 + Val(c) / 4, Val(c) % 4 * 64 + Val(d)]
  }

  /** One final quantum: four characters, "xyz=" or "xy==". */
  function DecodeFinal(a: byte, b: byte, c: byte, d: byte): Option<seq<byte>> {
    if !IsAlphabet(a) || !IsAlphabet(b) then None
    else if IsAlphabet(c) && IsAlphabet(d) then
      Some(DecodeBlock(a, b, c, d))
    else if IsAlphabet(c) && d == Pad then
      Some([Val(a) * 4 + Val(b) / 16, Val(b) % 16 * 16 + Val(c) / 4])
    else if c == Pad && d == Pad then
      Some([Val(a) * 4 + Val(b) / 16])
    else None
  }

  /** Decoding once newlines are gone: whole quanta only, padding only in the
      last one, nothing after it. */
  function DecodeQuanta(t: seq<byte>): (r: Option<seq<byte>>)
    ensures r.Some? ==> |t| % 4 == 0
    decreases |t|
  {
    if |t| == 0 then Some([])
    else if |t| < 4 then None
    else if |t| == 4 then DecodeFinal(t[0], t[1], t[2], t[3])
    else if IsAlphabet(t[0]) && IsAlphabet(t[1]) && IsAlphabet(t[2]) && IsAlphabet(t[3]) then
      match DecodeQuanta(t[4..])
      case None => None
      case Some(rest) =>
        Some(DecodeBlock(t[0], t[1], t[2], t[3]) + rest)
    else None
  }

  /** `StdEncoding.DecodeString`; `None` is Go's `CorruptInputError`. Only
      input that is whole quanta once line breaks are dropped decodes. */
  function Decode(s: seq<byte>): (r: Option<seq<byte>>)
    ensures r.Some? ==> |StripNewlines(s)| % 4 == 0
  {
    DecodeQuanta(StripNewlines(s))
  }

  /** Every quantum yields three bytes, less one per padding character, so
      `n` quanta give between 3n - 2 and 3n bytes. */
  lemma {:induction false} DecodeQuantaLength(t: seq<byte>)
    requires DecodeQuanta(t).Some?
    ensures |DecodeQuanta(t).value| <= 3 * (|t| / 4) <= |DecodeQuanta(t).value| + 2
    decreases |t|
  {
    if |t| > 4 {
      DecodeQuantaLength(t[4..]);
    }
  }

  predicate IsValid(s: seq<byte>) {
    Decode(s).Some?
  }

  lemma {:induction false} StripNewlinesNoop(s: seq<byte>)
    requires forall i :: 0 <= i < |s| ==> s[i] != CR && s[i] != LF
    ensures StripNewlines(s) == s
    decreases |s|
  {
    if |s| > 0 {
      StripNewlinesNoop(s[1..]);
    }
  }

  lemma BlockRoundTrip(b0: byte, b1: byte, b2: byte)
    ensures var e := EncodeBlock(b0, b1, b2); DecodeBlock(e[0], e[1], e[2], e[3]) == [b0, b1, b2]
  {
    ValChar(b0 / 4);
    ValChar(b0 % 4 * 16 + b1 / 16);
    ValChar(b1 % 16 * 4 + b2 / 64);
    ValChar(b2 % 64);
    assert (b0 % 4 * 16 + b1 / 16) / 16 == b0 % 4;
    assert (b0 % 4 * 16 + b1 / 16) % 16 == b1 / 16;
    assert (b1 % 16 * 4 + b2 / 64) / 4 == b1 % 16;
    assert (b1 % 16 * 4 + b2 / 64) % 4 == b2 / 64;
  }

  lemma TailOneRoundTrip(b0: byte)
    ensures DecodeFinal(Char(b0 / 4), Char(b0 % 4 * 16), Pad, Pad) == Some([b0])
  {
    ValChar(b0 / 4);
    ValChar(b0 % 4 * 16);
    assert (b0 % 4 * 16) / 16 == b0 % 4;
  }

  lemma TailTwoRoundTrip(b0: byte, b1: byte)
    ensures DecodeFinal(Char(b0 / 4), Char(b0 % 4 * 16 + b1 / 16), Char(b1 % 16 * 4), Pad) == Some([b0, b1])
  {
    ValChar(b0 / 4);
    ValChar(b0 % 4 * 16 + b1 / 16);
    ValChar(b1 % 16 * 4);
    assert (b0 % 4 * 16 + b1 / 16) / 16 == b0 % 4;
    assert (b0 % 4 * 16 + b1 / 16) % 16 == b1 / 16;
    assert (b1 % 16 * 4) / 4 == b1 % 16;
  }

  lemma {:induction false} DecodeQuantaEncode(s: seq<byte>)
    ensures DecodeQuanta(Encode(s)) == Some(s)
    decreases |s|
  {
    if |s| == 1 {
      assert Encode(s) == [Char(s[0] / 4), Char(s[0] % 4 * 16), Pad, Pad];
      TailOneRoundTrip(s[0]);
      assert [s[0]] == s;
    } else if |s| == 2 {
      assert Encode(s) == [Char(s[0] / 4), Char(s[0] % 4 * 16 + s[1] / 16), Char(s[1] % 16 * 4), Pad];
      TailTwoRoundTrip(s[0], s[1]);
      assert [s[0], s[1]] == s;
    } else if |s| >= 3 {
      DecodeQuantaEncode(s[3..]);
      BlockThenRest(s);
    }
  }

  lemma BlockThenRest(s: seq<byte>)
    requires |s| >= 3
    requires DecodeQuanta(Encode(s[3..])) == Some(s[3..])
    ensures DecodeQuanta(Encode(s)) == Some(s)
  {
    FirstThree(s);
    var q := EncodeBlock(s[0], s[1], s[2]);
    assert Encode(s) == q + Encode(s[3..]);
    BlockRoundTrip(s[0], s[1], s[2]);
    DecodeQuantaCons(q, Encode(s[3..]));
  }

  lemma FirstThree(s: seq<byte>)
    requires |s| >= 3
    ensures s == [s[0], s[1], s[2]] + s[3..]
  {
  }

  /** A full leading quantum decodes on its own, whatever follows it. */
  lemma DecodeQuantaCons(q: seq<byte>, rest: seq<byte>)
    requires |q| == 4
    requires IsAlphabet(q[0]) && IsAlphabet(q[1]) && IsAlphabet(q[2]) && IsAlphabet(q[3])
    ensures DecodeQuanta(q + rest) ==
      match DecodeQuanta(rest)
      case None => None
      case Some(tail) => Some(DecodeBlock(q[0], q[1], q[2], q[3]) + tail)
  {
    var t := q + rest;
    assert t[..4] == q;
    if |rest| == 0 {
      assert t == q;
      assert DecodeBlock(q[0], q[1], q[2], q[3]) + [] == DecodeBlock(q[0], q[1], q[2], q[3]);
    } else {
      assert t[4..] == rest;
    }
  }

  /** Decoding inverts encoding for every byte string. */
  lemma DecodeEncode(s: seq<byte>)
    ensures Decode(Encode(s)) == Some(s)
  {
    StripNewlinesNoop(Encode(s));
    DecodeQuantaEncode(s);
  }

  lemma {:induction false} DecodeQuantaAlphabet(t: seq<byte>, i: int)
    requires DecodeQuanta(t).Some?
    requires 0 <= i < |t|
    ensures IsAlphabet(t[i]) || t[i] == Pad
    decreases |t|
  {
    if |t| > 4 && i >= 4 {
      DecodeQuantaAlphabet(t[4..], i - 4);
    }
  }

  /** Valid base64 holds only alphabet characters, '=' and newlines; so never
      the hashcash delimiter ':'. */
  lemma ValidCharacters(s: seq<byte>, i: int)
    requires IsValid(s)
    requires 0 <= i < |s|
    ensures IsAlphabet(s[i]) || s[i] == Pad || s[i] == CR || s[i] == LF
  {
    var t := StripNewlines(s);
    if s[i] != CR && s[i] != LF {
      StripKeeps(s, i);
      var j :| 0 <= j < |t| && t[j] == s[i];
      DecodeQuantaAlphabet(t, j);
    }
  }

  lemma {:induction false} StripKeeps(s: seq<byte>, i: int)
    requires 0 <= i < |s|
    requires s[i] != CR && s[i] != LF
    ensures exists j :: 0 <= j < |StripNewlines(s)| && StripNewlines(s)[j] == s[i]
    decreases |s|
  {
    var head := if s[0] == CR || s[0] == LF then [] else [s[0]];
    assert StripNewlines(s) == head + StripNewlines(s[1..]);
    if i == 0 {
      assert StripNewlines(s)[0] == s[0];
    } else {
      StripKeeps(s[1..], i - 1);
      var j :| 0 <= j < |StripNewlines(s[1..])| && StripNewlines(s[1..])[j] == s[1..][i - 1];
      assert StripNewlines(s)[|head| + j] == s[i];
    }
  }
}
