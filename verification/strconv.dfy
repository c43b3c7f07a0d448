/** Go's `strconv.Itoa` and `strconv.Atoi` on 64-bit `int`, over byte strings. */
module Strconv {
  import opened Bytes

  const Zero: byte := 48
  const Minus: byte := 45
  const Plus: byte := 43

  predicate IsDigit(b: byte) {
    Zero <= b <= Zero + 9
  }

  predicate AllDigits(s: seq<byte>) {
    forall i :: 0 <= i < |s| ==> IsDigit(s[i])
  }

  /** The value of a run of decimal digits, leading zeros allowed. */
  function DigitsValue(s: seq<byte>): nat
    requires AllDigits(s)
  {
    if |s| == 0 then 0 else DigitsValue(s[..|s| - 1]) * 10 + (s[|s| - 1] - Zero)
  }

  /** The shortest decimal rendering of a natural number. */
  function NatToDigits(n: nat): (r: seq<byte>)
    ensures 1 <= |r|
    ensures AllDigits(r)
    decreases n
  {
    if n < 10 then [Zero + n] else NatToDigits(n / 10) + [Zero + n % 10]
  }

  /** `strconv.Itoa`: a leading '-' for negative numbers, then the digits. */
  function Itoa(n: int): (r: seq<byte>)
    ensures 1 <= |r|
    ensures forall i :: 0 <= i < |r| ==> IsDigit(r[i]) || (i == 0 && r[i] == Minus)
  {
    if n < 0 then [Minus] + NatToDigits(-n) else NatToDigits(n)
  }

  datatype NumError = ErrSyntax | ErrRange

  /** `strconv.Atoi`: an optional sign, at least one decimal digit and nothing
      else; a value outside the 64-bit range is a range error. Any byte other
      than a digit after the sign makes it a syntax error, even where Go
      reports the overflow it met first as a range error; every caller maps
      both kinds to the same error of its own. */
  function Atoi(s: seq<byte>): (r: Result<int, NumError>)
    ensures r.Success? ==> IsInt64(r.value)
    ensures r.Success? ==> 1 <= |s| && forall i :: 0 <= i < |s| ==> IsDigit(s[i]) || (i == 0 && (s[i] == Minus || s[i] == Plus))
    ensures r.Success? && 0 < |s| && s[0] == Minus ==> r.value <= 0
    ensures r.Success? && 0 < |s| && s[0] != Minus ==> r.value >= 0
  {
    if |s| == 0 then Failure(ErrSyntax)
    else
      var body := if s[0] == Minus || s[0] == Plus then s[1..] else s;
      if |body| == 0 || !AllDigits(body) then Failure(ErrSyntax)
      else
        var v: int := if s[0] == Minus then -(DigitsValue(body) as int) else DigitsValue(body);
        if IsInt64(v) then Success(v) else Failure(ErrRange)
  }

  lemma {:induction false} DigitsRoundTrip(n: nat)
    ensures DigitsValue(NatToDigits(n)) == n
    decreases n
  {
    if n >= 10 {
      var d := NatToDigits(n / 10) + [Zero + n % 10];
      assert d[..|d| - 1] == NatToDigits(n / 10);
      DigitsRoundTrip(n / 10);
    }
  }

  /** `Atoi` inverts `Itoa` on the whole 64-bit range, negative values included. */
  lemma AtoiItoa(n: int)
    requires IsInt64(n)
    ensures Atoi(Itoa(n)) == Success(n)
  {
    if n < 0 {
      DigitsRoundTrip(-n);
      AtoiNegative(NatToDigits(-n));
    } else {
      DigitsRoundTrip(n);
      AtoiDigits(NatToDigits(n));
    }
  }

  /** `Atoi` of unsigned digits in range is their value. */
  lemma AtoiDigits(d: seq<byte>)
    requires 1 <= |d| && AllDigits(d) && IsInt64(DigitsValue(d))
    ensures Atoi(d) == Success(DigitsValue(d) as int)
  {
    assert IsDigit(d[0]);
  }

  /** `Atoi` of '-' and digits in range is the negated value. */
  lemma AtoiNegative(d: seq<byte>)
    requires 1 <= |d| && AllDigits(d) && IsInt64(-(DigitsValue(d) as int))
    ensures Atoi([Minus] + d) == Success(-(DigitsValue(d) as int))
  {
    assert ([Minus] + d)[1..] == d;
  }

  /** `Itoa` never emits a byte other than '-' and the digits; in particular
      not the hashcash delimiter ':' or the legacy delimiter '_'. */
  lemma ItoaExcludes(n: int, b: byte)
    requires !IsDigit(b) && b != Minus
    ensures forall i :: 0 <= i < |Itoa(n)| ==> Itoa(n)[i] != b
  {
  }
}
