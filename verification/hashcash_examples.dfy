/** The cases of the parser's tests, worked through the model. The bytes are
    written out: "MTIzNA==" is [77, 84, 73, 122, 78, 65, 61, 61], and so on. */
module HashcashExamples {
  import opened Bytes
  import Strconv
  import Base64
  import opened Hashcash
  import opened HashcashParse

  lemma BlockMTIz()
    ensures Base64.DecodeBlock(77, 84, 73, 122) == [49, 50, 51]
  {
    assert Base64.Val(77) == 12 && Base64.Val(84) == 19 && Base64.Val(73) == 8 && Base64.Val(122) == 51;
  }

  lemma FinalNA()
    ensures Base64.DecodeFinal(78, 65, 61, 61) == Some([52])
  {
    assert Base64.Val(78) == 13 && Base64.Val(65) == 0;
  }

  lemma QuantaMTIzNA()
    ensures Base64.DecodeQuanta([77, 84, 73, 122, 78, 65, 61, 61]) == Some([49, 50, 51, 52])
  {
    BlockMTIz();
    FinalNA();
    Base64.DecodeQuantaCons([77, 84, 73, 122], [78, 65, 61, 61]);
    assert [77, 84, 73, 122, 78, 65, 61, 61] == [77, 84, 73, 122] + [78, 65, 61, 61];
    assert Base64.DecodeQuanta([78, 65, 61, 61]) == Some([52]);
    assert [49, 50, 51] + [52] == [49, 50, 51, 52];
  }

  lemma DecodeMTIzNA()
    ensures Base64.Decode([77, 84, 73, 122, 78, 65, 61, 61]) == Some([49, 50, 51, 52])
  {
    Base64.StripNewlinesNoop([77, 84, 73, 122, 78, 65, 61, 61]);
    QuantaMTIzNA();
  }


  lemma AtoiOf1234()
    ensures Strconv.Atoi([49, 50, 51, 52]) == Success(1234)
  {
    var d: seq<byte> := [49, 50, 51, 52];
    assert Strconv.DigitsValue([49]) == 1 by {
      assert [49][..0] == [];
    }
    assert Strconv.DigitsValue([49, 50]) == 12 by {
      assert [49, 50][..1] == [49];
    }
    assert Strconv.DigitsValue([49, 50, 51]) == 123 by {
      assert [49, 50, 51][..2] == [49, 50];
    }
    assert Strconv.DigitsValue(d) == 1234 by {
      assert d[..3] == [49, 50, 51];
    }
  }

  /** "MTIzNA==" is the counter 1234. */
  lemma ToCounterValid()
    ensures ToCounter([77, 84, 73, 122, 78, 65, 61, 61]) == Success(1234)
  {
    DecodeMTIzNA();
    AtoiOf1234();
  }

  /** "NTQ2==" has padding after a full quantum: corrupt base64. */
  lemma ToCounterCorrupt()
    ensures ToCounter([78, 84, 81, 50, 61, 61]) == Failure(CorruptBase64)
  {
    var s: seq<byte> := [78, 84, 81, 50, 61, 61];
    Base64.StripNewlinesNoop(s);
    assert Base64.DecodeQuanta(s[4..]) == None;
  }

  lemma BlockYWJj()
    ensures Base64.DecodeBlock(89, 87, 74, 106) == [97, 98, 99]
  {
    assert Base64.Val(89) == 24 && Base64.Val(87) == 22 && Base64.Val(74) == 9 && Base64.Val(106) == 35;
  }

  lemma FinalZA()
    ensures Base64.DecodeFinal(90, 65, 61, 61) == Some([100])
  {
    assert Base64.Val(90) == 25 && Base64.Val(65) == 0;
  }

  lemma QuantaYWJjZA()
    ensures Base64.DecodeQuanta([89, 87, 74, 106, 90, 65, 61, 61]) == Some([97, 98, 99, 100])
  {
    BlockYWJj();
    FinalZA();
    Base64.DecodeQuantaCons([89, 87, 74, 106], [90, 65, 61, 61]);
    assert [89, 87, 74, 106, 90, 65, 61, 61] == [89, 87, 74, 106] + [90, 65, 61, 61];
    assert Base64.DecodeQuanta([90, 65, 61, 61]) == Some([100]);
    assert [97, 98, 99] + [100] == [97, 98, 99, 100];
  }

  lemma DecodeYWJjZA()
    ensures Base64.Decode([89, 87, 74, 106, 90, 65, 61, 61]) == Some([97, 98, 99, 100])
  {
    Base64.StripNewlinesNoop([89, 87, 74, 106, 90, 65, 61, 61]);
    QuantaYWJjZA();
  }


  /** "YWJjZA==" decodes to "abcd", which is not an integer. */
  lemma ToCounterNotInteger()
    ensures ToCounter([89, 87, 74, 106, 90, 65, 61, 61]) == Failure(NotAnInteger(Strconv.ErrSyntax))
  {
    DecodeYWJjZA();
  }

  /** The date of the parser's test header, "1303030600". */
  const TestDate: seq<byte> := [49, 51, 48, 51, 48, 51, 48, 54, 48, 48]
  /** Its resource, "255.255.0.0:80". */
  const TestResource: seq<byte> := [50, 53, 53, 46, 50, 53, 53, 46, 48, 46, 48, 58, 56, 48]
  /** Its nonce, "NTQ2". */
  const TestRand: seq<byte> := [78, 84, 81, 50]
  /** "1:20:1303030600:255.255.0.0:80", everything before the first "::". */
  const TestFields: seq<byte> := [49, 58, 50, 48, 58] + TestDate + [58] + TestResource
  /** The test header up to its counter, and the whole header, whose counter
      text "MA==" is 0. */
  const TestKept: seq<byte> := TestFields + [58, 58] + TestRand + [58]
  const TestHeader: seq<byte> := TestKept + [77, 65, 61, 61]

  lemma OneQuantumValid(q: seq<byte>)
    requires |q| == 4 && forall i :: 0 <= i < 4 ==> Base64.IsAlphabet(q[i])
    ensures Base64.IsValid(q)
  {
    Base64.StripNewlinesNoop(q);
  }

  lemma TestRandValid()
    ensures Base64.IsValid(TestRand)
  {
    OneQuantumValid(TestRand);
  }

  lemma TestFieldsSimple()
    ensures NoDoubleDelimiter(Prefix(20, TestDate + [Delimiter] + TestResource) + [Delimiter])
  {
    assert NoDoubleDelimiter(TestResource);
    SimpleFieldsKeepDelimiterFirst(20, TestResource, TestDate);
  }

  lemma SmallTexts()
    ensures Strconv.Itoa(20) == [50, 48]
    ensures Base64.Encode(Strconv.Itoa(0)) == [77, 65, 61, 61]
  {
    assert Strconv.Itoa(0) == [48];
    assert Base64.Encode([48]) == [77, 65, 61, 61];
  }

  lemma TestFieldsText()
    ensures Prefix(20, TestDate + [Delimiter] + TestResource) == TestFields
  {
    SmallTexts();
  }

  lemma TestPrefixShape()
    ensures Prefix(20, TestDate + [Delimiter] + TestResource) + DoubleDelimiter + TestRand + [Delimiter] == TestKept
  {
    TestFieldsText();
  }

  /** The valid header of the parser's tests gives bits 20, nonce "NTQ2",
      counter 0, and keeps everything up to the last ':'. */
  lemma ParseTestHeader()
    ensures Parse(TestHeader) == Success(Hashcash(20, 0, TestRand, TestKept))
  {
    TestRandValid();
    TestFieldsSimple();
    SmallTexts();
    TestPrefixShape();
    ParseWellFormed(20, TestDate + [Delimiter] + TestResource, TestRand, 0);
  }

  /** The test header with version '0' in place of '1' is refused as an
      invalid version. */
  lemma ParseTestWrongVersion()
    ensures Parse([48] + TestHeader[1..]) == Failure(ErrInvalidVersion)
  {
    var h := [48] + TestHeader[1..];
    var f := [48] + TestFields[1..];
    assert h == f + (DoubleDelimiter + TestRand + [Delimiter, 77, 65, 61, 61]);
    assert |f| == 30;
    assert h[30..32] == DoubleDelimiter;
    assert OccursAt(h, DoubleDelimiter, 30);
  }

  /** The test header cut before its counter, "...::MA==" with no ':' after
      the nonce, is refused as an invalid delimiter. */
  lemma ParseTestNoCounter()
    ensures Parse(TestFields + DoubleDelimiter + [77, 65, 61, 61]) == Failure(ErrInvalidDelimiter)
  {
    var after: seq<byte> := [77, 65, 61, 61];
    TestFieldsSimple();
    TestFieldsText();
    IndexAbsent(after, [Delimiter]) by {
      forall i | 0 <= i ensures !OccursAt(after, [Delimiter], i) {
        OccursAtByte(after, Delimiter, i);
      }
    }
    TailDecidesParse(20, TestDate + [Delimiter] + TestResource, after);
  }

  /** The test header with counter text "NTQ2==" is refused as an invalid
      counter. */
  lemma ParseTestBadCounter()
    ensures Parse(TestFields + DoubleDelimiter + TestRand + [Delimiter] + [78, 84, 81, 50, 61, 61])
      == Failure(ErrInvalidCounter)
  {
    var counterText: seq<byte> := [78, 84, 81, 50, 61, 61];
    var after := TestRand + [Delimiter] + counterText;
    TestFieldsSimple();
    TestFieldsText();
    TestRandValid();
    ToCounterCorrupt();
    forall i | 0 <= i < |TestRand| ensures TestRand[i] != Delimiter {
      Base64.ValidCharacters(TestRand, i);
    }
    FirstDelimiter(TestRand, counterText);
    assert after[..4] == TestRand && after[5..] == counterText;
    assert ParseTail(after) == Failure(ErrInvalidCounter);
    assert TestFields + DoubleDelimiter + TestRand + [Delimiter] + counterText == TestFields + DoubleDelimiter + after;
    TailDecidesParse(20, TestDate + [Delimiter] + TestResource, after);
  }

  /** The test header with bits 0, "1:0:1303030600:255.255.0.0:80::NTQ2:MA==",
      is what `New` and `Header` write for difficulty 0. */
  lemma ZeroBitsHeaderText()
    ensures Header(New(0, TestResource, TestRand, TestDate))
      == [49, 58, 48, 58] + TestDate + [58] + TestResource + [58, 58] + TestRand + [58, 77, 65, 61, 61]
  {
    SmallTexts();
    assert Strconv.Itoa(0) == [48];
  }

  /** That header is refused as invalid bits. */
  lemma ParseTestZeroBits()
    ensures Parse([49, 58, 48, 58] + TestDate + [58] + TestResource + [58, 58] + TestRand + [58, 77, 65, 61, 61])
      == Failure(ErrInvalidBits)
  {
    assert NoDoubleDelimiter(TestResource);
    SimpleFieldsKeepDelimiterFirst(0, TestResource, TestDate);
    LowDifficultyRejected(0, TestResource, TestRand, TestDate, 0);
    ZeroBitsHeaderText();
  }

  /** The leading-zero check of the solver's tests: "000abcdef" meets 3,
      "00abcdef" does not meet 4, and "00abc" is too short for 6. */
  lemma IsValidExamples()
    ensures IsValid(3, [48, 48, 48, 97, 98, 99, 100, 101, 102])
    ensures !IsValid(4, [48, 48, 97, 98, 99, 100, 101, 102])
    ensures !IsValid(6, [48, 48, 97, 98, 99])
  {
    assert [48, 48, 97, 98, 99, 100, 101, 102][2] != ZeroByte;
  }
}
