/** The test strings of src/net.rs split at their colons. */
module SplitExamples {
  import opened Text

  lemma ValidTextSplits()
    ensures Split("01:23:45:ab:cd:ef", ':') == ["01", "23", "45", "ab", "cd", "ef"]
  {
    var good := ["01", "23", "45", "ab", "cd", "ef"];
    assert Join(good, ':') == "01:23:45:ab:cd:ef";
    SplitJoin(good, ':');
  }

  lemma ShortTextSplits()
    ensures Split("01:23:45:ab", ':') == ["01", "23", "45", "ab"]
  {
    var few := ["01", "23", "45", "ab"];
    assert Join(few, ':') == "01:23:45:ab";
    SplitJoin(few, ':');
  }

  lemma LongTextSplits()
    ensures Split("01:23:45:ab:cd:ef:45", ':') == ["01", "23", "45", "ab", "cd", "ef", "45"]
  {
    var many := ["01", "23", "45", "ab", "cd", "ef", "45"];
    assert Join(many, ':') == "01:23:45:ab:cd:ef:45";
    SplitJoin(many, ':');
  }

  lemma InvalidTextSplits()
    ensures Split("01:23:45:ab:cd:eg", ':') == ["01", "23", "45", "ab", "cd", "eg"]
  {
    var bad := ["01", "23", "45", "ab", "cd", "eg"];
    assert Join(bad, ':') == "01:23:45:ab:cd:eg";
    SplitJoin(bad, ':');
  }
}

/** The unit tests of src/net.rs, stated as lemmas about the model. */
module NetTests {
  import opened Types
  import opened Hex
  import opened SplitExamples
  import opened Net

  lemma ValidSegmentsParse()
    ensures ParseSegments(["01", "23", "45", "ab", "cd", "ef"]) ==
      Returned(Ok(MacAddress([0x01, 0x23, 0x45, 0xab, 0xcd, 0xef])))
  {
    var good := ["01", "23", "45", "ab", "cd", "ef"];
    assert FromStrRadix16("01") == Ok(0x01);
    assert FromStrRadix16("23") == Ok(0x23);
    assert FromStrRadix16("45") == Ok(0x45);
    assert FromStrRadix16("ab") == Ok(0xab);
    assert FromStrRadix16("cd") == Ok(0xcd);
    assert FromStrRadix16("ef") == Ok(0xef);
    assert FirstRejected(good) == 6;
    var bytes := ByteValues(good);
    assert bytes == [0x01, 0x23, 0x45, 0xab, 0xcd, 0xef];
  }

  /** The accepted address of the unit tests. */
  lemma ParseValidExample()
    ensures ParseMac("01:23:45:ab:cd:ef") == Returned(Ok(MacAddress([0x01, 0x23, 0x45, 0xab, 0xcd, 0xef])))
  {
    ValidTextSplits();
    ValidSegmentsParse();
  }

  lemma ShortSegmentsFail()
    ensures ParseSegments(["01", "23", "45", "ab"]) == Returned(Err(WrongOctetCount))
  {
    var few := ["01", "23", "45", "ab"];
    assert forall j :: 0 <= j < 4 ==> Accepts(few[j]);
    ParseTooFewOctets(few);
  }

  /** Four octets are too few. */
  lemma ParseTooFewExample()
    ensures ParseMac("01:23:45:ab") == Returned(Err(WrongOctetCount))
  {
    ShortTextSplits();
    ShortSegmentsFail();
  }

  lemma LongSegmentsPanic()
    ensures ParseSegments(["01", "23", "45", "ab", "cd", "ef", "45"]) == IndexPanic(6)
  {
    var many := ["01", "23", "45", "ab", "cd", "ef", "45"];
    assert forall j :: 0 <= j <= 6 ==> Accepts(many[j]);
    ParseTooManyOctets(many);
  }

  /** Seven octets panic on the write of the seventh. */
  lemma ParseTooManyExample()
    ensures ParseMac("01:23:45:ab:cd:ef:45") == IndexPanic(6)
  {
    LongTextSplits();
    LongSegmentsPanic();
  }

  lemma InvalidSegmentsParse()
    ensures ParseSegments(["01", "23", "45", "ab", "cd", "eg"]) == Returned(Err("invalid digit found in string"))
  {
    var bad := ["01", "23", "45", "ab", "cd", "eg"];
    assert FromStrRadix16("eg") == Err(InvalidDigit);
    assert forall j :: 0 <= j < 5 ==> Accepts(bad[j]);
    assert FirstRejected(bad) == 5;
  }

  /** A non-hex character in the last octet is reported by the byte parser. */
  lemma ParseInvalidHexExample()
    ensures ParseMac("01:23:45:ab:cd:eg") == Returned(Err("invalid digit found in string"))
  {
    InvalidTextSplits();
    InvalidSegmentsParse();
  }
}
