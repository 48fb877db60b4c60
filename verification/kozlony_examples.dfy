/** Concrete inputs run through the gazette law extractor. */
module KozlonyExamples {
  import opened Wrappers
  import opened Lines
  import opened Kozlony

  /** A year, "évi", the act's number in Roman numerals, a full stop and
      "törvény" start a header. */
  lemma HeaderStartExample()
    ensures HeaderStart("2011. évi CLI. törvény")
  {
    var header := "2011. évi CLI. törvény";
    assert header[..5] == "2011.";
    assert header[5..10] == " évi ";
    assert header[10..14] == "CLI.";
    assert header[14..] == " törvény";
    assert AnyThenAct(header, 13);
    assert RomanThenAct(header, 12);
    assert RomanThenAct(header, 11);
    assert RomanThenAct(header, 10);
  }

  /** An act without a number does not start a header. */
  lemma HeaderStartNeedsNumber()
    ensures !HeaderStart("2011. évi törvény")
  {
    var plain := "2011. évi törvény";
    assert plain[10..11] == "t";
    assert !IsRomanLetter(plain[10]);
  }

  /** The act of 2011 on the Constitutional Court, cut down to one line of
      body, comes out of its laws section. */
  lemma ExtractLawsExample()
    ensures ExtractLaws([
      EmptyLine,
      TextLine("2011. évi CLI. törvény"),
      TextLine("az Alkotmánybíróságról*"),
      TextLine("1. §"),
      EmptyLine,
      TextLine("Dr. Schmitt Pál s. k."),
      TextLine("köztársasági elnök az Országgyűlés elnöke")
    ]) == Ok([RawText("2011. évi CLI. törvény", "az Alkotmánybíróságról", [TextLine("1. §")])])
  {
    var footer := "köztársasági elnök az Országgyűlés elnöke";
    HeaderStartExample();
    assert ActFooter(footer) by { assert footer[..|footer|] == footer; }
    assert "az Alkotmánybíróságról*" == "az Alkotmánybíróságról" + "*";
    RunOneLineAct("2011. évi CLI. törvény", "az Alkotmánybíróságról", TextLine("1. §"),
      TextLine("Dr. Schmitt Pál s. k."), TextLine(footer));
  }
}
