/** Worked examples: hand-built parses of the kind the parser produces. */
module GrammarExamples {
  import opened Text
  import opened Grammar

  /** "The virus infects human respiratory cells rapidly." */
  function VirusInfects(): seq<Token> {
    [ Token("The", "DET", "det", []),
      Token("virus", "NOUN", "nsubj", [0]),
      Token("infects", "VERB", "ROOT", [1, 5, 6, 7]),
      Token("human", "ADJ", "amod", []),
      Token("respiratory", "ADJ", "amod", []),
      Token("cells", "NOUN", "dobj", [3, 4]),
      Token("rapidly", "ADV", "advmod", []),
      Token(".", "PUNCT", "punct", []) ]
  }

  /** "Figure 3 below." */
  function FigureBelow(): seq<Token> {
    [ Token("Figure", "NOUN", "ROOT", [1, 2, 3]),
      Token("3", "NUM", "nummod", []),
      Token("below", "ADV", "advmod", []),
      Token(".", "PUNCT", "punct", []) ]
  }

  /** "2019-nCoV causes severe viral pneumonia.", the virus name mistagged NUM. */
  function NcovCauses(): seq<Token> {
    [ Token("2019-nCoV", "NUM", "nsubj", []),
      Token("causes", "VERB", "ROOT", [0, 4, 5]),
      Token("severe", "ADJ", "amod", []),
      Token("viral", "ADJ", "amod", []),
      Token("pneumonia", "NOUN", "dobj", [2, 3]),
      Token(".", "PUNCT", "punct", []) ]
  }

  lemma VirusNameLowers()
    ensures Lower("2019-nCoV") == VirusName
  {
    assert Lower("2019-nCoV") == "2019-ncov";
  }

  /** A well-formed sentence with a subject, a verb and seven words gets no
      label, whatever its text as long as that ends in a full stop. */
  lemma VirusInfectsIsInformative(text: string)
    requires text != [] && text[|text| - 1] == '.'
    ensures Label(text, VirusInfects()) == None
  {
    EndsOtherwiseIsNoQuestion(text);
    VirusInfectsUnchanged();
    VirusInfectsIsValid();
  }

  lemma VirusInfectsIsValid()
    ensures !IsFragment(VirusInfects())
  {
    VirusInfectsWords();
    var ts := VirusInfects();
    assert IsNominalSubject(ts[1]) && IsActionWord(ts[2]);
  }

  lemma VirusInfectsUnchanged()
    ensures Retagged(VirusInfects()) == VirusInfects()
  {
    var ts := VirusInfects();
    assert forall i :: 0 <= i < |ts| ==> ts[i].pos != "NUM";
  }

  lemma VirusInfectsWords()
    ensures |Words(VirusInfects())| == 7
  {
    var ts := VirusInfects();
    assert Words(ts[7..]) == [];
    assert Words(ts[6..]) == ["rapidly"];
    assert Words(ts[5..]) == ["cells", "rapidly"];
    assert Words(ts[4..]) == ["respiratory", "cells", "rapidly"];
    assert |Words(ts[3..])| == 4;
    assert |Words(ts[2..])| == 5;
    assert |Words(ts[1..])| == 6;
  }

  /** A verbless span with two counted words is a fragment. */
  lemma FigureBelowIsFragment(text: string)
    requires text != [] && text[|text| - 1] == '.'
    ensures Label(text, FigureBelow()) == Some(Fragment)
  {
    EndsOtherwiseIsNoQuestion(text);
    FigureBelowUnchanged();
    FigureBelowWords();
  }

  lemma FigureBelowUnchanged()
    ensures Retagged(FigureBelow()) == FigureBelow()
  {
    var ts := FigureBelow();
    assert Lower(ts[1].text) != VirusName;
    assert forall i :: 0 <= i < |ts| && i != 1 ==> ts[i].pos != "NUM";
  }

  lemma FigureBelowWords()
    ensures |Words(FigureBelow())| == 2
  {
    var ts := FigureBelow();
    assert Words(ts[2..]) == ["below"];
  }

  /** The retag supplies the nominal subject: the uncorrected parse is a
      fragment, the corrected one is not, and the sentence gets no label. */
  lemma NcovRetagClearsFragment(text: string)
    requires text != [] && text[|text| - 1] == '.'
    ensures IsFragment(NcovCauses())
    ensures !IsFragment(Retagged(NcovCauses()))
    ensures Label(text, NcovCauses()) == None
  {
    NcovUncorrectedHasNoSubject();
    NcovCorrectedIsValid();
    EndsOtherwiseIsNoQuestion(text);
  }

  lemma NcovUncorrectedHasNoSubject()
    ensures !HasNominalSubject(NcovCauses())
  {
    var ts := NcovCauses();
    assert forall i :: 0 <= i < |ts| ==> ts[i].pos !in NounTags || ts[i].dep !in SubjectRelations;
  }

  lemma NcovCorrectedIsValid()
    ensures !IsFragment(Retagged(NcovCauses()))
  {
    NcovCausesRetagged();
    NcovCausesWords();
    RetaggedKeepsWords(NcovCauses());
    var r := Retagged(NcovCauses());
    assert IsNominalSubject(r[0]) && IsActionWord(r[1]);
  }

  lemma NcovCausesRetagged()
    ensures Retagged(NcovCauses()) == [NcovCauses()[0].(pos := "NOUN")] + NcovCauses()[1..]
  {
    VirusNameLowers();
    assert NeedsRetag(NcovCauses()[0]);
  }

  lemma NcovCausesWords()
    ensures |Words(NcovCauses())| == 5
  {
    var ts := NcovCauses();
    assert Words(ts[5..]) == [];
    assert Words(ts[4..]) == ["pneumonia"];
    assert Words(ts[3..]) == ["viral", "pneumonia"];
    assert Words(ts[2..]) == ["severe", "viral", "pneumonia"];
    assert |Words(ts[1..])| == 4;
  }

  /** "2019-nCoV causes severe pneumonia.": four counted words. */
  function NcovCausesShort(): seq<Token> {
    [ Token("2019-nCoV", "NUM", "nsubj", []),
      Token("causes", "VERB", "ROOT", [0, 3, 4]),
      Token("severe", "ADJ", "amod", []),
      Token("pneumonia", "NOUN", "dobj", [2]),
      Token(".", "PUNCT", "punct", []) ]
  }

  /** With four counted words a sentence stays a fragment even after the
      retag has given it its nominal subject. */
  lemma NcovShortStaysFragment(text: string)
    requires text != [] && text[|text| - 1] == '.'
    ensures IsFragment(Retagged(NcovCausesShort()))
    ensures Label(text, NcovCausesShort()) == Some(Fragment)
  {
    var ts := NcovCausesShort();
    assert Words(ts[4..]) == [];
    assert Words(ts[3..]) == ["pneumonia"];
    assert Words(ts[2..]) == ["severe", "pneumonia"];
    assert |Words(ts)| == 4;
    RetaggedKeepsWords(ts);
    EndsOtherwiseIsNoQuestion(text);
  }

  /** Trailing whitespace is stripped before the question check. */
  lemma SpacedQuestion(ts: seq<Token>)
    ensures Label("what ? ", ts) == Some(Question)
    ensures Label("Is this real?", ts) == Some(Question)
  {
    MarkMakesQuestion("what ? ", 5);
    MarkMakesQuestion("Is this real?", 12);
  }
}
