/** The rules layer of the sentence classifier: it labels a span of text as
    a question, a sentence fragment or neither, from the raw text and the
    tokens an external parser produced for it. The parser is not modelled;
    its output is a parameter. */
module Grammar {
  import opened Text

  /** One parsed token: its surface text, part-of-speech tag, dependency
      relation, and its syntactic children as indices into the token
      sequence of the same parse. */
  datatype Token = Token(text: string, pos: string, dep: string, children: seq<nat>)

  datatype Option<T> = None | Some(value: T)

  /** The labels of non-informative text: "QUESTION" and "FRAGMENT". */
  datatype SentenceLabel = Question | Fragment

  const NounTags: set<string> := {"NOUN", "PROPN"}
  const SubjectRelations: set<string> := {"nsubj", "nsubjpass"}
  const ActionTags: set<string> := {"ADV", "AUX", "VERB"}
  const GoverningRelations: set<string> := {"appos", "ROOT"}
  const UncountedTags: set<string> := {"PUNCT", "SPACE", "SYM"}
  /** The fewest counted words a valid sentence has. */
  const MinWords := 5
  /** The lower-cased surface text the parser mistags as a number. */
  const VirusName := "2019-ncov"

  // ---------------------------------------------------------------------
  // applyRules

  /** The custom rule fires on a token tagged NUM whose text is "2019-nCoV"
      in any case. */
  predicate NeedsRetag(t: Token) {
    t.pos == "NUM" && Lower(t.text) == VirusName
  }

  /** The token the custom rule leaves in place of `t`: same text, relation
      and children, and nothing left for the rule to fix. */
  function Retag(t: Token): (r: Token)
    ensures r.text == t.text && r.dep == t.dep && r.children == t.children
    ensures !NeedsRetag(r)
  {
    if NeedsRetag(t) then t.(pos := "NOUN") else t
  }

  /** The token sequence after the rules pass: as long as before, with no
      token left for the rule to fix. */
  function Retagged(ts: seq<Token>): (r: seq<Token>)
    ensures |r| == |ts|
    ensures forall i :: 0 <= i < |r| ==> !NeedsRetag(r[i])
  {
    seq(|ts|, i requires 0 <= i < |ts| => Retag(ts[i]))
  }

  /** The rules pass keeps every token's text, dependency relation and
      children and its position; it changes a tag only from NUM to NOUN for
      the token "2019-nCoV", and always does so for that token. */
  lemma RetaggedOnlyFixesVirusName(ts: seq<Token>)
    ensures |Retagged(ts)| == |ts|
    ensures forall i :: 0 <= i < |ts| ==>
              var r := Retagged(ts)[i];
              r.text == ts[i].text && r.dep == ts[i].dep && r.children == ts[i].children
    ensures forall i :: 0 <= i < |ts| ==>
              (Retagged(ts)[i].pos != ts[i].pos <==> NeedsRetag(ts[i]))
    ensures forall i :: 0 <= i < |ts| && NeedsRetag(ts[i]) ==> Retagged(ts)[i].pos == "NOUN"
    ensures forall i :: 0 <= i < |ts| && !NeedsRetag(ts[i]) ==> Retagged(ts)[i] == ts[i]
  {
  }

  /** After the rules pass no token is left for the rule to fire on, so a
      second pass changes nothing. */
  lemma RetaggedIdempotent(ts: seq<Token>)
    ensures forall i :: 0 <= i < |Retagged(ts)| ==> !NeedsRetag(Retagged(ts)[i])
    ensures Retagged(Retagged(ts)) == Retagged(ts)
  {
  }

  /** `applyRules`: overrides, in place, the tag of every NUM token spelled
      "2019-nCoV" to NOUN, and hands back the same token list. */
  method ApplyRules(tokens: array<Token>) returns (r: array<Token>)
    modifies tokens
    ensures r == tokens
    ensures tokens[..] == Retagged(old(tokens[..]))
  {
    for i := 0 to tokens.Length
      invariant forall j :: 0 <= j < i ==> tokens[j] == Retag(old(tokens[j]))
      invariant forall j :: i <= j < tokens.Length ==> tokens[j] == old(tokens[j])
    {
      if tokens[i].pos == "NUM" && Lower(tokens[i].text) == VirusName {
        tokens[i] := tokens[i].(pos := "NOUN");
      }
    }
    assert forall j :: 0 <= j < tokens.Length ==> tokens[..][j] == Retagged(old(tokens[..]))[j];
    r := tokens;
  }

  // ---------------------------------------------------------------------
  // isQuestion

  /** `isQuestion`: the stripped text ends in a question mark; so a
      question contains a '?', and blank text is none. */
  predicate IsQuestion(text: string)
    ensures IsQuestion(text) ==> '?' in text
    ensures AllSpace(text) ==> !IsQuestion(text)
  {
    var r := Strip(text);
    r != [] && r[|r| - 1] == '?'
  }

  /** The check is Python's `text.strip().endswith("?")`. */
  lemma IsQuestionIsEndsWith(text: string)
    ensures IsQuestion(text) <==> EndsWith(Strip(text), "?")
  {
    var r := Strip(text);
    if r != [] {
      assert r[|r| - 1..] == [r[|r| - 1]];
    }
  }

  /** Nothing but whitespace follows index `k` of `text`. */
  predicate SpaceAfter(text: string, k: nat) {
    forall j :: k < j < |text| ==> IsSpace(text[j])
  }

  /** The reference reading of a question: some '?' in the text is followed
      by nothing but whitespace. */
  ghost predicate LastNonSpaceIsQuestionMark(text: string) {
    exists k :: 0 <= k < |text| && text[k] == '?' && SpaceAfter(text, k)
  }

  lemma {:induction false} IsQuestionIff(text: string)
    ensures IsQuestion(text) <==> LastNonSpaceIsQuestionMark(text)
  {
    if IsQuestion(text) {
      QuestionEndsInMark(text);
    }
    if k :| 0 <= k < |text| && text[k] == '?' && SpaceAfter(text, k) {
      MarkMakesQuestion(text, k);
    }
  }

  lemma QuestionEndsInMark(text: string)
    requires IsQuestion(text)
    ensures LastNonSpaceIsQuestionMark(text)
  {
    var e := StripLast(text);
    assert text[e] == '?' && SpaceAfter(text, e);
  }

  lemma MarkMakesQuestion(text: string, k: nat)
    requires k < |text| && text[k] == '?' && SpaceAfter(text, k)
    ensures IsQuestion(text)
  {
    StripEndsAt(text, k);
  }

  /** Leading and trailing whitespace do not change whether text is a
      question. */
  lemma IsQuestionIgnoresPadding(lead: string, text: string, trail: string)
    requires AllSpace(lead) && AllSpace(trail)
    ensures IsQuestion(lead + text + trail) <==> IsQuestion(text)
  {
    if IsQuestion(text) {
      PaddedMark(lead, text, trail);
    }
    if IsQuestion(lead + text + trail) {
      UnpaddedMark(lead, text, trail);
    }
  }

  lemma PaddedMark(lead: string, text: string, trail: string)
    requires AllSpace(lead) && AllSpace(trail) && IsQuestion(text)
    ensures IsQuestion(lead + text + trail)
  {
    QuestionEndsInMark(text);
    var k :| 0 <= k < |text| && text[k] == '?' && SpaceAfter(text, k);
    var p := lead + text + trail;
    var j := |lead| + k;
    assert p[j] == text[k];
    forall i | j < i < |p| ensures IsSpace(p[i]) {
      if i < |lead| + |text| {
        assert p[i] == text[i - |lead|];
      } else {
        assert p[i] == trail[i - |lead| - |text|];
      }
    }
    MarkMakesQuestion(p, j);
  }

  lemma UnpaddedMark(lead: string, text: string, trail: string)
    requires AllSpace(lead) && AllSpace(trail) && IsQuestion(lead + text + trail)
    ensures IsQuestion(text)
  {
    var p := lead + text + trail;
    QuestionEndsInMark(p);
    var j :| 0 <= j < |p| && p[j] == '?' && SpaceAfter(p, j);
    MarkInsidePadding(lead, text, trail, j);
    var k := j - |lead|;
    forall i | k < i < |text| ensures IsSpace(text[i]) {
      assert text[i] == p[i + |lead|];
    }
    MarkMakesQuestion(text, k);
  }

  /** A non-space character of a padded text lies in the text itself. */
  lemma MarkInsidePadding(lead: string, text: string, trail: string, j: nat)
    requires AllSpace(lead) && AllSpace(trail)
    requires j < |lead + text + trail| && !IsSpace((lead + text + trail)[j])
    ensures |lead| <= j < |lead| + |text| && (lead + text + trail)[j] == text[j - |lead|]
  {
    var p := lead + text + trail;
    forall i | 0 <= i < |lead| ensures IsSpace(p[i]) {
      assert p[i] == lead[i];
    }
    forall i | |lead| + |text| <= i < |p| ensures IsSpace(p[i]) {
      assert p[i] == trail[i - |lead| - |text|];
    }
  }

  /** Text whose last character is neither whitespace nor '?' is no
      question. */
  lemma EndsOtherwiseIsNoQuestion(text: string)
    requires text != [] && !IsSpace(text[|text| - 1]) && text[|text| - 1] != '?'
    ensures !IsQuestion(text)
  {
    if IsQuestion(text) {
      QuestionEndsInMark(text);
    }
  }

  /** Empty and whitespace-only text is never a question. */
  lemma BlankIsNoQuestion(text: string)
    requires AllSpace(text)
    ensures !IsQuestion(text)
  {
  }

  // ---------------------------------------------------------------------
  // isFragment

  /** A noun or proper noun that is a nominal subject. */
  predicate IsNominalSubject(t: Token) {
    t.pos in NounTags && t.dep in SubjectRelations
  }

  predicate HasNominalSubject(ts: seq<Token>) {
    exists i :: 0 <= i < |ts| && IsNominalSubject(ts[i])
  }

  /** An adverb, auxiliary or verb. */
  predicate IsActionWord(t: Token) {
    t.pos in ActionTags
  }

  /** `t` has a child that is a nominal subject; indices outside `ts` name no
      token (a parse never produces them). */
  predicate GovernsSubject(ts: seq<Token>, t: Token) {
    exists c :: c in t.children && c < |ts| && ts[c].dep in SubjectRelations
  }

  /** A root or appositive word governing a nominal subject also counts as
      an action. */
  predicate IsActionRoot(ts: seq<Token>, t: Token) {
    t.dep in GoverningRelations && GovernsSubject(ts, t)
  }

  predicate HasAction(ts: seq<Token>) {
    (exists i :: 0 <= i < |ts| && IsActionWord(ts[i]))
    || (exists i :: 0 <= i < |ts| && IsActionRoot(ts, ts[i]))
  }

  /** A multi-character token that is not punctuation, space or a symbol. */
  predicate IsCountedWord(t: Token) {
    t.pos !in UncountedTags && |t.text| > 1
  }

  /** The texts of the counted words, in order. */
  function Words(ts: seq<Token>): (r: seq<string>)
    ensures |r| <= |ts|
    ensures forall i :: 0 <= i < |r| ==> |r[i]| > 1
  {
    if ts == [] then []
    else (if IsCountedWord(ts[0]) then [ts[0].text] else []) + Words(ts[1..])
  }

  /** `isFragment`: the tokens do not form a valid sentence, which has a
      nominal subject noun, an action and at least five counted words; so
      any one missing part makes a fragment. */
  predicate IsFragment(ts: seq<Token>)
    ensures |ts| < MinWords ==> IsFragment(ts)
  {
    !(HasNominalSubject(ts) && HasAction(ts) && |Words(ts)| >= MinWords)
  }

  /** Counting words distributes over concatenation of token sequences. */
  lemma {:induction false} WordsAppend(a: seq<Token>, b: seq<Token>)
    ensures Words(a + b) == Words(a) + Words(b)
  {
    if a == [] {
      assert a + b == b;
    } else {
      assert (a + b)[1..] == a[1..] + b;
      WordsAppend(a[1..], b);
    }
  }

  /** A sequence of uncounted tokens contributes no word. */
  lemma {:induction false} WordsOfUncounted(pad: seq<Token>)
    requires forall i :: 0 <= i < |pad| ==> !IsCountedWord(pad[i])
    ensures Words(pad) == []
  {
    if pad != [] {
      WordsOfUncounted(pad[1..]);
    }
  }

  /** Padding a sentence anywhere with single letters, punctuation, spaces
      or symbols leaves its word count as it was; so it cannot lift a span
      with fewer than five words out of being a fragment, whatever tags and
      relations the padding carries. */
  lemma PaddingKeepsFragment(a: seq<Token>, pad: seq<Token>, b: seq<Token>)
    requires forall i :: 0 <= i < |pad| ==> !IsCountedWord(pad[i])
    requires |Words(a + b)| < MinWords
    ensures Words(a + pad + b) == Words(a + b)
    ensures IsFragment(a + pad + b)
  {
    PaddingKeepsWords(a, pad, b);
  }

  lemma PaddingKeepsWords(a: seq<Token>, pad: seq<Token>, b: seq<Token>)
    requires forall i :: 0 <= i < |pad| ==> !IsCountedWord(pad[i])
    ensures Words(a + pad + b) == Words(a + b)
  {
    WordsOfUncounted(pad);
    calc {
      Words(a + pad + b);
      { WordsAppend(a + pad, b); }
      Words(a + pad) + Words(b);
      { WordsAppend(a, pad); }
      Words(a) + [] + Words(b);
      { WordsAppend(a, b); }
      Words(a + b);
    }
  }

  /** Appending tokens never turns a valid sentence into a fragment: its
      subject, its action (children keep their indices) and its words stay,
      and the word count can only grow. */
  lemma ValidSentenceExtends(ts: seq<Token>, us: seq<Token>)
    requires !IsFragment(ts)
    ensures !IsFragment(ts + us)
  {
    var p := ts + us;
    WordsAppend(ts, us);
    var i :| 0 <= i < |ts| && IsNominalSubject(ts[i]);
    assert IsNominalSubject(p[i]);
    if exists k :: 0 <= k < |ts| && IsActionWord(ts[k]) {
      var k :| 0 <= k < |ts| && IsActionWord(ts[k]);
      assert IsActionWord(p[k]);
    } else {
      var k :| 0 <= k < |ts| && IsActionRoot(ts, ts[k]);
      var c :| c in ts[k].children && c < |ts| && ts[c].dep in SubjectRelations;
      assert p[k] == ts[k] && p[c] == ts[c];
      assert IsActionRoot(p, p[k]);
    }
  }

  /** Dropping the first token of a retagged sequence is retagging the rest. */
  lemma RetaggedTail(ts: seq<Token>)
    requires ts != []
    ensures Retagged(ts)[1..] == Retagged(ts[1..])
    ensures Retagged(ts)[0] == Retag(ts[0])
  {
  }

  /** The rules pass leaves the counted words as they were: NUM and NOUN
      are both counted tags. */
  lemma {:induction false} RetaggedKeepsWords(ts: seq<Token>)
    ensures Words(Retagged(ts)) == Words(ts)
  {
    if ts != [] {
      RetaggedTail(ts);
      RetaggedKeepsWords(ts[1..]);
    }
  }

  /** Retagging one token keeps its relation and children, and whether it
      is an action word or a counted word. */
  lemma RetagKeepsRoles(t: Token)
    ensures Retag(t).dep == t.dep && Retag(t).children == t.children
    ensures IsActionWord(Retag(t)) == IsActionWord(t)
    ensures IsCountedWord(Retag(t)) == IsCountedWord(t)
    ensures IsNominalSubject(t) ==> IsNominalSubject(Retag(t))
  {
  }

  /** The rules pass leaves the actions as they were: NUM and NOUN are not
      action tags, and relations and children do not change. */
  lemma RetaggedKeepsAction(ts: seq<Token>)
    ensures HasAction(Retagged(ts)) == HasAction(ts)
  {
    var r := Retagged(ts);
    forall i | 0 <= i < |ts|
      ensures r[i] == Retag(ts[i]) && r[i].dep == ts[i].dep
      ensures IsActionWord(r[i]) == IsActionWord(ts[i])
      ensures r[i].children == ts[i].children
    {
      RetagKeepsRoles(ts[i]);
    }
    forall i | 0 <= i < |ts| ensures IsActionRoot(r, r[i]) == IsActionRoot(ts, ts[i]) {
      assert GovernsSubject(r, r[i]) == GovernsSubject(ts, ts[i]) by {
        if GovernsSubject(r, r[i]) {
          var c :| c in r[i].children && c < |r| && r[c].dep in SubjectRelations;
          assert ts[c].dep == r[c].dep;
        }
        if GovernsSubject(ts, ts[i]) {
          var c :| c in ts[i].children && c < |ts| && ts[c].dep in SubjectRelations;
          assert ts[c].dep == r[c].dep;
        }
      }
    }
  }

  /** The rules pass can only remove a fragment: it keeps the words and
      actions, keeps every nominal subject and may add one (the corrected
      "2019-nCoV"); so it can turn a fragment into a valid sentence, never
      the reverse. */
  lemma RetaggedOnlyClearsFragment(ts: seq<Token>)
    ensures HasNominalSubject(ts) ==> HasNominalSubject(Retagged(ts))
    ensures IsFragment(Retagged(ts)) ==> IsFragment(ts)
  {
    RetaggedKeepsWords(ts);
    RetaggedKeepsAction(ts);
    if HasNominalSubject(ts) {
      var i :| 0 <= i < |ts| && IsNominalSubject(ts[i]);
      assert IsNominalSubject(Retagged(ts)[i]);
    }
  }

  // ---------------------------------------------------------------------
  // label

  /** `label`: no label for empty text, without looking at the tokens;
      otherwise a question if the text is one, else a fragment if the tokens
      after the rules pass are one, else no label. */
  function Label(text: string, tokens: seq<Token>): (r: Option<SentenceLabel>)
    ensures text == [] ==> r == None
    ensures r == Some(Question) <==> IsQuestion(text)
    ensures r == Some(Fragment) <==>
            text != [] && !IsQuestion(text) && IsFragment(Retagged(tokens))
    ensures r == None <==>
            text == [] || (!IsQuestion(text) && !IsFragment(Retagged(tokens)))
  {
    if text == [] then None
    else if IsQuestion(text) then Some(Question)
    else if IsFragment(Retagged(tokens)) then Some(Fragment)
    else None
  }

  /** `label` with the rules pass run in place on the parser's tokens, as the
      source does: the tokens are corrected only for non-empty text. */
  method LabelInPlace(text: string, tokens: array<Token>) returns (result: Option<SentenceLabel>)
    modifies tokens
    ensures result == Label(text, old(tokens[..]))
    ensures tokens[..] == if text == [] then old(tokens[..]) else Retagged(old(tokens[..]))
  {
    result := None;
    if text != [] {
      var corrected := ApplyRules(tokens);
      if IsQuestion(text) {
        result := Some(Question);
      } else if IsFragment(corrected[..]) {
        result := Some(Fragment);
      }
    }
  }

  /** A question is labelled from the text alone, whatever the tokens. */
  lemma QuestionIgnoresTokens(text: string, ts: seq<Token>, us: seq<Token>)
    requires IsQuestion(text)
    ensures Label(text, ts) == Label(text, us) == Some(Question)
  {
  }

  /** Padding a question with whitespace keeps it a question. */
  lemma PaddedQuestionStaysQuestion(lead: string, text: string, trail: string, ts: seq<Token>)
    requires AllSpace(lead) && AllSpace(trail)
    ensures Label(lead + text + trail, ts) == Some(Question) <==> Label(text, ts) == Some(Question)
  {
    IsQuestionIgnoresPadding(lead, text, trail);
  }

  /** Labelling tokens that were already corrected gives the same label,
      so labelling twice never disagrees. */
  lemma LabelStableUnderRules(text: string, ts: seq<Token>)
    ensures Label(text, Retagged(ts)) == Label(text, ts)
  {
    RetaggedIdempotent(ts);
  }

  /** The rules pass can only remove a FRAGMENT label: if the uncorrected
      tokens already form a valid sentence, so do the corrected ones. */
  lemma RulesNeverCreateFragment(text: string, ts: seq<Token>)
    requires text != [] && !IsQuestion(text) && !IsFragment(ts)
    ensures Label(text, ts) == None
  {
    RetaggedOnlyClearsFragment(ts);
  }

  /** A non-question span of fewer than five counted words is labelled
      FRAGMENT however it is padded with single letters, punctuation,
      spaces or symbols. */
  lemma PaddedShortSpanIsFragment(text: string, a: seq<Token>, pad: seq<Token>, b: seq<Token>)
    requires text != [] && !IsQuestion(text)
    requires forall i :: 0 <= i < |pad| ==> !IsCountedWord(pad[i])
    requires |Words(a + b)| < MinWords
    ensures Label(text, a + pad + b) == Some(Fragment)
  {
    PaddingKeepsWords(a, pad, b);
    RetaggedKeepsWords(a + pad + b);
  }
}
