# Sentence classifier rules (cord19q `Grammar`)

This project models the rules layer of the `Grammar` sentence classifier of
cord19q. `Grammar.label(text)` marks a span of text as `"QUESTION"`,
`"FRAGMENT"` or `None`. It runs the text through a statistical parser, then
applies one correction rule to the parsed tokens (`applyRules`: the virus
name "2019-nCoV", which the parser tags as a number, is re-tagged as a noun).
It then asks two questions:

- `isQuestion`: does the stripped text end in `?`
- `isFragment`: do the tokens lack a nominal-subject noun, an action, or five
  counted words

The parser is not modelled. Its output is a parameter: a sequence of
`Token(text, pos, dep, children)`. Here `children` are indices into the same
sequence. No relation between the text and the tokens is assumed.

Files:

- `text.dfy`, module `Text`: the Python string built-ins the rules rely on.
  These are `str.strip()` (`Strip`, with the whitespace set of
  `str.isspace()`), `str.endswith` (`EndsWith`) and `str.lower()` (`Lower`,
  ASCII case folding).
- `grammar.dfy`, module `Grammar`: the four methods of the class.
  - `applyRules` is an in-place method `ApplyRules` over an `array<Token>`, specified by the function `Retagged`.
  - `isQuestion` is the predicate `IsQuestion`.
  - `isFragment` is the predicate `IsFragment`, built from `HasNominalSubject`, `HasAction` and `Words`.
  - `label` is the function `Label`. `LabelInPlace` does the same with the rules pass run in place on the parser's token array, as the source does.
- `grammar_examples.dfy`, module `GrammarExamples`: hand-built parses of
  example sentences, with the labels they get.

Part-of-speech tags and dependency relations stay strings, as in the source.
The closed sets the source tests against are constants: `NounTags`,
`SubjectRelations`, `ActionTags`, `GoverningRelations` and `UncountedTags`.
Labels are `Option<SentenceLabel>`, where `None` is Python's `None` and
`Question` and `Fragment` are the two label strings.

The retag alone does not clear every sentence that relies on "2019-nCoV"
as its subject. The four-word parse of "2019-nCoV causes severe pneumonia."
is still a FRAGMENT after the retag, because it has fewer than five counted
words (`NcovShortStaysFragment`). On the five-word "2019-nCoV causes severe
viral pneumonia." the retag turns a fragment into a valid sentence
(`NcovRetagClearsFragment`).

## Model

| member | source | states |
|---|---|---|
| `Text.Strip` | src/python/cord19q/grammar.py:78 | `strip()` yields a slice of the text with only whitespace removed before and after it, no whitespace left at either end, and it is empty exactly when the text is all whitespace |
| `Text.EndsWith` | src/python/cord19q/grammar.py:78 | defined as Python's `endswith`: the text ends with the suffix, character for character |
| `Text.LowerEqualsIff` | src/python/cord19q/grammar.py:61 | `lower() == t` (for a lower-case target) holds exactly when the text spells `t` in any mixture of cases |
| `Text.Lower` | src/python/cord19q/grammar.py:61 | defined as `lower()` restricted to ASCII: same length, each character folded by `LowerChar`, which leaves no upper-case ASCII letter |
| `Grammar.NeedsRetag` | src/python/cord19q/grammar.py:61 | defined as line 61's test: the tag is NUM and the lower-cased text is "2019-ncov" |
| `Grammar.Retag` | src/python/cord19q/grammar.py:61-62 | the token after the rule: text, relation and children kept, and the rule has nothing left to fix in it |
| `Grammar.Retagged` | src/python/cord19q/grammar.py:60-64 | the token list after the pass: as long as before, with no token left for the rule to fix |
| `Grammar.ApplyRules` | src/python/cord19q/grammar.py:48-64 | the in-place loop leaves the very list it was given, holding exactly `Retagged` of its old contents |
| `Grammar.RetaggedOnlyFixesVirusName` | src/python/cord19q/grammar.py:59-62 | the rule keeps length, text, dependency and children of every token; a tag changes exactly for NUM tokens spelled "2019-ncov" in any case, and becomes NOUN; every other token is unchanged |
| `Grammar.RetaggedIdempotent` | src/python/cord19q/grammar.py:60-62 | afterwards no token is a NUM "2019-ncov", so a second pass changes nothing |
| `Grammar.IsQuestion` | src/python/cord19q/grammar.py:66-78 | defined as the stripped text ending in `?`; a question contains a `?`, and whitespace-only text is none |
| `Grammar.IsQuestionIsEndsWith` | src/python/cord19q/grammar.py:78 | the question test is `text.strip().endswith("?")` |
| `Grammar.IsQuestionIff` | src/python/cord19q/grammar.py:77-78 | text is a question exactly when some `?` in it is followed by nothing but whitespace |
| `Grammar.IsQuestionIgnoresPadding` | src/python/cord19q/grammar.py:78 | leading and trailing whitespace do not change whether text is a question |
| `Grammar.BlankIsNoQuestion` | src/python/cord19q/grammar.py:78 | empty or whitespace-only text is no question |
| `Grammar.EndsOtherwiseIsNoQuestion` | src/python/cord19q/grammar.py:78 | text whose last character is neither whitespace nor `?` is no question |
| `Grammar.HasNominalSubject` | src/python/cord19q/grammar.py:92 | defined as line 92: some token has a tag in {NOUN, PROPN} and a relation in {nsubj, nsubjpass} |
| `Grammar.HasAction` | src/python/cord19q/grammar.py:95-98 | defined as lines 95 and 98: some token is ADV, AUX or VERB, or some appos/ROOT token has a child in {nsubj, nsubjpass} |
| `Grammar.IsCountedWord` | src/python/cord19q/grammar.py:101 | defined as line 101's filter: the tag is not PUNCT, SPACE or SYM and the text is longer than one character |
| `Grammar.Words` | src/python/cord19q/grammar.py:100-101 | the counted words are no more than the tokens, and each has more than one character |
| `Grammar.IsFragment` | src/python/cord19q/grammar.py:80-109 | defined as the source's `not (nouns and action and len(words) >= 5)`; a span of fewer than five tokens is always a fragment |
| `Grammar.ValidSentenceExtends` | src/python/cord19q/grammar.py:91-109 | appending tokens to a valid sentence leaves it valid: subject, action and words stay, and the count only grows |
| `Grammar.WordsAppend` | src/python/cord19q/grammar.py:101 | the counted words of two concatenated spans are those of the first followed by those of the second |
| `Grammar.WordsOfUncounted` | src/python/cord19q/grammar.py:100-101 | single-character, punctuation, space and symbol tokens contribute no word |
| `Grammar.PaddingKeepsWords` | src/python/cord19q/grammar.py:101 | inserting uncounted tokens anywhere leaves the counted words as they were |
| `Grammar.PaddingKeepsFragment` | src/python/cord19q/grammar.py:100-107 | a span with fewer than five counted words stays a fragment however it is padded with uncounted tokens, whatever their tags and relations |
| `Grammar.RetagKeepsRoles` | src/python/cord19q/grammar.py:61-62 | retagging a token keeps its relation, children and whether it is an action word or a counted word, and keeps a nominal subject one |
| `Grammar.RetaggedKeepsWords` | src/python/cord19q/grammar.py:101 | the rules pass does not change the counted words |
| `Grammar.RetaggedKeepsAction` | src/python/cord19q/grammar.py:95-98 | the rules pass does not change whether the span has an action |
| `Grammar.RetaggedOnlyClearsFragment` | src/python/cord19q/grammar.py:38-44 | the rules pass keeps every nominal subject, and a span that is a fragment after it was one before it: the retag can clear a fragment, never create one |
| `Grammar.Label` | src/python/cord19q/grammar.py:16-46 | no label for empty text; QUESTION exactly when the text is a question; FRAGMENT exactly when the text is non-empty, no question and the corrected tokens are a fragment; None otherwise |
| `Grammar.LabelInPlace` | src/python/cord19q/grammar.py:31-46 | with the rules pass run in place, the label is `Label` of the parser's tokens; the tokens are corrected for non-empty text and untouched for empty text |
| `Grammar.QuestionIgnoresTokens` | src/python/cord19q/grammar.py:41-42 | a question is labelled QUESTION whatever the tokens |
| `Grammar.PaddedQuestionStaysQuestion` | src/python/cord19q/grammar.py:41-42 | whitespace around a question does not change the QUESTION label |
| `Grammar.LabelStableUnderRules` | src/python/cord19q/grammar.py:38 | labelling tokens that were already corrected gives the same label |
| `Grammar.RulesNeverCreateFragment` | src/python/cord19q/grammar.py:38-44 | a non-question whose uncorrected tokens are a valid sentence gets no label |
| `Grammar.PaddedShortSpanIsFragment` | src/python/cord19q/grammar.py:38-44 | a non-empty non-question with fewer than five counted words is labelled FRAGMENT however it is padded with uncounted tokens |
| `GrammarExamples.VirusInfectsIsInformative` | src/python/cord19q/grammar.py:103-109 | "The virus infects human respiratory cells rapidly." with a subject, a verb and seven words gets no label |
| `GrammarExamples.FigureBelowIsFragment` | src/python/cord19q/grammar.py:103-109 | "Figure 3 below." (no subject, two counted words, the single-character "3" not counted) is a FRAGMENT |
| `GrammarExamples.NcovRetagClearsFragment` | src/python/cord19q/grammar.py:59-62 | in "2019-nCoV causes severe viral pneumonia." the parse is a fragment before the retag and valid after it, so the sentence gets no label |
| `GrammarExamples.NcovShortStaysFragment` | src/python/cord19q/grammar.py:107 | "2019-nCoV causes severe pneumonia." has four counted words and is a FRAGMENT even after the retag |
| `GrammarExamples.SpacedQuestion` | src/python/cord19q/grammar.py:78 | "what ? " and "Is this real?" are labelled QUESTION whatever the tokens |

## Left out

- Loading the parser (`spacy.load("en_core_sci_sm", disable=["ner"])`, line 14) and calling it (`self.nlp(text)`, line 35) are a foreign statistical model. Its output is the `tokens` parameter of `Label` and `LabelInPlace`, with no relation to the text assumed.
- `Text.Lower`: folds ASCII letters only, where Python's `str.lower()` folds all of Unicode. Only the comparison with "2019-ncov" uses it, and no non-ASCII character lower-cases to a character of that string, so the rule fires on the same texts.
- `Text.Strip`: removes the fixed character set of Python's `str.isspace()` (TAB to CR, FS to US, space, NEL, NO-BREAK SPACE, OGHAM SPACE MARK, U+2000 to U+200A, LINE and PARAGRAPH SEPARATOR, NARROW NO-BREAK SPACE, MEDIUM MATHEMATICAL SPACE, IDEOGRAPHIC SPACE). It is not read from a Unicode database.
- `Grammar.Label`: `if text:` also rejects Python's `None`. The model takes a string, so only the empty string is the falsy case.
- Object identity of spaCy `Token` objects: a token is a value, and its children are indices into the sequence. A child index outside the sequence names no token and is ignored; a parse never produces one.
- Exceptions raised by the parser propagate uncaught in the source. They are outside the model.
