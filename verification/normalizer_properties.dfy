/** Properties of the normaliser as a whole: how many tokens it produces,
    and that its output is a fixed point of its own pipeline. */
module NormalizerProperties {
  import opened Common
  import opened Text
  import opened Normalizer

  /** Every normalised token comes from one run of word characters of the
      lower-cased, prepared text that is not a stopword: the count of tokens
      is the number of runs minus the number of stopword runs. */
  lemma TokenCountIsRunCount(stem: Stemmer, text: string)
    ensures var prepared := Lower(StripPossessive(DropDashesDots(text)));
      |Normalize(stem, text)| == RunStarts(prepared, false) - CountIn(Words(prepared), Stopwords)
  {
    var prepared := Lower(StripPossessive(DropDashesDots(text)));
    WordsCountRuns(prepared);
    WithoutLength(Words(prepared), Stopwords);
  }

  /** Joined terms pass steps 1 and 2 untouched. */
  lemma JoinedTermsArePrepared(ts: seq<Token>)
    requires forall k :: 0 <= k < |ts| ==> IsTerm(ts[k])
    ensures StripPossessive(DropDashesDots(JoinSpaced(ts))) == JoinSpaced(ts)
  {
    var j := JoinSpaced(ts);
    JoinSpacedChars(ts);
    SpacedWordsArePrepared(j);
  }

  /** Text made of spaces and word characters has no dash, dot or apostrophe,
      so steps 1 and 2 leave it alone. */
  lemma SpacedWordsArePrepared(j: string)
    requires forall i :: 0 <= i < |j| ==> j[i] == ' ' || IsWordChar(j[i])
    ensures StripPossessive(DropDashesDots(j)) == j
  {
    WithoutNothing(j, {'-', '.'});
    assert DropDashesDots(j) == j;
    assert forall i :: 0 <= i < |j| ==> j[i] != '\'';
  }

  lemma JoinedTermsAreLowerCase(ts: seq<Token>)
    requires forall k :: 0 <= k < |ts| ==> IsTerm(ts[k])
    ensures Lower(JoinSpaced(ts)) == JoinSpaced(ts)
  {
    JoinSpacedChars(ts);
    LowerKeepsLowerCase(JoinSpaced(ts));
  }

  lemma JoinedTermsSplitBack(ts: seq<Token>)
    requires forall k :: 0 <= k < |ts| ==> IsTerm(ts[k])
    ensures Words(JoinSpaced(ts)) == ts
  {
    WordsOfJoinSpaced(ts);
  }

  lemma TermsHaveNoStopword(ts: seq<Token>)
    requires forall k :: 0 <= k < |ts| ==> IsTerm(ts[k])
    ensures RemoveStopwords(ts) == ts
  {
    WithoutNothing(ts, Stopwords);
  }

  /** Joined terms pass steps 3 to 5 untouched. */
  lemma TermsOfJoinedTerms(ts: seq<Token>)
    requires forall k :: 0 <= k < |ts| ==> IsTerm(ts[k])
    ensures Terms(JoinSpaced(ts)) == ts
  {
    JoinedTermsAreLowerCase(ts);
    JoinedTermsSplitBack(ts);
    TermsHaveNoStopword(ts);
  }

  /** Normalising the already normalised text once more, with its terms
      joined by spaces, gives the same terms again (before stemming). */
  lemma PreStemIdempotent(text: string)
    ensures PreStem(JoinSpaced(PreStem(text))) == PreStem(text)
  {
    var ts := PreStem(text);
    JoinedTermsArePrepared(ts);
    TermsOfJoinedTerms(ts);
  }

  /** Feeding the normaliser its own terms, joined by spaces, yields the
      same stemmed tokens: a query typed as the normalised form of a text
      searches for exactly what the text itself would. */
  lemma NormalizeIsStable(stem: Stemmer, text: string)
    ensures Normalize(stem, JoinSpaced(PreStem(text))) == Normalize(stem, text)
  {
    PreStemIdempotent(text);
  }
}
