# Boolean retrieval over positional and inverted indexes

A Dafny model of the indexing and retrieval core of `Ir.py`, a small
information-retrieval program. Documents are normalised into token
streams; two indexes are built from them (token to set of document ids,
token to ordered `(doc_id, position)` postings); queries either look up a
single word or are boolean queries whose groups, separated by the whole
words `and`, `or` and `not`, are combined strictly from left to right.

Modules, in dependency order:

- `Common`: filtering a sequence, subsequences.
- `Text`: word characters, ASCII lower-casing, trimming, the maximal runs
  of word characters (`\w+`), joining words with spaces.
- `Normalizer`: the stopword list and `remove_stopwords`, the deletion of
  dashes, dots and possessives, and the whole token pipeline with the
  stemmer as a parameter.
- `NormalizerProperties`: token counts and the fixed point of the pipeline.
- `Indexes`: documents, both index builders, a reference definition of
  every positional entry, and the lemmas relating the indexes to the
  documents and to each other.
- `Query`: whole-word operator recognition, the split of a query into
  groups and operators, and `process_query`.
- `BooleanFold`: one fold step, the fold, and its equivalence with a
  left-associated expression tree.
- `PositionMaps`: the `doc -> token -> positions` map the evaluator
  fills while it scans the groups.
- `Retrieval`: `boolean_retrieval_with_positions` and
  `search_with_positions`, and what they return for an index built from a
  corpus.

The index builders in `Ir.py` call the tokenizer directly; the model
turns that call into a parameter (`Tokenizer`), filled by `Indexes.Analyzer(stem)`, which is
`Normalizer.Normalize` with the stemmer fixed. Documents are a sequence of
`Document(id, text)` in dictionary order; where the result depends on ids
being dictionary keys, the lemma requires `DistinctIds`. A boolean query is
lower-cased before its groups are normalised, so `'S` in a query is
deleted as a possessive while in a document it is not; the model keeps
this, as it keeps the repetition of positions for a token that occurs in
several groups and the positions recorded for tokens of NOT groups.

## Model

| member | source | states |
|---|---|---|
| `Normalizer.RemoveStopwords` | Ir.py:22-24 | No stopword survives, every survivor comes from the input, and every non-stopword keeps its number of occurrences. |
| `Normalizer.RemoveStopwordsIsSubsequence` | Ir.py:24 | The survivors keep their relative order. |
| `Normalizer.DropDashesDots` | Ir.py:30 | No `-` or `.` is left and every other character keeps its number of occurrences. |
| `Normalizer.DropDashesDotsIsSubsequence` | Ir.py:30 | Only deletions happen. |
| `Normalizer.StripPossessive` | Ir.py:31 | Only apostrophes and `s` are removed, the text never grows, and a text without an apostrophe is unchanged. |
| `Normalizer.StripPossessiveDeletesMatches` | Ir.py:31 | The result is, in order, exactly the characters that belong to no `'s` followed by a word boundary; every other character is kept. |
| `Normalizer.CapitalPossessiveKept` | Ir.py:31 | The pattern is case-sensitive: `'S` is left in place. |
| `Normalizer.BoundaryDecides` | Ir.py:31 | An `'s` followed by a word character stays: `'sa's` becomes `'sa`. |
| `Normalizer.StripPossessiveIsSubsequence` | Ir.py:31 | The result is a subsequence of the input. |
| `Normalizer.StripPossessiveLeavesNone` | Ir.py:31 | No `'s` at a word boundary remains after the deletion. |
| `Normalizer.StripPossessiveIdempotent` | Ir.py:31 | Deleting possessives a second time changes nothing. |
| `Text.Lower` | Ir.py:33 | Same length, exactly the upper-case letters change, each to the lower-case letter at the same place in the alphabet, and word characters stay word characters. |
| `Text.Words` | Ir.py:33 | Every run found is non-empty and made only of word characters. |
| `Text.WordsAreNonEmptyPieces` | Ir.py:33 | The runs are exactly the non-empty pieces left when the text is cut at every non-word character. |
| `Text.WordsCountRuns` | Ir.py:33 | There are as many runs as places where a run of word characters starts. |
| `Text.Strip` | Ir.py:109 | The result is a window of the input with only whitespace cut on either side, and it neither starts nor ends with whitespace. |
| `Normalizer.Terms` | Ir.py:33-36 | Every token is a non-empty, lower-case word that is not a stopword. |
| `Normalizer.PreStem` | Ir.py:28-36 | Every token before stemming is a non-empty, lower-case word that is not a stopword. |
| `NormalizerProperties.TokenCountIsRunCount` | Ir.py:30-39 | The number of tokens is the number of runs of word characters in the prepared text less the stopword runs. |
| `NormalizerProperties.TermsOfJoinedTerms` | Ir.py:33-36 | Joining terms with spaces and tokenizing again gives back the same terms. |
| `NormalizerProperties.PreStemIdempotent` | Ir.py:28-36 | The unstemmed pipeline applied to its own joined output changes nothing. |
| `NormalizerProperties.NormalizeIsStable` | Ir.py:28-39 | Normalising the unstemmed terms of a text, joined by spaces, gives the same stemmed tokens as normalising the text. |
| `Indexes.AddToInverted` | Ir.py:50-51 | After one document, a token's set holds the document exactly when the token is among its tokens, and nothing else changes. |
| `Indexes.InvertedIndexMembership` | Ir.py:46-52 | `d` is in the entry of `t` exactly when some document with id `d` has `t` among its tokens; no entry is empty. |
| `Indexes.AddToPositional` | Ir.py:58-59 | One document appends, under each token, the postings of its occurrences from the current position on, and adds exactly the document's tokens as keys. |
| `Indexes.OccurrencesMembership` | Ir.py:58-59 | A document's postings for a token are exactly the positions holding that token. |
| `Indexes.OccurrencesIncrease` | Ir.py:58-59 | A document's postings for a token have strictly increasing positions. |
| `Indexes.PositionalIsPostingsOf` | Ir.py:54-60 | Every entry equals the independent per-token definition, and no entry is empty. |
| `Indexes.PostingsOfMembership` | Ir.py:54-60 | `(d, p)` is listed under `t` exactly when a document with id `d` holds `t` at position `p`. |
| `Indexes.PositionalIndexContent` | Ir.py:54-60 | For a document of the corpus, `(d, p)` is under `t` exactly when its token stream holds `t` at `p`. |
| `Indexes.PositionalIndexDocs` | Ir.py:56-59 | Every posting names a document of the corpus. |
| `Indexes.PostingsOfInCorpusOrder` | Ir.py:55-59 | The reference entries are grouped by document in corpus order with increasing positions. |
| `Indexes.PositionalIndexOrder` | Ir.py:55-59 | Every entry is grouped by document in corpus order, positions strictly increasing within a document. |
| `Indexes.PositionsCoverDocument` | Ir.py:57-59 | A document's positions over all tokens are exactly `0 .. N-1`, N the length of its token stream. |
| `Indexes.EntriesHaveNoDuplicates` | Ir.py:55-59 | No entry lists the same posting twice. |
| `Indexes.IndexesAgree` | Ir.py:46-60 | Both indexes have the same tokens, and `d` is in a token's inverted entry exactly when some posting of `d` is in its positional entry. |
| `Query.OperatorAt` | Ir.py:108 | A recognised operator is its keyword spelled at that place as a whole word. |
| `Query.OperatorAtUnique` | Ir.py:108 | An operator is recognised exactly where its keyword stands as a whole word. |
| `Query.SplitRoundTrip` | Ir.py:108-125 | There is one more group than operators, and putting the operators back between the groups gives the query again. |
| `Query.SplitGroupsHaveNoOperator` | Ir.py:108 | The split cuts at every whole-word operator: no group still holds one that a search would find. |
| `Query.SplitCutsAreOperators` | Ir.py:108-125 | The split cuts only at whole-word operators: the k-th operator found stands, as that operator and as a whole word, exactly where the round trip puts it, after the first k+1 groups and k operators. |
| `Query.CutsHoldOperators` | Ir.py:125 | The k-th position at which the operator scan matches lies inside the query and holds the k-th operator listed, as a whole word. |
| `Query.CutsAreOffsets` | Ir.py:108-125 | The k-th match position of the operator scan is where the split closed its k-th group: the lengths of the groups and operators before it add up to it. |
| `Query.SearchFrom` | Ir.py:170 | The search succeeds exactly when a whole-word operator starts somewhere in the rest of the text. |
| `Query.IsBooleanQuery` | Ir.py:163-173 | A query is boolean exactly when its trimmed, lower-cased text has a whole-word operator somewhere. |
| `Query.StripKeepsOperators` | Ir.py:167-170 | Trimming whitespace neither creates nor removes an operator. |
| `Query.ClassifierAgreesWithSplit` | Ir.py:163-173 | A query is boolean exactly when the evaluator finds an operator in it, that is, splits it into more than one group. |
| `BooleanFold.Apply` | Ir.py:128-134 | AND keeps what is in both sets, OR what is in either, NOT what is in the left set and not in the right. |
| `BooleanFold.UnionAll` | Ir.py:126-134 | The union holds every set and nothing else. |
| `BooleanFold.Fold` | Ir.py:126-134 | The fold never yields a document outside its start and its sets. |
| `BooleanFold.Combine` | Ir.py:126-134 | The result is within the union of all group sets. |
| `BooleanFold.FoldSnoc` | Ir.py:128-134 | One more operator and set apply after all earlier ones. |
| `BooleanFold.CombineIsLeftAssociative` | Ir.py:126-134 | The fold equals the query read as a left-associated expression tree, with no precedence between operators. |
| `BooleanFold.AllOrIsUnion` | Ir.py:130-131 | A query with only OR returns the union of all groups. |
| `BooleanFold.AllAndIsIntersection` | Ir.py:128-129 | A query with only AND returns exactly the documents found in every group. |
| `PositionMaps.Append` | Ir.py:121 | One position is appended to one list, creating it if needed; every other list stays as it was. |
| `PositionMaps.RecordContent` | Ir.py:115-121 | Each list grows by exactly the positions of its document's hits under its token, in scan order. |
| `PositionMaps.RecordKeys` | Ir.py:115-121 | A document has an entry exactly when it had one or one of the scanned postings names it. |
| `PositionMaps.SelectHits` | Ir.py:115-121 | The positions recorded for `d` and `u` are `u`'s positions in `d`, repeated once per occurrence of `u` in the scanned tokens. |
| `PositionMaps.GroupDocsMembership` | Ir.py:115-122 | A group's set holds a document exactly when it is listed under one of the group's tokens. |
| `PositionMaps.CountPositive` | Ir.py:115-121 | A token is scanned at least once exactly when it is in the token list. |
| `Retrieval.GroupTokens` | Ir.py:106-110 | Normalising the groups gives one more token list than there are operators, so `zip` pairs every operator. |
| `Retrieval.BooleanRetrieval` | Ir.py:101-143 | Positions are only reported for returned documents, and no reported list is empty. |
| `Retrieval.RetrievalIsLeftAssociated` | Ir.py:124-134 | The result set is the left-associated expression over the groups' sets. |
| `Retrieval.GroupSetsMembership` | Ir.py:113-122 | A group's set holds exactly the documents listed under one of its tokens. |
| `Retrieval.ResultIsListed` | Ir.py:113-134 | Every returned document is listed under some token of the query. |
| `Retrieval.PositionKeysAreResult` | Ir.py:137-141 | The returned position map has an entry for exactly the documents of the result set. |
| `Retrieval.RecordedPositions` | Ir.py:113-141 | For a returned document, a token's reported positions are its listed positions in that document, once for each time the token occurs in the query, NOT groups included. |
| `Retrieval.RecordedPositionsMembership` | Ir.py:114-141 | A position is reported for a returned document and a token exactly when the token is in the query and `(d, p)` is listed under it. |
| `Retrieval.ResultInCorpus` | Ir.py:101-134 | Over an index built from a corpus, only documents of the corpus are returned. |
| `Retrieval.ReportedPositionsAreOccurrences` | Ir.py:114-141 | Over an index built from a corpus, a reported position is exactly one at which the document's token stream holds a token of the query. |
| `Retrieval.GroupSetsFromInverted` | Ir.py:113-120 | A group's set is the union of the inverted-index entries of its tokens. |
| `Retrieval.SearchWithPositions` | Ir.py:74-83 | The lookup fails with no term exactly when the word normalises to nothing; otherwise it reports the entry of the first token, or that the token is absent. |
| `Retrieval.SearchOverCorpus` | Ir.py:74-83 | Over a corpus's index, a found word lists exactly the places where its term occurs, at least one, in corpus order; a word not found occurs nowhere. |

## Left out

- Reading documents from a folder (`read_files_from_folder`): file I/O. The corpus is a parameter; distinct ids are a precondition where they matter.
- The module-level globals, the hard-coded folder path and the `__main__` input loop with its `exit` sentinel: I/O and program wiring. The indexes are passed explicitly.
- All printing: in `search_with_positions`, `display_results_with_positions` and `analyze_sentence`. The lookup returns a `Lookup` value instead of printing; `analyze_sentence` only prints index entries and is not modelled.
- NLTK's Porter stemmer: foreign code whose source is not part of this model. It is the parameter `stem`, and nothing is assumed or proved about its output.
- Python's Unicode `\w`, `str.lower` and `str.strip`: the model uses ASCII word characters (letters, digits, `_`), ASCII upper-case to lower-case, and the ASCII whitespace characters Python strips. Regular expressions are replaced by hand-written recognisers.
- The unused `total_docs` parameter and the hash-set order in which results are displayed: they do not affect the returned values.
- `search_with_positions` indexes the first token without a guard, so a word that normalises to nothing raises an error in `Ir.py`; the model returns `NoTerm` for it.
- `NormalizerProperties.PreStemIdempotent`: idempotence is proved for the pipeline before stemming only, since nothing is known about the stemmer.
