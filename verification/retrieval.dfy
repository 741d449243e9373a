/** `boolean_retrieval_with_positions` and `search_with_positions` of `Ir.py`,
    run against a positional index. A query is lower-cased, cut at the whole
    words `and`, `or`, `not` into groups, each group stripped and normalised
    like a document; a group's documents are all documents listed under any
    of its tokens, and the operators fold those sets from left to right. */
module Retrieval {
  import opened Text
  import opened Normalizer
  import opened Indexes
  import opened Query
  import opened BooleanFold
  import opened PositionMaps

  /** The token list of every group, in query order: one more group than
      there are operators, so `zip` in the fold never drops anything. */
  function GroupTokens(stem: Stemmer, q: string): (groups: seq<seq<Token>>)
    ensures |groups| == |FindOperators(Lower(q))| + 1
  {
    var parts := SplitGroups(Lower(q));
    SplitRoundTrip(Lower(q));
    seq(|parts|, k requires 0 <= k < |parts| => Normalize(stem, Strip(parts[k])))
  }

  /** `doc_sets`: the documents of each group. */
  function GroupSets(pos: PositionalIndex, groups: seq<seq<Token>>): (sets: seq<set<DocId>>)
    ensures |sets| == |groups|
  {
    seq(|groups|, k requires 0 <= k < |groups| => GroupDocs(pos, groups[k]))
  }

  /** `term_positions` after the scan of every group's tokens. */
  function Scan(pos: PositionalIndex, groups: seq<seq<Token>>): (m: PositionMap)
    ensures NoEmptyEntry(m)
  {
    Record(map[], Hits(pos, Flatten(groups)))
  }

  /** The pair `(result_set, filtered_positions)`. */
  datatype Outcome = Outcome(docs: set<DocId>, positions: PositionMap)

  /** `boolean_retrieval_with_positions`: the folded result, and the recorded
      positions of the documents in it. */
  function BooleanRetrieval(stem: Stemmer, q: string, pos: PositionalIndex): (r: Outcome)
    ensures r.positions.Keys <= r.docs
    ensures NoEmptyEntry(r.positions)
  {
    var groups := GroupTokens(stem, q);
    var result := Combine(GroupSets(pos, groups), FindOperators(Lower(q)));
    var tp := Scan(pos, groups);
    Outcome(result, map d | d in tp && d in result :: tp[d])
  }

  // ---------------------------------------------------------------------
  // The result set

  /** The result is the query read as a left-associated expression over the
      groups' document sets: `g0 op0 g1 op1 g2` is `(g0 op0 g1) op1 g2`. */
  lemma RetrievalIsLeftAssociated(stem: Stemmer, q: string, pos: PositionalIndex)
    ensures var groups := GroupTokens(stem, q);
      BooleanRetrieval(stem, q, pos).docs
        == Eval(LeftAssociated(GroupSets(pos, groups), FindOperators(Lower(q))))
  {
    var groups := GroupTokens(stem, q);
    CombineIsLeftAssociative(GroupSets(pos, groups), FindOperators(Lower(q)));
  }

  /** A group's documents are those listed under one of its tokens. */
  lemma GroupSetsMembership(pos: PositionalIndex, groups: seq<seq<Token>>, k: nat, d: DocId)
    requires k < |groups|
    ensures d in GroupSets(pos, groups)[k] <==> exists u, p :: u in groups[k] && Posting(d, p) in Get(pos, u)
  {
    GroupDocsMembership(pos, groups[k], d);
  }

  /** Every returned document is listed under some token of the query. */
  lemma ResultIsListed(stem: Stemmer, q: string, pos: PositionalIndex, d: DocId)
    ensures d in BooleanRetrieval(stem, q, pos).docs
            ==> exists u, p :: u in Flatten(GroupTokens(stem, q)) && Posting(d, p) in Get(pos, u)
  {
    var groups := GroupTokens(stem, q);
    var sets := GroupSets(pos, groups);
    if d in BooleanRetrieval(stem, q, pos).docs {
      assert d in UnionAll(sets);
      var k :| 0 <= k < |sets| && d in sets[k];
      GroupSetsMembership(pos, groups, k, d);
      var u, p :| u in groups[k] && Posting(d, p) in Get(pos, u);
      FlattenMembership(groups, u);
    }
  }

  /** A document listed under a scanned token gets an entry in the scan. */
  lemma ListedIsScanned(pos: PositionalIndex, groups: seq<seq<Token>>, d: DocId, u: Token, p: nat)
    requires u in Flatten(groups) && Posting(d, p) in Get(pos, u)
    ensures d in Scan(pos, groups)
  {
    var hs := Hits(pos, Flatten(groups));
    HitsMembership(pos, Flatten(groups));
    assert Hit(u, Posting(d, p)) in hs;
    var k :| 0 <= k < |hs| && hs[k] == Hit(u, Posting(d, p));
    RecordKeys(map[], hs, d);
  }

  /** `filtered_positions` has an entry for exactly the returned documents. */
  lemma PositionKeysAreResult(stem: Stemmer, q: string, pos: PositionalIndex)
    ensures BooleanRetrieval(stem, q, pos).positions.Keys == BooleanRetrieval(stem, q, pos).docs
  {
    var r := BooleanRetrieval(stem, q, pos);
    var groups := GroupTokens(stem, q);
    forall d | d in r.docs
      ensures d in r.positions
    {
      ResultIsListed(stem, q, pos, d);
      var u, p :| u in Flatten(groups) && Posting(d, p) in Get(pos, u);
      ListedIsScanned(pos, groups, d, u, p);
    }
  }

  // ---------------------------------------------------------------------
  // The recorded positions

  /** What is reported for a returned document and a token: the token's
      positions in that document, in index order, once for every time the
      token occurs in the query's groups. NOT groups are scanned like the
      others, and a token repeated in the query has its positions repeated. */
  lemma RecordedPositions(stem: Stemmer, q: string, pos: PositionalIndex, d: DocId, u: Token)
    ensures d in BooleanRetrieval(stem, q, pos).docs
            ==> Recorded(BooleanRetrieval(stem, q, pos).positions, d, u)
                == Repeat(PositionsIn(Get(pos, u), d), CountGroups(GroupTokens(stem, q), u))
  {
    var groups := GroupTokens(stem, q);
    var hs := Hits(pos, Flatten(groups));
    PositionKeysAreResult(stem, q, pos);
    RecordContent(map[], hs, d, u);
    SelectHits(pos, Flatten(groups), d, u);
    CountFlatten(groups, u);
  }

  /** A reported position of a token is one at which the token is listed
      for that document, and every such position is reported for every token
      of the query. */
  lemma RecordedPositionsMembership(stem: Stemmer, q: string, pos: PositionalIndex, d: DocId, u: Token, p: nat)
    ensures d in BooleanRetrieval(stem, q, pos).docs
            ==> (p in Recorded(BooleanRetrieval(stem, q, pos).positions, d, u)
                 <==> u in Flatten(GroupTokens(stem, q)) && Posting(d, p) in Get(pos, u))
  {
    var groups := GroupTokens(stem, q);
    RecordedPositions(stem, q, pos, d, u);
    RepeatMembership(PositionsIn(Get(pos, u), d), CountGroups(groups, u), p);
    PositionsInMembership(Get(pos, u), d, p);
    CountFlatten(groups, u);
    CountPositive(Flatten(groups), u);
  }

  // ---------------------------------------------------------------------
  // Against the corpus the index was built from

  /** Only documents of the corpus are returned. */
  lemma ResultInCorpus(stem: Stemmer, q: string, docs: Corpus)
    ensures BooleanRetrieval(stem, q, BuildPositional(Analyzer(stem), docs)).docs <= Ids(docs)
  {
    var pos := BuildPositional(Analyzer(stem), docs);
    PositionalIndexDocs(Analyzer(stem), docs);
    forall d | d in BooleanRetrieval(stem, q, pos).docs
      ensures d in Ids(docs)
    {
      ResultIsListed(stem, q, pos, d);
      var u, p :| u in Flatten(GroupTokens(stem, q)) && Posting(d, p) in Get(pos, u);
    }
  }

  /** For a returned document, a position is reported under a token exactly
      when the token is in the query and the document's token stream holds
      it at that position. */
  lemma ReportedPositionsAreOccurrences(stem: Stemmer, q: string, docs: Corpus, i: nat, u: Token, p: nat)
    requires DistinctIds(docs) && i < |docs|
    ensures var r := BooleanRetrieval(stem, q, BuildPositional(Analyzer(stem), docs));
      docs[i].id in r.docs
      ==> (p in Recorded(r.positions, docs[i].id, u)
           <==> u in Flatten(GroupTokens(stem, q))
                && p < |TokensOf(Analyzer(stem), docs, i)| && TokensOf(Analyzer(stem), docs, i)[p] == u)
  {
    var pos := BuildPositional(Analyzer(stem), docs);
    RecordedPositionsMembership(stem, q, pos, docs[i].id, u, p);
    PositionalEntry(Analyzer(stem), docs, i, u, p);
  }

  /** A group's documents, read from the inverted index instead: the union
      of the inverted entries of its tokens. */
  lemma GroupSetsFromInverted(stem: Stemmer, docs: Corpus, groups: seq<seq<Token>>, k: nat, d: DocId)
    requires k < |groups|
    ensures var inv := BuildInverted(Analyzer(stem), docs);
      (d in GroupSets(BuildPositional(Analyzer(stem), docs), groups)[k]
       <==> exists u :: u in groups[k] && u in inv && d in inv[u])
  {
    var inv := BuildInverted(Analyzer(stem), docs);
    var pos := BuildPositional(Analyzer(stem), docs);
    GroupSetsMembership(pos, groups, k, d);
    IndexesAgree(Analyzer(stem), docs);
    if exists u, p :: u in groups[k] && Posting(d, p) in Get(pos, u) {
      var u, p :| u in groups[k] && Posting(d, p) in Get(pos, u);
      assert u in pos;
    }
    if exists u :: u in groups[k] && u in inv && d in inv[u] {
      var u :| u in groups[k] && u in inv && d in inv[u];
      var p :| Posting(d, p) in pos[u];
      assert Posting(d, p) in Get(pos, u);
    }
  }

  // ---------------------------------------------------------------------
  // Single-word lookup

  /** What `search_with_positions` reports. A word that normalises to no
      token at all makes `search_with_positions` in `Ir.py` fail on `[0]`;
      that is `NoTerm`. */
  datatype Lookup = NoTerm | NotFound(word: string) | Found(term: Token, postings: seq<Posting>)

  /** `search_with_positions`: the first token of the normalised word, and
      its entry when the positional index has one. */
  function SearchWithPositions(stem: Stemmer, word: string, pos: PositionalIndex): (r: Lookup)
    ensures r.NoTerm? <==> |Normalize(stem, word)| == 0
    ensures r.Found? ==> r.term == Normalize(stem, word)[0] && r.term in pos && r.postings == pos[r.term]
    ensures r.NotFound? ==> r.word == word && |Normalize(stem, word)| > 0 && Normalize(stem, word)[0] !in pos
  {
    var tokens := Normalize(stem, word);
    if |tokens| == 0 then NoTerm
    else if tokens[0] in pos then Found(tokens[0], pos[tokens[0]])
    else NotFound(word)
  }

  /** Looked up in a corpus's index: a found word lists exactly the
      positions where its term occurs, at least one, in corpus order; a word
      not found occurs nowhere. */
  lemma SearchOverCorpus(stem: Stemmer, word: string, docs: Corpus)
    ensures var r := SearchWithPositions(stem, word, BuildPositional(Analyzer(stem), docs));
      r.Found? ==> (|r.postings| > 0
                    && forall x :: x in r.postings <==> Occurs(Analyzer(stem), docs, r.term, x.doc, x.pos))
    ensures var r := SearchWithPositions(stem, word, BuildPositional(Analyzer(stem), docs));
      r.Found? && DistinctIds(docs) ==> InCorpusOrder(docs, r.postings)
    ensures var r := SearchWithPositions(stem, word, BuildPositional(Analyzer(stem), docs));
      r.NotFound? ==> forall d, p :: !Occurs(Analyzer(stem), docs, Normalize(stem, word)[0], d, p)
  {
    var pos := BuildPositional(Analyzer(stem), docs);
    var r := SearchWithPositions(stem, word, pos);
    PositionalIsPostingsOf(Analyzer(stem), docs);
    if r.Found? {
      assert Get(pos, r.term) == r.postings;
      PostingsOfMembership(Analyzer(stem), docs, r.term);
      if DistinctIds(docs) {
        PositionalIndexOrder(Analyzer(stem), docs);
      }
    }
    if r.NotFound? {
      var t := Normalize(stem, word)[0];
      assert Get(pos, t) == [];
      PostingsOfMembership(Analyzer(stem), docs, t);
      forall d, p
        ensures !Occurs(Analyzer(stem), docs, t, d, p)
      {
        assert Posting(d, p) !in PostingsOf(Analyzer(stem), docs, t);
      }
    }
  }
}
