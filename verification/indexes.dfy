/** The two indexes of `Ir.py`, built from a corpus in document order: the
    inverted index (token to the set of ids of the documents containing it)
    and the positional index (token to the ordered list of
    (document id, position) pairs). Positions count the tokens left after
    normalisation, so removed stopwords take up no position. */
module Indexes {
  import opened Normalizer

  type DocId = nat

  /** A document as the document source hands it over. */
  datatype Document = Document(id: DocId, text: string)

  /** The documents in the order in which the document dictionary yields them. */
  type Corpus = seq<Document>

  /** One occurrence of a token: the document and the token's position in it. */
  datatype Posting = Posting(doc: DocId, pos: nat)

  type InvertedIndex = map<Token, set<DocId>>

  type PositionalIndex = map<Token, seq<Posting>>

  function Ids(docs: Corpus): set<DocId>
  {
    set i | 0 <= i < |docs| :: docs[i].id
  }

  /** Document ids are dictionary keys, so no two documents share one. */
  predicate DistinctIds(docs: Corpus)
  {
    forall i, j :: 0 <= i < j < |docs| ==> docs[i].id != docs[j].id
  }

  /** Text to token stream. `Ir.py`'s builders call
      `tokenize_with_stopwords_and_stemming` directly; the model turns that
      call into this parameter, and `Analyzer(stem)` is the normaliser
      that fills it. */
  type Tokenizer = string -> seq<Token>

  function Analyzer(stem: Stemmer): Tokenizer
  {
    text => Normalize(stem, text)
  }

  /** The token stream of the `i`-th document. */
  function TokensOf(tokenize: Tokenizer, docs: Corpus, i: nat): seq<Token>
    requires i < |docs|
  {
    tokenize(docs[i].text)
  }

  /** The entry of a token in the positional index; a missing key reads as
      the empty list, as with `defaultdict(list)`. */
  function Get(pos: PositionalIndex, t: Token): seq<Posting>
  {
    if t in pos then pos[t] else []
  }

  // ---------------------------------------------------------------------
  // Inverted index

  /** The inner loop of `build_inverted_index`: the id `d` joins the entry
      of every token of the document, creating entries as needed. */
  function AddToInverted(inv: InvertedIndex, d: DocId, tokens: seq<Token>): (r: InvertedIndex)
    ensures forall t :: t in r <==> t in inv || t in tokens
    ensures forall t, e :: t in r && e in r[t] <==> (t in inv && e in inv[t]) || (e == d && t in tokens)
    decreases |tokens|
  {
    if |tokens| == 0 then inv
    else
      var t := tokens[0];
      assert tokens == [t] + tokens[1..];
      AddToInverted(inv[t := (if t in inv then inv[t] else {}) + {d}], d, tokens[1..])
  }

  /** `build_inverted_index`: documents are processed in corpus order. */
  function BuildInverted(tokenize: Tokenizer, docs: Corpus): InvertedIndex
    decreases |docs|
  {
    if |docs| == 0 then map[]
    else
      var n := |docs| - 1;
      AddToInverted(BuildInverted(tokenize, docs[..n]), docs[n].id, TokensOf(tokenize, docs, n))
  }

  /** Some document with id `d` contains the token `t` after normalisation. */
  ghost predicate Mentions(tokenize: Tokenizer, docs: Corpus, t: Token, d: DocId)
  {
    exists i :: 0 <= i < |docs| && docs[i].id == d && t in TokensOf(tokenize, docs, i)
  }

  /** A document id is in the entry of a token exactly when that document
      contains the token; no entry is empty. */
  lemma {:induction false} InvertedIndexMembership(tokenize: Tokenizer, docs: Corpus)
    ensures forall t, d :: (t in BuildInverted(tokenize, docs) && d in BuildInverted(tokenize, docs)[t])
                           <==> Mentions(tokenize, docs, t, d)
    ensures forall t :: t in BuildInverted(tokenize, docs) ==> BuildInverted(tokenize, docs)[t] != {}
    decreases |docs|
  {
    if |docs| > 0 {
      var n := |docs| - 1;
      var prefix := docs[..n];
      var inv := BuildInverted(tokenize, docs);
      InvertedIndexMembership(tokenize, prefix);
      forall t, d
        ensures (t in inv && d in inv[t]) <==> Mentions(tokenize, docs, t, d)
      {
        MentionsSplit(tokenize, docs, t, d);
      }
    }
  }

  /** A corpus mentions a token in a document exactly when all but its last
      document do, or the last document is that one and holds the token. */
  lemma MentionsSplit(tokenize: Tokenizer, docs: Corpus, t: Token, d: DocId)
    requires |docs| > 0
    ensures var n := |docs| - 1;
      (Mentions(tokenize, docs, t, d)
       <==> Mentions(tokenize, docs[..n], t, d) || (docs[n].id == d && t in TokensOf(tokenize, docs, n)))
  {
    var n := |docs| - 1;
    var prefix := docs[..n];
    if Mentions(tokenize, docs, t, d) {
      var i :| 0 <= i < |docs| && docs[i].id == d && t in TokensOf(tokenize, docs, i);
      if i < n {
        assert prefix[i] == docs[i];
        assert TokensOf(tokenize, prefix, i) == TokensOf(tokenize, docs, i);
      }
    }
    if Mentions(tokenize, prefix, t, d) {
      var i :| 0 <= i < |prefix| && prefix[i].id == d && t in TokensOf(tokenize, prefix, i);
      assert prefix[i] == docs[i];
      assert TokensOf(tokenize, prefix, i) == TokensOf(tokenize, docs, i);
    }
  }

  // ---------------------------------------------------------------------
  // Positional index

  /** Reference definition of one document's share of an entry: the
      postings `(d, q)` for every position `q >= p` at which `tokens` holds
      `t`, in increasing position order. */
  function Occurrences(d: DocId, tokens: seq<Token>, t: Token, p: nat): (r: seq<Posting>)
    requires p <= |tokens|
    ensures |r| <= |tokens| - p
    decreases |tokens| - p
  {
    if p == |tokens| then []
    else (if tokens[p] == t then [Posting(d, p)] else []) + Occurrences(d, tokens, t, p + 1)
  }

  /** `(d', q)` is an occurrence exactly when `d' == d`, `q >= p` and
      `tokens[q] == t`. */
  lemma {:induction false} OccurrencesMembership(d: DocId, tokens: seq<Token>, t: Token, p: nat)
    requires p <= |tokens|
    ensures forall x :: x in Occurrences(d, tokens, t, p) <==> x.doc == d && p <= x.pos < |tokens| && tokens[x.pos] == t
    decreases |tokens| - p
  {
    if p < |tokens| {
      OccurrencesMembership(d, tokens, t, p + 1);
    }
  }

  /** Positions strictly increase along a list of postings. */
  predicate Increasing(ps: seq<Posting>)
  {
    forall k, l :: 0 <= k < l < |ps| ==> ps[k].pos < ps[l].pos
  }

  /** Every occurrence from `p` on is at a position `p` or later. */
  lemma {:induction false} OccurrencesFrom(d: DocId, tokens: seq<Token>, t: Token, p: nat)
    requires p <= |tokens|
    ensures forall k :: 0 <= k < |Occurrences(d, tokens, t, p)| ==> Occurrences(d, tokens, t, p)[k].pos >= p
    decreases |tokens| - p
  {
    if p < |tokens| {
      OccurrencesFrom(d, tokens, t, p + 1);
    }
  }

  /** A posting in front of later positions keeps the list increasing. */
  lemma IncreasingCons(x: Posting, rest: seq<Posting>)
    requires Increasing(rest)
    requires forall k :: 0 <= k < |rest| ==> rest[k].pos > x.pos
    ensures Increasing([x] + rest)
  {
    var r := [x] + rest;
    forall k, l | 0 <= k < l < |r|
      ensures r[k].pos < r[l].pos
    {
      assert r[l] == rest[l - 1];
      if k > 0 {
        assert r[k] == rest[k - 1];
      }
    }
  }

  /** Within one document the positions strictly increase. */
  lemma {:induction false} OccurrencesIncrease(d: DocId, tokens: seq<Token>, t: Token, p: nat)
    requires p <= |tokens|
    ensures Increasing(Occurrences(d, tokens, t, p))
    decreases |tokens| - p
  {
    if p < |tokens| {
      OccurrencesIncrease(d, tokens, t, p + 1);
      if tokens[p] == t {
        OccurrencesFrom(d, tokens, t, p + 1);
        IncreasingCons(Posting(d, p), Occurrences(d, tokens, t, p + 1));
      }
    }
  }

  /** Every occurrence names the document `d`. */
  lemma OccurrencesDoc(d: DocId, tokens: seq<Token>, t: Token, p: nat)
    requires p <= |tokens|
    ensures forall k :: 0 <= k < |Occurrences(d, tokens, t, p)| ==> Occurrences(d, tokens, t, p)[k].doc == d
  {
    OccurrencesMembership(d, tokens, t, p);
    forall k | 0 <= k < |Occurrences(d, tokens, t, p)|
      ensures Occurrences(d, tokens, t, p)[k].doc == d
    {
      assert Occurrences(d, tokens, t, p)[k] in Occurrences(d, tokens, t, p);
    }
  }

  /** One step of the inner loop appends `(d, p)` to the entry of `tokens[p]` only. */
  lemma AppendStep(pos: PositionalIndex, d: DocId, tokens: seq<Token>, p: nat, u: Token)
    requires p < |tokens|
    ensures Get(pos[tokens[p] := Get(pos, tokens[p]) + [Posting(d, p)]], u) + Occurrences(d, tokens, u, p + 1)
            == Get(pos, u) + Occurrences(d, tokens, u, p)
  {
  }

  /** The inner loop of `build_positional_index` from position `p` on:
      `(d, q)` is appended to the entry of `tokens[q]` for q = p, p+1, ... */
  function AddToPositional(pos: PositionalIndex, d: DocId, tokens: seq<Token>, p: nat): (r: PositionalIndex)
    requires p <= |tokens|
    ensures forall t :: Get(r, t) == Get(pos, t) + Occurrences(d, tokens, t, p)
    ensures forall t :: t in r <==> t in pos || t in tokens[p..]
    decreases |tokens| - p
  {
    if p == |tokens| then pos
    else
      var t := tokens[p];
      var next := pos[t := Get(pos, t) + [Posting(d, p)]];
      assert tokens[p..] == [t] + tokens[p + 1..];
      assert forall u :: Get(next, u) + Occurrences(d, tokens, u, p + 1) == Get(pos, u) + Occurrences(d, tokens, u, p) by {
        forall u {
          AppendStep(pos, d, tokens, p, u);
        }
      }
      AddToPositional(next, d, tokens, p + 1)
  }

  /** `build_positional_index`: documents are processed in corpus order. */
  function BuildPositional(tokenize: Tokenizer, docs: Corpus): PositionalIndex
    decreases |docs|
  {
    if |docs| == 0 then map[]
    else
      var n := |docs| - 1;
      AddToPositional(BuildPositional(tokenize, docs[..n]), docs[n].id, TokensOf(tokenize, docs, n), 0)
  }

  /** Reference definition of an entry: each document's occurrences of `t`,
      the documents taken in corpus order. */
  function PostingsOf(tokenize: Tokenizer, docs: Corpus, t: Token): seq<Posting>
    decreases |docs|
  {
    if |docs| == 0 then []
    else
      var n := |docs| - 1;
      PostingsOf(tokenize, docs[..n], t) + Occurrences(docs[n].id, TokensOf(tokenize, docs, n), t, 0)
  }

  lemma {:induction false} OccurrencesOfPresentToken(d: DocId, tokens: seq<Token>, t: Token)
    requires t in tokens
    ensures |Occurrences(d, tokens, t, 0)| > 0
  {
    var q :| 0 <= q < |tokens| && tokens[q] == t;
    OccurrencesMembership(d, tokens, t, 0);
    assert Posting(d, q) in Occurrences(d, tokens, t, 0);
  }

  /** The positional index built by appending is, entry by entry, the
      reference list of occurrences, and it has no empty entry. */
  lemma {:induction false} PositionalIsPostingsOf(tokenize: Tokenizer, docs: Corpus)
    ensures forall t :: Get(BuildPositional(tokenize, docs), t) == PostingsOf(tokenize, docs, t)
    ensures forall t :: t in BuildPositional(tokenize, docs) ==> |BuildPositional(tokenize, docs)[t]| > 0
    decreases |docs|
  {
    if |docs| > 0 {
      var n := |docs| - 1;
      PositionalIsPostingsOf(tokenize, docs[..n]);
      var prev := BuildPositional(tokenize, docs[..n]);
      var pos := BuildPositional(tokenize, docs);
      var tokens := TokensOf(tokenize, docs, n);
      assert pos == AddToPositional(prev, docs[n].id, tokens, 0);
      assert tokens[0..] == tokens;
      forall t | t in pos
        ensures |pos[t]| > 0
      {
        assert Get(pos, t) == pos[t];
        assert Get(pos, t) == Get(prev, t) + Occurrences(docs[n].id, tokens, t, 0);
        if t in prev {
          assert Get(prev, t) == prev[t];
        } else {
          assert t in tokens;
          OccurrencesOfPresentToken(docs[n].id, tokens, t);
        }
      }
    }
  }

  /** Some document with id `d` holds the token `t` at position `p` of its
      normalised token stream. */
  ghost predicate Occurs(tokenize: Tokenizer, docs: Corpus, t: Token, d: DocId, p: nat)
  {
    exists i :: 0 <= i < |docs| && docs[i].id == d && p < |TokensOf(tokenize, docs, i)| && TokensOf(tokenize, docs, i)[p] == t
  }

  /** `(d, p)` is listed under `t` exactly when a document with id `d` holds
      `t` at position `p`. */
  lemma {:induction false} PostingsOfMembership(tokenize: Tokenizer, docs: Corpus, t: Token)
    ensures forall x :: x in PostingsOf(tokenize, docs, t) <==> Occurs(tokenize, docs, t, x.doc, x.pos)
    decreases |docs|
  {
    if |docs| > 0 {
      var n := |docs| - 1;
      var prefix := docs[..n];
      PostingsOfMembership(tokenize, prefix, t);
      OccurrencesMembership(docs[n].id, TokensOf(tokenize, docs, n), t, 0);
      forall x
        ensures x in PostingsOf(tokenize, docs, t) <==> Occurs(tokenize, docs, t, x.doc, x.pos)
      {
        if Occurs(tokenize, docs, t, x.doc, x.pos) {
          var i :| 0 <= i < |docs| && docs[i].id == x.doc && x.pos < |TokensOf(tokenize, docs, i)|
                   && TokensOf(tokenize, docs, i)[x.pos] == t;
          if i < n {
            assert prefix[i] == docs[i];
            assert Occurs(tokenize, prefix, t, x.doc, x.pos);
          }
        }
        if Occurs(tokenize, prefix, t, x.doc, x.pos) {
          var i :| 0 <= i < |prefix| && prefix[i].id == x.doc && x.pos < |TokensOf(tokenize, prefix, i)|
                   && TokensOf(tokenize, prefix, i)[x.pos] == t;
          assert prefix[i] == docs[i];
        }
      }
    }
  }

  /** The index of the first document with id `d`, or `|docs|` if none has it. */
  function Rank(docs: Corpus, d: DocId): (r: nat)
    ensures r <= |docs|
    ensures r < |docs| ==> docs[r].id == d
    ensures forall i :: 0 <= i < r ==> docs[i].id != d
    decreases |docs|
  {
    if |docs| == 0 then 0
    else if docs[0].id == d then 0
    else 1 + Rank(docs[1..], d)
  }

  /** A document found in a prefix of the corpus keeps its rank in the whole. */
  lemma RankInPrefix(docs: Corpus, n: nat, i: nat)
    requires i < n <= |docs|
    ensures Rank(docs, docs[i].id) == Rank(docs[..n], docs[i].id) <= i
  {
    var d := docs[i].id;
    var prefix := docs[..n];
    assert prefix[i] == docs[i];
    var r := Rank(docs, d);
    var r' := Rank(prefix, d);
    assert r' <= i;
    assert prefix[r'] == docs[r'];
    assert r <= r';
  }

  lemma RankOfDistinct(docs: Corpus, i: nat)
    requires DistinctIds(docs) && i < |docs|
    ensures Rank(docs, docs[i].id) == i
  {
  }

  /** The ordering promised for every entry of the positional index: grouped
      by document in corpus order, positions strictly increasing within a
      document. */
  ghost predicate InCorpusOrder(docs: Corpus, ps: seq<Posting>)
  {
    forall k, l :: 0 <= k < l < |ps| ==>
      Rank(docs, ps[k].doc) < Rank(docs, ps[l].doc)
      || (ps[k].doc == ps[l].doc && ps[k].pos < ps[l].pos)
  }

  lemma {:induction false} PostingsOfInCorpusOrder(tokenize: Tokenizer, docs: Corpus, t: Token)
    requires DistinctIds(docs)
    ensures InCorpusOrder(docs, PostingsOf(tokenize, docs, t))
    ensures forall x :: x in PostingsOf(tokenize, docs, t) ==> Rank(docs, x.doc) < |docs|
    decreases |docs|
  {
    if |docs| > 0 {
      var n := |docs| - 1;
      var prefix := docs[..n];
      var a := PostingsOf(tokenize, prefix, t);
      var d := docs[n].id;
      var b := Occurrences(d, TokensOf(tokenize, docs, n), t, 0);
      PostingsOfInCorpusOrder(tokenize, prefix, t);
      PrefixRanks(tokenize, docs, t);
      OccurrencesIncrease(d, TokensOf(tokenize, docs, n), t, 0);
      OccurrencesDoc(d, TokensOf(tokenize, docs, n), t, 0);
      RankOfDistinct(docs, n);
      OrderedAppend(docs, a, b, n);
    }
  }

  /** The postings of all but the last document keep their ranks, which are
      below the last document's. */
  lemma PrefixRanks(tokenize: Tokenizer, docs: Corpus, t: Token)
    requires |docs| > 0
    ensures var a := PostingsOf(tokenize, docs[..|docs| - 1], t);
      forall k :: 0 <= k < |a| ==> Rank(docs, a[k].doc) == Rank(docs[..|docs| - 1], a[k].doc) < |docs| - 1
  {
    var n := |docs| - 1;
    var prefix := docs[..n];
    var a := PostingsOf(tokenize, prefix, t);
    PostingsOfMembership(tokenize, prefix, t);
    forall k | 0 <= k < |a|
      ensures Rank(docs, a[k].doc) == Rank(prefix, a[k].doc) < n
    {
      assert a[k] in a;
      var i :| 0 <= i < |prefix| && prefix[i].id == a[k].doc && a[k].pos < |TokensOf(tokenize, prefix, i)|
               && TokensOf(tokenize, prefix, i)[a[k].pos] == t;
      RankInPrefix(docs, n, i);
    }
  }

  /** Appending the increasing postings of the document of rank `n` to
      ordered postings of lower rank keeps the corpus order. */
  lemma OrderedAppend(docs: Corpus, a: seq<Posting>, b: seq<Posting>, n: nat)
    requires n < |docs| && Rank(docs, docs[n].id) == n
    requires InCorpusOrder(docs, a)
    requires forall k :: 0 <= k < |a| ==> Rank(docs, a[k].doc) < n
    requires forall k :: 0 <= k < |b| ==> b[k].doc == docs[n].id
    requires Increasing(b)
    ensures InCorpusOrder(docs, a + b)
    ensures forall x :: x in a + b ==> Rank(docs, x.doc) < |docs|
  {
    var ps := a + b;
    forall k, l | 0 <= k < l < |ps|
      ensures Rank(docs, ps[k].doc) < Rank(docs, ps[l].doc) || (ps[k].doc == ps[l].doc && ps[k].pos < ps[l].pos)
    {
      if l < |a| {
        assert ps[k] == a[k] && ps[l] == a[l];
      } else if k >= |a| {
        assert ps[k] == b[k - |a|] && ps[l] == b[l - |a|];
      } else {
        assert ps[k] == a[k] && ps[l] == b[l - |a|];
      }
    }
    forall x | x in ps
      ensures Rank(docs, x.doc) < |docs|
    {
      if x in a {
        var k :| 0 <= k < |a| && a[k] == x;
      } else {
        var k :| 0 <= k < |b| && b[k] == x;
      }
    }
  }

  // ---------------------------------------------------------------------
  // Properties of the built positional index

  /** Entry content: `(d, p)` is listed under `t` exactly when the document
      with id `d` holds `t` at position `p`; every listed document is in the
      corpus. */
  lemma PositionalIndexContent(tokenize: Tokenizer, docs: Corpus, i: nat)
    requires DistinctIds(docs) && i < |docs|
    ensures forall t, p: nat :: Posting(docs[i].id, p) in Get(BuildPositional(tokenize, docs), t)
                           <==> p < |TokensOf(tokenize, docs, i)| && TokensOf(tokenize, docs, i)[p] == t
  {
    forall t, p: nat {
      PositionalEntry(tokenize, docs, i, t, p);
    }
  }

  /** One token and one position of `PositionalIndexContent`. */
  lemma PositionalEntry(tokenize: Tokenizer, docs: Corpus, i: nat, t: Token, p: nat)
    requires DistinctIds(docs) && i < |docs|
    ensures Posting(docs[i].id, p) in Get(BuildPositional(tokenize, docs), t)
        <==> p < |TokensOf(tokenize, docs, i)| && TokensOf(tokenize, docs, i)[p] == t
  {
    var pos := BuildPositional(tokenize, docs);
    var tokens := TokensOf(tokenize, docs, i);
    PositionalIsPostingsOf(tokenize, docs);
    assert Get(pos, t) == PostingsOf(tokenize, docs, t);
    PostingsOfMembership(tokenize, docs, t);
    if p < |tokens| && tokens[p] == t {
      assert Occurs(tokenize, docs, t, docs[i].id, p);
    }
    if Occurs(tokenize, docs, t, docs[i].id, p) {
      var j :| 0 <= j < |docs| && docs[j].id == docs[i].id && p < |TokensOf(tokenize, docs, j)|
               && TokensOf(tokenize, docs, j)[p] == t;
      assert j == i;
    }
  }

  /** Every posting names a document of the corpus. */
  lemma PositionalIndexDocs(tokenize: Tokenizer, docs: Corpus)
    ensures forall t, x :: x in Get(BuildPositional(tokenize, docs), t) ==> x.doc in Ids(docs)
  {
    PositionalIsPostingsOf(tokenize, docs);
    forall t, x | x in Get(BuildPositional(tokenize, docs), t)
      ensures x.doc in Ids(docs)
    {
      PostingsOfMembership(tokenize, docs, t);
      var i :| 0 <= i < |docs| && docs[i].id == x.doc && x.pos < |TokensOf(tokenize, docs, i)|
               && TokensOf(tokenize, docs, i)[x.pos] == t;
    }
  }

  /** Entry order: grouped by document in corpus order, positions strictly
      increasing within each document. */
  lemma PositionalIndexOrder(tokenize: Tokenizer, docs: Corpus)
    requires DistinctIds(docs)
    ensures forall t :: InCorpusOrder(docs, Get(BuildPositional(tokenize, docs), t))
  {
    PositionalIsPostingsOf(tokenize, docs);
    forall t
      ensures InCorpusOrder(docs, Get(BuildPositional(tokenize, docs), t))
    {
      PostingsOfInCorpusOrder(tokenize, docs, t);
    }
  }

  /** Position `p` of document `d` is listed under some token of `pos`. */
  predicate Covered(pos: PositionalIndex, d: DocId, p: nat)
  {
    exists t :: t in pos && Posting(d, p) in pos[t]
  }

  /** For each document the positions recorded under all its tokens are
      exactly 0 .. N-1, N the length of its token stream. */
  lemma PositionsCoverDocument(tokenize: Tokenizer, docs: Corpus, i: nat)
    requires DistinctIds(docs) && i < |docs|
    ensures forall p: nat :: p < |TokensOf(tokenize, docs, i)| <==> Covered(BuildPositional(tokenize, docs), docs[i].id, p)
  {
    var pos := BuildPositional(tokenize, docs);
    var n := |TokensOf(tokenize, docs, i)|;
    forall p: nat
      ensures p < n <==> Covered(pos, docs[i].id, p)
    {
      PositionCovered(tokenize, docs, i, p);
    }
  }

  lemma PositionCovered(tokenize: Tokenizer, docs: Corpus, i: nat, p: nat)
    requires DistinctIds(docs) && i < |docs|
    ensures p < |TokensOf(tokenize, docs, i)| <==> Covered(BuildPositional(tokenize, docs), docs[i].id, p)
  {
    var pos := BuildPositional(tokenize, docs);
    var tokens := TokensOf(tokenize, docs, i);
    var d := docs[i].id;
    if p < |tokens| {
      var t := tokens[p];
      PositionalEntry(tokenize, docs, i, t, p);
      assert Posting(d, p) in Get(pos, t);
      assert t in pos && Posting(d, p) in pos[t];
    }
    if Covered(pos, d, p) {
      var t :| t in pos && Posting(d, p) in pos[t];
      PositionalEntry(tokenize, docs, i, t, p);
      assert Posting(d, p) in Get(pos, t);
    }
  }

  /** No entry lists the same posting twice. */
  lemma EntriesHaveNoDuplicates(tokenize: Tokenizer, docs: Corpus)
    requires DistinctIds(docs)
    ensures var pos := BuildPositional(tokenize, docs);
      forall t, k, l :: t in pos && 0 <= k < l < |pos[t]| ==> pos[t][k] != pos[t][l]
  {
    var pos := BuildPositional(tokenize, docs);
    PositionalIndexOrder(tokenize, docs);
    forall t, k, l | t in pos && 0 <= k < l < |pos[t]|
      ensures pos[t][k] != pos[t][l]
    {
      assert InCorpusOrder(docs, Get(pos, t));
    }
  }

  /** For one token and one document: the document is in the inverted
      entry exactly when one of its positions is in the positional entry. */
  lemma EntriesAgree(tokenize: Tokenizer, docs: Corpus, t: Token, d: DocId)
    ensures (t in BuildInverted(tokenize, docs) && d in BuildInverted(tokenize, docs)[t])
            <==> exists p :: Posting(d, p) in Get(BuildPositional(tokenize, docs), t)
  {
    MentionsAt(tokenize, docs, t, d);
    if Mentions(tokenize, docs, t, d) {
      MentionsGivesOccurs(tokenize, docs, t, d);
    }
    if exists p :: Posting(d, p) in Get(BuildPositional(tokenize, docs), t) {
      var p :| Posting(d, p) in Get(BuildPositional(tokenize, docs), t);
      OccursAt(tokenize, docs, t, d, p);
      OccursGivesMentions(tokenize, docs, t, d, p);
    }
  }

  lemma MentionsGivesOccurs(tokenize: Tokenizer, docs: Corpus, t: Token, d: DocId)
    requires Mentions(tokenize, docs, t, d)
    ensures exists p :: Posting(d, p) in Get(BuildPositional(tokenize, docs), t)
  {
    var i :| 0 <= i < |docs| && docs[i].id == d && t in TokensOf(tokenize, docs, i);
    var p :| 0 <= p < |TokensOf(tokenize, docs, i)| && TokensOf(tokenize, docs, i)[p] == t;
    OccursAt(tokenize, docs, t, d, p);
  }

  lemma OccursGivesMentions(tokenize: Tokenizer, docs: Corpus, t: Token, d: DocId, p: nat)
    requires Occurs(tokenize, docs, t, d, p)
    ensures Mentions(tokenize, docs, t, d)
  {
    var i :| 0 <= i < |docs| && docs[i].id == d && p < |TokensOf(tokenize, docs, i)| && TokensOf(tokenize, docs, i)[p] == t;
    assert t in TokensOf(tokenize, docs, i);
  }

  lemma MentionsAt(tokenize: Tokenizer, docs: Corpus, t: Token, d: DocId)
    ensures (t in BuildInverted(tokenize, docs) && d in BuildInverted(tokenize, docs)[t]) <==> Mentions(tokenize, docs, t, d)
  {
    InvertedIndexMembership(tokenize, docs);
  }

  lemma OccursAt(tokenize: Tokenizer, docs: Corpus, t: Token, d: DocId, p: nat)
    ensures Posting(d, p) in Get(BuildPositional(tokenize, docs), t) <==> Occurs(tokenize, docs, t, d, p)
  {
    PositionalIsPostingsOf(tokenize, docs);
    PostingsOfMembership(tokenize, docs, t);
  }

  /** The two indexes agree: the same tokens have entries, and a document
      is in a token's inverted entry exactly when some position of it is in
      the token's positional entry. */
  lemma IndexesAgree(tokenize: Tokenizer, docs: Corpus)
    ensures BuildInverted(tokenize, docs).Keys == BuildPositional(tokenize, docs).Keys
    ensures forall t, d :: t in BuildInverted(tokenize, docs) ==>
      (d in BuildInverted(tokenize, docs)[t] <==> exists p :: Posting(d, p) in BuildPositional(tokenize, docs)[t])
  {
    var inv := BuildInverted(tokenize, docs);
    var pos := BuildPositional(tokenize, docs);
    InvertedIndexMembership(tokenize, docs);
    PositionalIsPostingsOf(tokenize, docs);
    forall t
      ensures t in inv <==> t in pos
    {
      if t in inv {
        var d :| d in inv[t];
        EntriesAgree(tokenize, docs, t, d);
      }
      if t in pos {
        var x: Posting := pos[t][0];
        assert x == Posting(x.doc, x.pos) && x in Get(pos, t);
        EntriesAgree(tokenize, docs, t, x.doc);
      }
    }
    forall t, d | t in inv
      ensures d in inv[t] <==> exists p :: Posting(d, p) in pos[t]
    {
      EntriesAgree(tokenize, docs, t, d);
    }
  }
}
