/** The `doc -> token -> positions` map that `boolean_retrieval_with_positions`
    fills while it collects each group's documents. The groups are scanned
    in order, each group's tokens in order, and for every token present in
    the positional index every posting `(d, p)` listed under it appends `p`
    to the list of `d` and that token. Tokens of NOT groups are scanned like
    any other, and a token met again (in the same or a later group) has its
    positions appended again. */
module PositionMaps {
  import opened Normalizer
  import opened Indexes

  /** A posting met during the scan, with the token it was listed under. */
  datatype Hit = Hit(token: Token, posting: Posting)

  type PositionMap = map<DocId, map<Token, seq<nat>>>

  /** The postings of one token, in index order. */
  function HitsOf(u: Token, ps: seq<Posting>): seq<Hit>
    decreases |ps|
  {
    if |ps| == 0 then [] else [Hit(u, ps[0])] + HitsOf(u, ps[1..])
  }

  /** The scan over a list of tokens. A token missing from the index
      contributes nothing, which is what `if token in positional_index`
      guards. */
  function Hits(pos: PositionalIndex, tokens: seq<Token>): seq<Hit>
    decreases |tokens|
  {
    if |tokens| == 0 then [] else HitsOf(tokens[0], Get(pos, tokens[0])) + Hits(pos, tokens[1..])
  }

  /** The tokens of all groups, in scanning order. */
  function Flatten(groups: seq<seq<Token>>): (ts: seq<Token>)
    ensures |ts| == Total(groups)
    decreases |groups|
  {
    if |groups| == 0 then [] else groups[0] + Flatten(groups[1..])
  }

  function Total(groups: seq<seq<Token>>): nat
    decreases |groups|
  {
    if |groups| == 0 then 0 else |groups[0]| + Total(groups[1..])
  }

  /** The documents of one group: every document listed under any of its
      tokens. */
  function GroupDocs(pos: PositionalIndex, tokens: seq<Token>): set<DocId>
  {
    set h | h in Hits(pos, tokens) :: h.posting.doc
  }

  /** The positions recorded so far for a document and a token; an absent
      entry reads as the empty list. */
  function Recorded(m: PositionMap, d: DocId, u: Token): seq<nat>
  {
    if d in m && u in m[d] then m[d][u] else []
  }

  /** Entries are only created by appending, so none is empty. */
  predicate NoEmptyEntry(m: PositionMap)
  {
    forall d, u :: d in m && u in m[d] ==> |m[d][u]| > 0
  }

  /** `term_positions[doc_id][token].append(pos)` on nested default dictionaries. */
  function Append(m: PositionMap, d: DocId, u: Token, p: nat): (r: PositionMap)
    ensures Recorded(r, d, u) == Recorded(m, d, u) + [p]
    ensures forall e: DocId, v: Token :: (e, v) != (d, u) ==> Recorded(r, e, v) == Recorded(m, e, v)
    ensures r.Keys == m.Keys + {d}
    ensures forall e :: e in m && e != d ==> r[e] == m[e]
    ensures NoEmptyEntry(m) ==> NoEmptyEntry(r)
  {
    var inner := if d in m then m[d] else map[];
    m[d := inner[u := Recorded(m, d, u) + [p]]]
  }

  /** The positions of the hits for document `d` and token `u`, in scan order. */
  function Select(hs: seq<Hit>, d: DocId, u: Token): seq<nat>
    decreases |hs|
  {
    if |hs| == 0 then []
    else (if hs[0].token == u && hs[0].posting.doc == d then [hs[0].posting.pos] else []) + Select(hs[1..], d, u)
  }

  /** Appending every hit in scan order. */
  function Record(m: PositionMap, hs: seq<Hit>): (r: PositionMap)
    ensures NoEmptyEntry(m) ==> NoEmptyEntry(r)
    decreases |hs|
  {
    if |hs| == 0 then m
    else Record(Append(m, hs[0].posting.doc, hs[0].token, hs[0].posting.pos), hs[1..])
  }

  /** Each list grows by exactly the positions of its hits. */
  lemma {:induction false} RecordContent(m: PositionMap, hs: seq<Hit>, d: DocId, u: Token)
    ensures Recorded(Record(m, hs), d, u) == Recorded(m, d, u) + Select(hs, d, u)
    decreases |hs|
  {
    if |hs| > 0 {
      var h := hs[0];
      var next := Append(m, h.posting.doc, h.token, h.posting.pos);
      RecordContent(next, hs[1..], d, u);
    }
  }

  /** A document gets an entry exactly when it already had one or has a hit. */
  lemma {:induction false} RecordKeys(m: PositionMap, hs: seq<Hit>, d: DocId)
    ensures d in Record(m, hs) <==> d in m || exists k :: 0 <= k < |hs| && hs[k].posting.doc == d
    decreases |hs|
  {
    if |hs| > 0 {
      var h := hs[0];
      RecordKeys(Append(m, h.posting.doc, h.token, h.posting.pos), hs[1..], d);
      if exists k :: 0 <= k < |hs[1..]| && hs[1..][k].posting.doc == d {
        var k :| 0 <= k < |hs[1..]| && hs[1..][k].posting.doc == d;
        assert hs[k + 1].posting.doc == d;
      }
      if exists k :: 0 <= k < |hs| && hs[k].posting.doc == d {
        var k :| 0 <= k < |hs| && hs[k].posting.doc == d;
        if k > 0 {
          assert hs[1..][k - 1].posting.doc == d;
        }
      }
    }
  }

  // ---------------------------------------------------------------------
  // What the scan records

  /** The positions of document `d` in a list of postings, in list order. */
  function PositionsIn(ps: seq<Posting>, d: DocId): seq<nat>
    decreases |ps|
  {
    if |ps| == 0 then [] else (if ps[0].doc == d then [ps[0].pos] else []) + PositionsIn(ps[1..], d)
  }

  /** `s` written `n` times in a row. */
  function Repeat(s: seq<nat>, n: nat): seq<nat>
    decreases n
  {
    if n == 0 then [] else s + Repeat(s, n - 1)
  }

  /** How often `u` occurs in `ts`. */
  function Count(ts: seq<Token>, u: Token): nat
    decreases |ts|
  {
    if |ts| == 0 then 0 else (if ts[0] == u then 1 else 0) + Count(ts[1..], u)
  }

  lemma {:induction false} SelectAppend(a: seq<Hit>, b: seq<Hit>, d: DocId, u: Token)
    ensures Select(a + b, d, u) == Select(a, d, u) + Select(b, d, u)
    decreases |a|
  {
    if |a| > 0 {
      SelectAppend(a[1..], b, d, u);
      assert (a + b)[0] == a[0];
      assert (a + b)[1..] == a[1..] + b;
    } else {
      assert a + b == b;
    }
  }

  lemma {:induction false} SelectHitsOf(v: Token, ps: seq<Posting>, d: DocId, u: Token)
    ensures Select(HitsOf(v, ps), d, u) == if v == u then PositionsIn(ps, d) else []
    decreases |ps|
  {
    if |ps| > 0 {
      SelectHitsOf(v, ps[1..], d, u);
    }
  }

  /** The exact content of a recorded list: the positions of `d` under `u`
      in the index, once for every occurrence of `u` in the scanned tokens. */
  lemma {:induction false} SelectHits(pos: PositionalIndex, ts: seq<Token>, d: DocId, u: Token)
    ensures Select(Hits(pos, ts), d, u) == Repeat(PositionsIn(Get(pos, u), d), Count(ts, u))
    decreases |ts|
  {
    if |ts| > 0 {
      SelectHits(pos, ts[1..], d, u);
      SelectAppend(HitsOf(ts[0], Get(pos, ts[0])), Hits(pos, ts[1..]), d, u);
      SelectHitsOf(ts[0], Get(pos, ts[0]), d, u);
    }
  }

  lemma {:induction false} HitsOfMembership(v: Token, ps: seq<Posting>)
    ensures forall h :: h in HitsOf(v, ps) <==> h.token == v && h.posting in ps
    decreases |ps|
  {
    if |ps| > 0 {
      HitsOfMembership(v, ps[1..]);
      assert ps == [ps[0]] + ps[1..];
    }
  }

  /** A hit is a posting listed under one of the scanned tokens. */
  lemma {:induction false} HitsMembership(pos: PositionalIndex, ts: seq<Token>)
    ensures forall h :: h in Hits(pos, ts) <==> h.token in ts && h.posting in Get(pos, h.token)
    decreases |ts|
  {
    if |ts| > 0 {
      HitsMembership(pos, ts[1..]);
      HitsOfMembership(ts[0], Get(pos, ts[0]));
      assert ts == [ts[0]] + ts[1..];
    }
  }

  /** A document is in a group's set exactly when it is listed under one of
      the group's tokens. */
  lemma GroupDocsMembership(pos: PositionalIndex, tokens: seq<Token>, d: DocId)
    ensures d in GroupDocs(pos, tokens) <==> exists u, p :: u in tokens && Posting(d, p) in Get(pos, u)
  {
    HitsMembership(pos, tokens);
    if exists u, p :: u in tokens && Posting(d, p) in Get(pos, u) {
      var u, p :| u in tokens && Posting(d, p) in Get(pos, u);
      assert Hit(u, Posting(d, p)) in Hits(pos, tokens);
    }
  }

  lemma {:induction false} FlattenMembership(groups: seq<seq<Token>>, u: Token)
    ensures u in Flatten(groups) <==> exists k :: 0 <= k < |groups| && u in groups[k]
    decreases |groups|
  {
    if |groups| > 0 {
      FlattenMembership(groups[1..], u);
      if exists k :: 0 <= k < |groups[1..]| && u in groups[1..][k] {
        var k :| 0 <= k < |groups[1..]| && u in groups[1..][k];
        assert u in groups[k + 1];
      }
      if exists k :: 0 <= k < |groups| && u in groups[k] {
        var k :| 0 <= k < |groups| && u in groups[k];
        if k > 0 {
          assert u in groups[1..][k - 1];
        }
      }
    }
  }

  /** How often a token occurs in all groups together. */
  lemma {:induction false} CountFlatten(groups: seq<seq<Token>>, u: Token)
    ensures Count(Flatten(groups), u) == CountGroups(groups, u)
    decreases |groups|
  {
    if |groups| > 0 {
      CountFlatten(groups[1..], u);
      CountAppend(groups[0], Flatten(groups[1..]), u);
    }
  }

  function CountGroups(groups: seq<seq<Token>>, u: Token): nat
    decreases |groups|
  {
    if |groups| == 0 then 0 else Count(groups[0], u) + CountGroups(groups[1..], u)
  }

  lemma {:induction false} CountAppend(a: seq<Token>, b: seq<Token>, u: Token)
    ensures Count(a + b, u) == Count(a, u) + Count(b, u)
    decreases |a|
  {
    if |a| > 0 {
      CountAppend(a[1..], b, u);
      assert (a + b)[0] == a[0];
      assert (a + b)[1..] == a[1..] + b;
    } else {
      assert a + b == b;
    }
  }
  /** A token is counted exactly when it occurs. */
  lemma {:induction false} CountPositive(ts: seq<Token>, u: Token)
    ensures Count(ts, u) > 0 <==> u in ts
    decreases |ts|
  {
    if |ts| > 0 {
      CountPositive(ts[1..], u);
      assert ts == [ts[0]] + ts[1..];
    }
  }

  /** `p` is among the positions of `d` exactly when `(d, p)` is listed. */
  lemma {:induction false} PositionsInMembership(ps: seq<Posting>, d: DocId, p: nat)
    ensures p in PositionsIn(ps, d) <==> Posting(d, p) in ps
    decreases |ps|
  {
    if |ps| > 0 {
      PositionsInMembership(ps[1..], d, p);
      assert ps == [ps[0]] + ps[1..];
    }
  }

  /** Repeating a list keeps its elements, unless it is repeated no times. */
  lemma {:induction false} RepeatMembership(s: seq<nat>, n: nat, x: nat)
    ensures x in Repeat(s, n) <==> n > 0 && x in s
    decreases n
  {
    if n > 0 {
      RepeatMembership(s, n - 1, x);
    }
  }
}
