/** The normaliser of `Ir.py`: raw text to the canonical token stream that both
    indexes and every query are built from. The pipeline, in order:
    delete `-` and `.`; delete `'s` before a word boundary (case-sensitively);
    lower-case; take the maximal runs of word characters; drop stopwords;
    stem. The Porter stemmer is foreign code and is a parameter here. */
module Normalizer {
  import opened Common
  import opened Text

  type Token = string

  /** The stemmer applied to every surviving token; nothing is assumed about it. */
  type Stemmer = string -> string

  /** The closed stopword list of `remove_stopwords`. */
  const Stopwords: set<string> :=
    {"is", "are", "a", "in", "on", "an", "was", "were", "the", "at", "of", "with",
     "and", "for", "from", "to", "by"}

  /** `remove_stopwords`: the tokens that are not stopwords, in order. */
  function RemoveStopwords(tokens: seq<string>): (r: seq<string>)
    ensures forall k :: 0 <= k < |r| ==> r[k] !in Stopwords && r[k] in tokens
    ensures forall w {:trigger multiset(r)[w]} :: w !in Stopwords ==> multiset(r)[w] == multiset(tokens)[w]
  {
    Without(tokens, Stopwords)
  }

  /** The survivors keep their relative order. */
  lemma RemoveStopwordsIsSubsequence(tokens: seq<string>)
    ensures IsSubsequence(RemoveStopwords(tokens), tokens)
  {
    WithoutIsSubsequence(tokens, Stopwords);
  }

  /** Step 1: every `-` and `.` deleted, nothing put in their place. */
  function DropDashesDots(text: string): (r: string)
    ensures '-' !in r && '.' !in r
    ensures forall c :: c != '-' && c != '.' ==> multiset(r)[c] == multiset(text)[c]
  {
    Without(text, {'-', '.'})
  }

  /** The surviving characters keep their relative order. */
  lemma DropDashesDotsIsSubsequence(text: string)
    ensures IsSubsequence(DropDashesDots(text), text)
  {
    WithoutIsSubsequence(text, {'-', '.'});
  }

  /** `s` starts with `'s` followed by a word boundary: the text ends there or
      the next character is not a word character. */
  predicate PossessiveAt(s: string)
  {
    |s| >= 2 && s[0] == '\'' && s[1] == 's' && (|s| == 2 || !IsWordChar(s[2]))
  }

  /** Step 2, `re.sub(r"'s\b", '', text)`: scanning left to right, every `'s`
      that ends at a word boundary is deleted. Upper-case `'S` is not touched. */
  function StripPossessive(s: string): (r: string)
    ensures |r| <= |s|
    ensures forall c :: c != '\'' && c != 's' ==> multiset(r)[c] == multiset(s)[c]
    ensures '\'' !in s ==> r == s
    decreases |s|
  {
    if |s| == 0 then []
    else if PossessiveAt(s) then
      assert s == [s[0]] + [s[1]] + s[2..];
      StripPossessive(s[2..])
    else
      assert s == [s[0]] + s[1..];
      [s[0]] + StripPossessive(s[1..])
  }

  /** Only deletions happen: the result is a subsequence of the input. */
  lemma {:induction false} StripPossessiveIsSubsequence(s: string)
    ensures IsSubsequence(StripPossessive(s), s)
    decreases |s|
  {
    if |s| > 0 {
      if PossessiveAt(s) {
        var rest := StripPossessive(s[2..]);
        StripPossessiveIsSubsequence(s[2..]);
        assert s[1..][1..] == s[2..];
        assert IsSubsequence(rest, s[1..]);
      } else {
        var rest := StripPossessive(s[1..]);
        StripPossessiveIsSubsequence(s[1..]);
        var r := [s[0]] + rest;
        assert StripPossessive(s) == r;
        assert r[0] == s[0] && r[1..] == rest;
      }
    }
  }

  /** Character `i` of `s` belongs to a match of `'s\b`: it is the
      apostrophe or the `s` of one. Two matches never overlap, since a match
      starts with an apostrophe and goes on with `s`. */
  predicate InPossessive(s: string, i: nat)
    requires i < |s|
  {
    PossessiveAt(s[i..]) || (i > 0 && PossessiveAt(s[i - 1..]))
  }

  /** Reference definition: the characters of `s` from index `i` on that
      belong to no match, in order. */
  function Unmatched(s: string, i: nat): string
    requires i <= |s|
    decreases |s| - i
  {
    if i == |s| then [] else (if InPossessive(s, i) then [] else [s[i]]) + Unmatched(s, i + 1)
  }

  /** The substitution deletes exactly the characters of the `'s\b`
      matches and keeps every other character, in order. */
  lemma StripPossessiveDeletesMatches(s: string)
    ensures StripPossessive(s) == Unmatched(s, 0)
  {
    StripPossessiveFrom(s, 0);
    assert s[0..] == s;
  }

  lemma {:induction false} StripPossessiveFrom(s: string, i: nat)
    requires i <= |s|
    requires i == 0 || !PossessiveAt(s[i - 1..])
    ensures StripPossessive(s[i..]) == Unmatched(s, i)
    decreases |s| - i
  {
    if i < |s| {
      if PossessiveAt(s[i..]) {
        assert s[i..][2..] == s[i + 2..];
        assert s[i + 1] == 's';
        assert !PossessiveAt(s[i + 1..]);
        assert InPossessive(s, i + 1) by {
          assert s[i + 1 - 1..] == s[i..];
        }
        StripPossessiveFrom(s, i + 2);
        assert s[i + 2 - 1..] == s[i + 1..];
      } else {
        assert !InPossessive(s, i);
        assert s[i..][1..] == s[i + 1..];
        assert s[i + 1 - 1..] == s[i..];
        StripPossessiveFrom(s, i + 1);
      }
    }
  }

  /** The pattern is case-sensitive: an upper-case `'S` is left in place. */
  lemma CapitalPossessiveKept()
    ensures StripPossessive("'S") == "'S"
  {
    assert !PossessiveAt("'S");
    assert "'S"[1..] == "S";
    assert StripPossessive("S") == "S" by {
      assert "S"[1..] == "";
    }
  }

  /** Only an `'s` at a word boundary goes: in `'sa's` the first `'s` is
      followed by a word character and stays. */
  lemma BoundaryDecides()
    ensures StripPossessive("'sa's") == "'sa"
  {
    var s := "'sa's";
    assert !PossessiveAt(s);
    assert s[1..] == "sa's" && !PossessiveAt(s[1..]);
    assert s[2..] == "a's" && !PossessiveAt(s[2..]);
    assert s[3..] == "'s" && PossessiveAt(s[3..]);
    assert s[3..][2..] == "";
    assert StripPossessive(s[3..]) == "";
    assert StripPossessive(s[2..]) == "a" by {
      assert s[2..][1..] == s[3..];
    }
    assert StripPossessive(s[1..]) == "sa" by {
      assert s[1..][1..] == s[2..];
    }
    assert s[0..][1..] == s[1..];
  }

  /** A string that starts with a non-word character keeps a non-word
      character (or nothing) in front after possessives are stripped. */
  lemma {:induction false} StripPossessiveKeepsNonWordStart(t: string)
    requires |t| > 0 && !IsWordChar(t[0])
    ensures |StripPossessive(t)| == 0 || !IsWordChar(StripPossessive(t)[0])
    decreases |t|
  {
    if PossessiveAt(t) && |t| > 2 {
      StripPossessiveKeepsNonWordStart(t[2..]);
    }
  }

  /** No `'s` at a word boundary survives the deletion: the substitution does
      not create new matches. */
  lemma {:induction false} StripPossessiveLeavesNone(s: string)
    ensures forall i :: 0 <= i < |StripPossessive(s)| ==> !PossessiveAt(StripPossessive(s)[i..])
    decreases |s|
  {
    if |s| > 0 {
      if PossessiveAt(s) {
        StripPossessiveLeavesNone(s[2..]);
      } else {
        var rest := StripPossessive(s[1..]);
        StripPossessiveLeavesNone(s[1..]);
        var r := [s[0]] + rest;
        assert StripPossessive(s) == r;
        forall i | 0 <= i < |r|
          ensures !PossessiveAt(r[i..])
        {
          if i > 0 {
            assert r[i..] == rest[i - 1..];
          } else if s[0] == '\'' && |r| >= 2 {
            var u := s[1..];
            if !IsWordChar(s[1]) {
              StripPossessiveKeepsNonWordStart(u);
            } else if s[1] == 's' {
              assert |s| > 2 && IsWordChar(s[2]);
              assert rest == [s[1]] + StripPossessive(s[2..]);
              assert StripPossessive(s[2..]) == [s[2]] + StripPossessive(s[3..]);
              assert r[2] == s[2];
            } else {
              assert rest == [s[1]] + StripPossessive(s[2..]);
            }
          }
        }
      }
    }
  }

  /** Stripping possessives twice is the same as stripping them once. */
  lemma {:induction false} StripPossessiveIdempotent(s: string)
    ensures StripPossessive(StripPossessive(s)) == StripPossessive(s)
  {
    StripPossessiveLeavesNone(s);
    NoPossessiveFixed(StripPossessive(s));
  }

  lemma {:induction false} NoPossessiveFixed(s: string)
    requires forall i :: 0 <= i < |s| ==> !PossessiveAt(s[i..])
    ensures StripPossessive(s) == s
    decreases |s|
  {
    if |s| > 0 {
      assert !PossessiveAt(s[0..]);
      assert s[0..] == s;
      forall i | 0 <= i < |s[1..]|
        ensures !PossessiveAt(s[1..][i..])
      {
        assert s[1..][i..] == s[i + 1..];
      }
      NoPossessiveFixed(s[1..]);
      assert s == [s[0]] + s[1..];
    }
  }

  /** What a surviving token looks like before it is stemmed. */
  predicate IsTerm(w: string)
  {
    |w| > 0 && w !in Stopwords && AllWordChars(w) && NoUpper(w)
  }


  lemma SurvivorsAreTerms(ws: seq<string>)
    requires forall k :: 0 <= k < |ws| ==> |ws[k]| > 0 && AllWordChars(ws[k]) && NoUpper(ws[k])
    ensures forall k :: 0 <= k < |RemoveStopwords(ws)| ==> IsTerm(RemoveStopwords(ws)[k])
  {
  }

  /** Steps 3 to 5 on text whose dashes, dots and possessives are already
      gone: lower-case, cut into runs of word characters, drop stopwords. */
  function Terms(prepared: string): (ts: seq<Token>)
    ensures forall k :: 0 <= k < |ts| ==> IsTerm(ts[k])
  {
    WordsKeepNoUpper(Lower(prepared));
    SurvivorsAreTerms(Words(Lower(prepared)));
    RemoveStopwords(Words(Lower(prepared)))
  }

  /** Steps 1 to 5 of `tokenize_with_stopwords_and_stemming`: the tokens
      before stemming. */
  function PreStem(text: string): (ts: seq<Token>)
    ensures forall k :: 0 <= k < |ts| ==> IsTerm(ts[k])
  {
    Terms(StripPossessive(DropDashesDots(text)))
  }

  /** `tokenize_with_stopwords_and_stemming`: every token of `PreStem`, stemmed. */
  function Normalize(stem: Stemmer, text: string): (ts: seq<Token>)
  {
    var pre := PreStem(text);
    seq(|pre|, k requires 0 <= k < |pre| => stem(pre[k]))
  }
}
