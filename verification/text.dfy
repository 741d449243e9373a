/** Character classes and the string primitives the normaliser is built from:
    lower-casing, whitespace stripping, and cutting a string into maximal runs
    of word characters (what `re.findall(r'\w+', s)` returns). */
module Text {

  /** A word character of the `\w` class, restricted to ASCII. */
  predicate IsWordChar(c: char)
  {
    ('a' <= c <= 'z') || ('A' <= c <= 'Z') || ('0' <= c <= '9') || c == '_'
  }

  predicate IsUpper(c: char)
  {
    'A' <= c <= 'Z'
  }

  /** ASCII whitespace as `str.strip()` understands it. */
  predicate IsSpace(c: char)
  {
    c == ' ' || c == '\t' || c == '\n' || c == '\r'
    || ('\U{0B}' <= c <= '\U{0C}') || ('\U{1C}' <= c <= '\U{1F}')
  }

  /** No character of `s` is an upper-case letter. */
  predicate NoUpper(s: string)
  {
    forall i :: 0 <= i < |s| ==> !IsUpper(s[i])
  }

  /** Every character of `s` is a word character. */
  predicate AllWordChars(s: string)
  {
    forall i :: 0 <= i < |s| ==> IsWordChar(s[i])
  }

  /** Every character of `s` is whitespace. */
  predicate AllSpace(s: string)
  {
    forall i :: 0 <= i < |s| ==> IsSpace(s[i])
  }

  function ToLower(c: char): (r: char)
    ensures !IsUpper(r)
    ensures IsWordChar(r) <==> IsWordChar(c)
    ensures IsSpace(r) <==> IsSpace(c)
    ensures !IsUpper(c) ==> r == c
    ensures IsUpper(c) ==> 'a' <= r <= 'z' && r as int - 'a' as int == c as int - 'A' as int
  {
    if IsUpper(c) then (c as int + 32) as char else c
  }

  /** `str.lower()`: only upper-case letters change, each to its lower-case form. */
  function Lower(s: string): (r: string)
    ensures |r| == |s|
    ensures NoUpper(r)
    ensures forall i :: 0 <= i < |s| ==> (IsWordChar(r[i]) <==> IsWordChar(s[i]))
    ensures forall i :: 0 <= i < |s| ==> (r[i] == s[i] <==> !IsUpper(s[i]))
    ensures forall i :: 0 <= i < |s| && IsUpper(s[i]) ==> 'a' <= r[i] <= 'z' && r[i] as int - 'a' as int == s[i] as int - 'A' as int
  {
    seq(|s|, i requires 0 <= i < |s| => ToLower(s[i]))
  }

  /** Lower-casing text that has no upper-case letter changes nothing. */
  lemma LowerKeepsLowerCase(s: string)
    requires NoUpper(s)
    ensures Lower(s) == s
  {
  }

  /** Index of the first character of `s` at or after `i` that is not
      whitespace, or `|s|`. */
  function SkipSpace(s: string, i: nat): (lo: nat)
    requires i <= |s|
    ensures i <= lo <= |s|
    ensures forall k :: i <= k < lo ==> IsSpace(s[k])
    ensures lo < |s| ==> !IsSpace(s[lo])
    decreases |s| - i
  {
    if i < |s| && IsSpace(s[i]) then SkipSpace(s, i + 1) else i
  }

  /** End of `s[lo..j]` once its trailing whitespace is removed. */
  function BackSpace(s: string, lo: nat, j: nat): (hi: nat)
    requires lo <= j <= |s|
    ensures lo <= hi <= j
    ensures forall k :: hi <= k < j ==> IsSpace(s[k])
    ensures hi > lo ==> !IsSpace(s[hi - 1])
    decreases j
  {
    if j > lo && IsSpace(s[j - 1]) then BackSpace(s, lo, j - 1) else j
  }

  /** `str.strip()`: the slice of `s` left when the whitespace at both ends
      is deleted; it neither starts nor ends with whitespace, and what was
      cut on either side is whitespace. */
  function Strip(s: string): (r: string)
    ensures |r| > 0 ==> !IsSpace(r[0]) && !IsSpace(r[|r| - 1])
    ensures exists lo, hi :: 0 <= lo <= hi <= |s| && r == s[lo..hi] && AllSpace(s[..lo]) && AllSpace(s[hi..])
  {
    var lo := SkipSpace(s, 0);
    var hi := BackSpace(s, lo, |s|);
    Margins(s, lo, hi);
    s[lo..hi]
  }

  /** The characters in front of `lo` and from `hi` on are whitespace. */
  lemma Margins(s: string, lo: nat, hi: nat)
    requires lo <= hi <= |s|
    requires forall k :: 0 <= k < lo ==> IsSpace(s[k])
    requires forall k :: hi <= k < |s| ==> IsSpace(s[k])
    ensures AllSpace(s[..lo]) && AllSpace(s[hi..])
  {
    forall k | 0 <= k < |s[..lo]|
      ensures IsSpace(s[..lo][k])
    {
      assert s[..lo][k] == s[k];
    }
    forall k | 0 <= k < |s[hi..]|
      ensures IsSpace(s[hi..][k])
    {
      assert s[hi..][k] == s[hi + k];
    }
  }

  /** Length of the longest prefix of `s` made of word characters. */
  function RunLength(s: string): (n: nat)
    ensures n <= |s|
    ensures forall i :: 0 <= i < n ==> IsWordChar(s[i])
    ensures n < |s| ==> !IsWordChar(s[n])
    decreases |s|
  {
    if |s| > 0 && IsWordChar(s[0]) then 1 + RunLength(s[1..]) else 0
  }

  /** The maximal runs of word characters of `s`, left to right: the tokens
      `re.findall(r'\w+', s)` returns. */
  function Words(s: string): (ws: seq<string>)
    ensures forall k :: 0 <= k < |ws| ==> |ws[k]| > 0 && AllWordChars(ws[k])
    decreases |s|
  {
    if |s| == 0 then []
    else if !IsWordChar(s[0]) then Words(s[1..])
    else
      var n := RunLength(s);
      [s[..n]] + Words(s[n..])
  }

  /** Tokens of text without upper-case letters have none either. */
  lemma {:induction false} WordsKeepNoUpper(s: string)
    requires NoUpper(s)
    ensures forall k :: 0 <= k < |Words(s)| ==> NoUpper(Words(s)[k])
    decreases |s|
  {
    if |s| > 0 {
      if !IsWordChar(s[0]) {
        WordsKeepNoUpper(s[1..]);
      } else {
        WordsKeepNoUpper(s[RunLength(s)..]);
      }
    }
  }

  /** The pieces between single delimiter characters, empty pieces included:
      a character-by-character split of `s` at every non-word character. */
  function Pieces(s: string): (ps: seq<string>)
    ensures |ps| > 0
    decreases |s|
  {
    if |s| == 0 then [""]
    else
      var rest := Pieces(s[1..]);
      if IsWordChar(s[0]) then [[s[0]] + rest[0]] + rest[1..] else [""] + rest
  }

  /** The non-empty strings of `ps`, in order. */
  function NonEmpty(ps: seq<string>): seq<string>
    decreases |ps|
  {
    if |ps| == 0 then [] else (if ps[0] == "" then [] else [ps[0]]) + NonEmpty(ps[1..])
  }

  /** Gluing a word-character prefix onto a string glues it onto that
      string's first piece. */
  lemma {:induction false} PiecesOfWordPrefix(p: string, t: string)
    requires forall i :: 0 <= i < |p| ==> IsWordChar(p[i])
    ensures Pieces(p + t) == [p + Pieces(t)[0]] + Pieces(t)[1..]
    decreases |p|
  {
    if |p| > 0 {
      PiecesOfWordPrefix(p[1..], t);
      assert (p + t)[1..] == p[1..] + t;
      var rest := Pieces(p[1..] + t);
      assert rest[0] == p[1..] + Pieces(t)[0];
      assert rest[1..] == Pieces(t)[1..];
      assert Pieces(p + t) == [[p[0]] + rest[0]] + rest[1..];
      assert [p[0]] + rest[0] == p + Pieces(t)[0] by {
        assert p == [p[0]] + p[1..];
      }
    } else {
      assert p + t == t && p + Pieces(t)[0] == Pieces(t)[0];
      assert Pieces(t) == [Pieces(t)[0]] + Pieces(t)[1..];
    }
  }

  /** The maximal runs are exactly the non-empty pieces of a split at every
      delimiter. */
  lemma {:induction false} WordsAreNonEmptyPieces(s: string)
    ensures Words(s) == NonEmpty(Pieces(s))
    decreases |s|
  {
    if |s| > 0 {
      if !IsWordChar(s[0]) {
        WordsAreNonEmptyPieces(s[1..]);
        assert NonEmpty([""] + Pieces(s[1..])) == NonEmpty(Pieces(s[1..]));
      } else {
        var n := RunLength(s);
        var t := s[n..];
        WordsAreNonEmptyPieces(t);
        assert s == s[..n] + t;
        PiecesOfWordPrefix(s[..n], t);
        var pt := Pieces(t);
        assert pt[0] == "" by {
          if |t| > 0 {
            assert !IsWordChar(t[0]);
          }
        }
        assert s[..n] + pt[0] == s[..n];
        var ps := [s[..n]] + pt[1..];
        assert Pieces(s) == ps;
        assert ps[0] == s[..n] && ps[1..] == pt[1..];
        assert NonEmpty(pt) == NonEmpty(pt[1..]) by {
          assert pt == [pt[0]] + pt[1..];
        }
      }
    }
  }

  /** The number of places where a run of word characters starts in `s`,
      scanning left to right; `inWord` says whether the character before `s`
      was a word character. */
  function RunStarts(s: string, inWord: bool): nat
    decreases |s|
  {
    if |s| == 0 then 0
    else (if IsWordChar(s[0]) && !inWord then 1 else 0) + RunStarts(s[1..], IsWordChar(s[0]))
  }

  lemma {:induction false} RunStartsSkipsWord(s: string, m: nat)
    requires m <= |s|
    requires forall i :: 0 <= i < m ==> IsWordChar(s[i])
    ensures RunStarts(s, true) == RunStarts(s[m..], true)
    decreases m
  {
    if m > 0 {
      RunStartsSkipsWord(s[1..], m - 1);
      assert s[1..][m - 1..] == s[m..];
    }
  }

  /** There is exactly one token per run of word characters. */
  lemma {:induction false} WordsCountRuns(s: string)
    ensures |Words(s)| == RunStarts(s, false)
    decreases |s|
  {
    if |s| > 0 {
      if !IsWordChar(s[0]) {
        WordsCountRuns(s[1..]);
      } else {
        var n := RunLength(s);
        WordsCountRuns(s[n..]);
        RunStartsSkipsWord(s[1..], n - 1);
        assert s[1..][n - 1..] == s[n..];
        var t := s[n..];
        if |t| > 0 {
          assert RunStarts(t, true) == RunStarts(t, false);
        }
      }
    }
  }

  /** The words of `ws` separated by single spaces. */
  function JoinSpaced(ws: seq<string>): string
    decreases |ws|
  {
    if |ws| == 0 then ""
    else if |ws| == 1 then ws[0]
    else ws[0] + " " + JoinSpaced(ws[1..])
  }

  /** Joining lower-case words adds nothing but spaces. */
  lemma {:induction false} JoinSpacedChars(ws: seq<string>)
    requires forall k :: 0 <= k < |ws| ==> AllWordChars(ws[k]) && NoUpper(ws[k])
    ensures NoUpper(JoinSpaced(ws))
    ensures forall i :: 0 <= i < |JoinSpaced(ws)| ==> JoinSpaced(ws)[i] == ' ' || IsWordChar(JoinSpaced(ws)[i])
    decreases |ws|
  {
    if |ws| > 1 {
      JoinSpacedChars(ws[1..]);
    }
  }

  lemma {:induction false} RunLengthOfWord(p: string, t: string)
    requires AllWordChars(p)
    requires |t| == 0 || !IsWordChar(t[0])
    ensures RunLength(p + t) == |p|
    decreases |p|
  {
    if |p| > 0 {
      RunLengthOfWord(p[1..], t);
      assert (p + t)[1..] == p[1..] + t;
    }
  }

  /** Joining runs of word characters with spaces and tokenizing again gives
      back the same runs. */
  lemma {:induction false} WordsOfJoinSpaced(ws: seq<string>)
    requires forall k :: 0 <= k < |ws| ==> |ws[k]| > 0 && AllWordChars(ws[k])
    ensures Words(JoinSpaced(ws)) == ws
    decreases |ws|
  {
    if |ws| == 1 {
      RunLengthOfWord(ws[0], "");
      assert ws[0] + "" == ws[0];
      assert ws[0][|ws[0]|..] == "";
    } else if |ws| > 1 {
      var w := ws[0];
      var rest := JoinSpaced(ws[1..]);
      var s := w + " " + rest;
      WordsOfJoinSpaced(ws[1..]);
      assert s == w + (" " + rest);
      RunLengthOfWord(w, " " + rest);
      assert s[..|w|] == w;
      assert s[|w|..] == " " + rest;
      assert (" " + rest)[1..] == rest;
      assert Words(" " + rest) == Words(rest);
      assert ws == [w] + ws[1..];
    }
  }
}
