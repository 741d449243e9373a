/** Small shared vocabulary: an optional value, subsequences, and
    order-preserving filtering of a sequence. */
module Common {

  /** The conventional Some/None datatype. */
  datatype Option<+T> = None | Some(value: T)

  /** `a` can be obtained from `b` by deleting elements, keeping the order of
      the elements that remain. */
  predicate IsSubsequence<T(==)>(a: seq<T>, b: seq<T>)
    decreases |b|
  {
    |a| == 0
    || (|b| > 0 && ((a[0] == b[0] && IsSubsequence(a[1..], b[1..])) || IsSubsequence(a, b[1..])))
  }

  /** The elements of `s` that are not in `drop`, in their original order:
      the shape of a list comprehension `[x for x in s if x not in drop]`. */
  function Without<T(==,!new)>(s: seq<T>, drop: set<T>): (r: seq<T>)
    ensures forall k :: 0 <= k < |r| ==> r[k] !in drop && r[k] in s
    ensures forall x {:trigger multiset(r)[x]} :: x !in drop ==> multiset(r)[x] == multiset(s)[x]
    ensures forall x {:trigger multiset(r)[x]} :: x in drop ==> multiset(r)[x] == 0
    decreases |s|
  {
    if |s| == 0 then []
    else
      assert s == [s[0]] + s[1..];
      (if s[0] in drop then [] else [s[0]]) + Without(s[1..], drop)
  }

  /** Filtering only deletes: what is left is a subsequence of the input. */
  lemma {:induction false} WithoutIsSubsequence<T(!new)>(s: seq<T>, drop: set<T>)
    ensures IsSubsequence(Without(s, drop), s)
    decreases |s|
  {
    if |s| > 0 {
      WithoutIsSubsequence(s[1..], drop);
      var rest := Without(s[1..], drop);
      if s[0] !in drop {
        var r := [s[0]] + rest;
        assert Without(s, drop) == r;
        assert r[0] == s[0] && r[1..] == rest;
      } else {
        assert Without(s, drop) == rest;
      }
    }
  }

  /** Filtering a sequence that holds nothing to drop leaves it unchanged. */
  lemma {:induction false} WithoutNothing<T(!new)>(s: seq<T>, drop: set<T>)
    requires forall k :: 0 <= k < |s| ==> s[k] !in drop
    ensures Without(s, drop) == s
    decreases |s|
  {
    if |s| > 0 {
      WithoutNothing(s[1..], drop);
      assert s == [s[0]] + s[1..];
    }
  }

  /** How many elements of `s` lie in `drop`, counted with repetition. */
  function CountIn<T(==)>(s: seq<T>, drop: set<T>): nat
    decreases |s|
  {
    if |s| == 0 then 0 else (if s[0] in drop then 1 else 0) + CountIn(s[1..], drop)
  }

  /** Filtering removes exactly the elements that lie in `drop`. */
  lemma {:induction false} WithoutLength<T(!new)>(s: seq<T>, drop: set<T>)
    ensures |Without(s, drop)| == |s| - CountIn(s, drop)
    decreases |s|
  {
    if |s| > 0 {
      WithoutLength(s[1..], drop);
    }
  }
}
