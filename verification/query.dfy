/** The boolean query syntax of `Ir.py`: the whole-word operators `and`,
    `or` and `not`, the split of a query into term groups around them
    (`re.split`), the list of operators in order (`re.findall`), and the
    classifier `process_query` (`re.search`). The regular expression
    `\band\b|\bor\b|\bnot\b` is written out by hand: an operator matches at
    a position when its letters are there and no word character touches it
    on either side. */
module Query {
  import opened Common
  import opened Text

  datatype Op = And | Or | Not

  /** The text of an operator as it appears in a lower-cased query. */
  function Keyword(op: Op): string
  {
    match op
    case And => "and"
    case Or => "or"
    case Not => "not"
  }

  /** The letters of the operator stand at position `i` of `q`. */
  predicate LettersAt(q: string, i: nat, op: Op)
  {
    match op
    case And => i + 3 <= |q| && q[i] == 'a' && q[i + 1] == 'n' && q[i + 2] == 'd'
    case Or => i + 2 <= |q| && q[i] == 'o' && q[i + 1] == 'r'
    case Not => i + 3 <= |q| && q[i] == 'n' && q[i + 1] == 'o' && q[i + 2] == 't'
  }

  /** `\bop\b` matches at position `i` of `q`: the operator's letters are
      there, and the characters just before and just after them (if any)
      are not word characters. */
  predicate WholeWordAt(q: string, i: nat, op: Op)
  {
    LettersAt(q, i, op)
    && (i == 0 || !IsWordChar(q[i - 1]))
    && (i + |Keyword(op)| == |q| || !IsWordChar(q[i + |Keyword(op)|]))
  }

  lemma LettersSpellKeyword(q: string, i: nat, op: Op)
    requires LettersAt(q, i, op)
    ensures i + |Keyword(op)| <= |q| && q[i..i + |Keyword(op)|] == Keyword(op)
  {
  }

  /** The alternation tried at position `i`: the first operator that
      matches there as a whole word. */
  function OperatorAt(q: string, i: nat): (r: Option<Op>)
    ensures r.Some? ==> WholeWordAt(q, i, r.value) && i + |Keyword(r.value)| <= |q|
  {
    if WholeWordAt(q, i, And) then Some(And)
    else if WholeWordAt(q, i, Or) then Some(Or)
    else if WholeWordAt(q, i, Not) then Some(Not)
    else None
  }

  /** The three operators start with different letters, so at most one
      alternative can match at a position and the order in which they are
      tried does not matter: an operator is reported exactly when it
      matches. */
  lemma OperatorAtUnique(q: string, i: nat, op: Op)
    ensures OperatorAt(q, i) == Some(op) <==> WholeWordAt(q, i, op)
  {
  }

  /** `re.split` from position `i` on, the current group having started at
      `start`: at an operator the group is closed and scanning resumes after
      the operator; elsewhere scanning moves one character on. */
  function SplitFrom(q: string, i: nat, start: nat): (groups: seq<string>)
    requires start <= i <= |q|
    ensures |groups| >= 1
    decreases |q| - i
  {
    if i == |q| then [q[start..]]
    else
      match OperatorAt(q, i)
      case Some(op) => [q[start..i]] + SplitFrom(q, i + |Keyword(op)|, i + |Keyword(op)|)
      case None => SplitFrom(q, i + 1, start)
  }

  /** The term groups of a query: the text between consecutive operators. */
  function SplitGroups(q: string): (groups: seq<string>)
    ensures |groups| >= 1
  {
    SplitFrom(q, 0, 0)
  }

  /** `re.findall` from position `i` on, with the same scanning as `SplitFrom`. */
  function FindFrom(q: string, i: nat): seq<Op>
    requires i <= |q|
    decreases |q| - i
  {
    if i == |q| then []
    else
      match OperatorAt(q, i)
      case Some(op) => [op] + FindFrom(q, i + |Keyword(op)|)
      case None => FindFrom(q, i + 1)
  }

  /** The operators of a query, left to right. */
  function FindOperators(q: string): seq<Op>
  {
    FindFrom(q, 0)
  }

  /** Groups and operators put back together: g0 op0 g1 op1 ... gn. */
  function Interleave(groups: seq<string>, ops: seq<Op>): string
    requires |groups| == |ops| + 1
    decreases |ops|
  {
    if |ops| == 0 then groups[0]
    else groups[0] + Keyword(ops[0]) + Interleave(groups[1..], ops[1..])
  }

  lemma InterleaveCons(g: string, op: Op, groups: seq<string>, ops: seq<Op>)
    requires |groups| == |ops| + 1
    ensures Interleave([g] + groups, [op] + ops) == g + Keyword(op) + Interleave(groups, ops)
  {
    assert ([g] + groups)[1..] == groups;
    assert ([op] + ops)[1..] == ops;
  }

  lemma {:induction false} SplitFromRoundTrip(q: string, i: nat, start: nat)
    requires start <= i <= |q|
    ensures |SplitFrom(q, i, start)| == |FindFrom(q, i)| + 1
    ensures Interleave(SplitFrom(q, i, start), FindFrom(q, i)) == q[start..]
    decreases |q| - i
  {
    SplitFromLength(q, i, start);
    if i < |q| {
      var op, next := ScanStep(q, i, start);
      if op.None? {
        SplitFromRoundTrip(q, next, start);
      } else {
        SplitFromRoundTrip(q, next, next);
        RejoinAtOperator(q, start, i, op.value, SplitFrom(q, next, next), FindFrom(q, next));
      }
    }
  }

  /** The groups after an operator, rejoined with the group before it. */
  lemma RejoinAtOperator(q: string, start: nat, i: nat, op: Op, groups: seq<string>, ops: seq<Op>)
    requires start <= i && LettersAt(q, i, op) && i + |Keyword(op)| <= |q|
    requires |groups| == |ops| + 1 && Interleave(groups, ops) == q[i + |Keyword(op)|..]
    ensures Interleave([q[start..i]] + groups, [op] + ops) == q[start..]
  {
    InterleaveCons(q[start..i], op, groups, ops);
    RecomposeAtOperator(q, start, i, op);
  }

  lemma RecomposeAtOperator(q: string, start: nat, i: nat, op: Op)
    requires start <= i && LettersAt(q, i, op)
    ensures q[start..] == q[start..i] + Keyword(op) + q[i + |Keyword(op)|..]
  {
    LettersSpellKeyword(q, i, op);
    var j := i + |Keyword(op)|;
    assert q[start..] == q[start..i] + q[i..j] + q[j..];
  }

  /** Splitting and finding see the same operators: there is exactly one
      more group than operators (so the first group always exists and `zip`
      pairs every operator with a group), and the groups interleaved with
      the operators give back the query. */
  lemma SplitRoundTrip(q: string)
    ensures |SplitGroups(q)| == |FindOperators(q)| + 1
    ensures Interleave(SplitGroups(q), FindOperators(q)) == q
  {
    SplitFromRoundTrip(q, 0, 0);
  }

  /** No operator matches anywhere in `g`. */
  predicate NoOperator(g: string)
  {
    forall j :: 0 <= j < |g| ==> OperatorAt(g, j).None?
  }

  /** A match inside the slice `q[start..e]` is a match in `q` when the slice
      is bounded by non-word characters or by the ends of `q`. */
  lemma LocalMatchIsGlobal(q: string, start: nat, e: nat, j: nat, op: Op)
    requires start <= e <= |q| && j < e - start
    requires start == 0 || !IsWordChar(q[start])
    requires e == |q| || !IsWordChar(q[e - 1])
    ensures WholeWordAt(q[start..e], j, op) ==> WholeWordAt(q, start + j, op)
  {
    var g := q[start..e];
    if WholeWordAt(g, j, op) {
      var n := |Keyword(op)|;
      assert g[j] == q[start + j] && g[j + 1] == q[start + j + 1];
      if n == 3 {
        assert g[j + 2] == q[start + j + 2];
      }
      assert LettersAt(q, start + j, op);
      if j > 0 {
        assert g[j - 1] == q[start + j - 1];
      }
      if j + n < |g| {
        assert g[j + n] == q[start + j + n];
      } else {
        assert g[j + n - 1] == q[e - 1];
      }
    }
  }

  /** A stretch of `q` in which the scan met no operator, bounded by
      non-word characters or by the ends of `q`, holds no operator of its
      own either. */
  lemma GroupHasNoOperator(q: string, start: nat, e: nat)
    requires start <= e <= |q|
    requires start == 0 || start == e || !IsWordChar(q[start])
    requires e == |q| || e == start || !IsWordChar(q[e - 1])
    requires forall j :: start <= j < e ==> OperatorAt(q, j).None?
    ensures NoOperator(q[start..e])
  {
    var g := q[start..e];
    forall j | 0 <= j < |g|
      ensures OperatorAt(g, j).None?
    {
      forall op
        ensures !WholeWordAt(g, j, op)
      {
        LocalMatchIsGlobal(q, start, e, j, op);
        OperatorAtUnique(q, start + j, op);
      }
    }
  }

  lemma {:induction false} SplitFromGroupsClean(q: string, i: nat, start: nat)
    requires start <= i <= |q|
    requires start == 0 || start == |q| || !IsWordChar(q[start])
    requires forall j :: start <= j < i ==> OperatorAt(q, j).None?
    ensures forall k :: 0 <= k < |SplitFrom(q, i, start)| ==> NoOperator(SplitFrom(q, i, start)[k])
    decreases |q| - i
  {
    if i == |q| {
      GroupHasNoOperator(q, start, |q|);
      assert q[start..|q|] == q[start..];
      assert SplitFrom(q, i, start) == [q[start..]];
    } else {
      match OperatorAt(q, i)
      case Some(op) =>
        var j := i + |Keyword(op)|;
        GroupHasNoOperator(q, start, i);
        SplitFromGroupsClean(q, j, j);
        var rest := SplitFrom(q, j, j);
        assert SplitFrom(q, i, start) == [q[start..i]] + rest;
      case None =>
        SplitFromGroupsClean(q, i + 1, start);
    }
  }

  /** The split cuts at every operator: no group still holds an operator
      that `re.search` would find. */
  lemma SplitGroupsHaveNoOperator(q: string)
    ensures forall k :: 0 <= k < |SplitGroups(q)| ==> !SearchFrom(SplitGroups(q)[k], 0)
  {
    SplitFromGroupsClean(q, 0, 0);
  }

  /** Where the `k`-th operator starts once `groups` and `ops` are
      interleaved: the groups and operators in front of it, added up. */
  function Offset(groups: seq<string>, ops: seq<Op>, k: nat): nat
    requires |groups| == |ops| + 1 && k < |ops|
    decreases k
  {
    if k == 0 then |groups[0]| else |groups[0]| + |Keyword(ops[0])| + Offset(groups[1..], ops[1..], k - 1)
  }

  /** The offset is the length of the interleaved text in front of the
      `k`-th operator. */
  lemma {:induction false} OffsetIsPrefixLength(groups: seq<string>, ops: seq<Op>, k: nat)
    requires |groups| == |ops| + 1 && k < |ops|
    ensures Offset(groups, ops, k) == |Interleave(groups[..k + 1], ops[..k])|
    decreases k
  {
    if k > 0 {
      OffsetIsPrefixLength(groups[1..], ops[1..], k - 1);
      assert groups[..k + 1] == [groups[0]] + groups[1..][..k];
      assert ops[..k] == [ops[0]] + ops[1..][..k - 1];
      InterleaveCons(groups[0], ops[0], groups[1..][..k], ops[1..][..k - 1]);
    }
  }

  /** Where the scan from `i` finds its operators, in order: the positions
      `re.finditer` would report. */
  function CutsFrom(q: string, i: nat): (cs: seq<nat>)
    requires i <= |q|
    ensures |cs| == |FindFrom(q, i)|
    decreases |q| - i
  {
    if i == |q| then []
    else
      match OperatorAt(q, i)
      case Some(op) => [i] + CutsFrom(q, i + |Keyword(op)|)
      case None => CutsFrom(q, i + 1)
  }

  /** The split yields one group more than there are operators. */
  lemma {:induction false} SplitFromLength(q: string, i: nat, start: nat)
    requires start <= i <= |q|
    ensures |SplitFrom(q, i, start)| == |FindFrom(q, i)| + 1
    decreases |q| - i
  {
    if i < |q| {
      var op, next := ScanStep(q, i, start);
      if op.None? {
        SplitFromLength(q, next, start);
      } else {
        SplitFromLength(q, next, next);
      }
    }
  }

  /** One scanning step at position `i`: either no operator stands there
      and the scan moves one character on, or operator `op` does and the
      group is closed, the operator recorded and its position noted. */
  lemma ScanStep(q: string, i: nat, start: nat) returns (op: Option<Op>, next: nat)
    requires start <= i < |q|
    ensures op.None? ==> (next == i + 1
      && SplitFrom(q, i, start) == SplitFrom(q, next, start)
      && FindFrom(q, i) == FindFrom(q, next)
      && CutsFrom(q, i) == CutsFrom(q, next))
    ensures op.Some? ==> (OperatorAt(q, i) == op && next == i + |Keyword(op.value)| <= |q|
      && SplitFrom(q, i, start) == [q[start..i]] + SplitFrom(q, next, next)
      && FindFrom(q, i) == [op.value] + FindFrom(q, next)
      && CutsFrom(q, i) == [i] + CutsFrom(q, next))
  {
    op := OperatorAt(q, i);
    next := if op.Some? then i + |Keyword(op.value)| else i + 1;
  }

  /** The `k`-th position the scan reports holds, as a whole word, the
      `k`-th operator it lists. */
  lemma {:induction false} CutsHoldOperators(q: string, i: nat, k: nat)
    requires i <= |q| && k < |FindFrom(q, i)|
    ensures i <= CutsFrom(q, i)[k] < |q|
    ensures OperatorAt(q, CutsFrom(q, i)[k]) == Some(FindFrom(q, i)[k])
    decreases |q| - i
  {
    assert i < |q|;
    var op, next := ScanStep(q, i, i);
    if op.None? {
      CutsHoldOperators(q, next, k);
      assert CutsFrom(q, i)[k] == CutsFrom(q, next)[k] && FindFrom(q, i)[k] == FindFrom(q, next)[k];
    } else if k > 0 {
      CutsHoldOperators(q, next, k - 1);
      assert CutsFrom(q, i)[k] == CutsFrom(q, next)[k - 1] && FindFrom(q, i)[k] == FindFrom(q, next)[k - 1];
    }
  }

  /** The `k`-th cut of the scan is where the round trip puts the `k`-th
      operator. */
  lemma {:induction false} CutsAreOffsets(q: string, i: nat, start: nat, k: nat)
    requires start <= i <= |q| && k < |FindFrom(q, i)|
    ensures |SplitFrom(q, i, start)| == |FindFrom(q, i)| + 1
    ensures start + Offset(SplitFrom(q, i, start), FindFrom(q, i), k) == CutsFrom(q, i)[k]
    decreases |q| - i
  {
    SplitFromLength(q, i, start);
    assert i < |q|;
    var op, next := ScanStep(q, i, start);
    if op.None? {
      CutsAreOffsets(q, next, start, k);
      assert CutsFrom(q, i)[k] == CutsFrom(q, next)[k];
    } else {
      SplitFromLength(q, next, next);
      if k > 0 {
        CutsAreOffsets(q, next, next, k - 1);
      }
      OffsetOverOperator(start, i, k, q[start..i], op.value, SplitFrom(q, next, next), FindFrom(q, next), CutsFrom(q, next));
    }
  }

  /** The inductive step of `CutsAreOffsets` over an operator, on plain
      sequences: a leading group of length `i - start` and an operator at
      `i` shift every later offset and cut alike. */
  lemma OffsetOverOperator(start: nat, i: nat, k: nat, g: string, op: Op, gs: seq<string>, os: seq<Op>, cs: seq<nat>)
    requires |g| == i - start && |gs| == |os| + 1 && |cs| == |os| && k <= |os|
    requires k > 0 ==> i + |Keyword(op)| + Offset(gs, os, k - 1) == cs[k - 1]
    ensures start + Offset([g] + gs, [op] + os, k) == ([i] + cs)[k]
  {
    OffsetCons(g, op, gs, os, k);
  }

  /** Offsets after one more leading group and operator. */
  lemma OffsetCons(g: string, op: Op, gs: seq<string>, os: seq<Op>, k: nat)
    requires |gs| == |os| + 1 && k <= |os|
    ensures Offset([g] + gs, [op] + os, k) == if k == 0 then |g| else |g| + |Keyword(op)| + Offset(gs, os, k - 1)
  {
    assert ([g] + gs)[0] == g && ([g] + gs)[1..] == gs;
    assert ([op] + os)[0] == op && ([op] + os)[1..] == os;
  }

  /** The split cuts only at whole-word operators: the `k`-th operator
      stands, as that operator and as a whole word, exactly where the
      round trip puts it between the groups. */
  lemma SplitCutsAreOperators(q: string)
    ensures |SplitGroups(q)| == |FindOperators(q)| + 1
    ensures forall k :: 0 <= k < |FindOperators(q)| ==>
      OperatorAt(q, |Interleave(SplitGroups(q)[..k + 1], FindOperators(q)[..k])|) == Some(FindOperators(q)[k])
  {
    var groups, ops := SplitGroups(q), FindOperators(q);
    assert groups == SplitFrom(q, 0, 0) && ops == FindFrom(q, 0);
    SplitFromLength(q, 0, 0);
    forall k | 0 <= k < |ops|
      ensures OperatorAt(q, |Interleave(groups[..k + 1], ops[..k])|) == Some(ops[k])
    {
      CutsAreOffsets(q, 0, 0, k);
      CutsHoldOperators(q, 0, k);
      OffsetIsPrefixLength(groups, ops, k);
    }
  }

  /** `re.search` from position `i` on: does any position at or after `i`
      hold a whole-word operator? */
  function SearchFrom(q: string, i: nat): (found: bool)
    requires i <= |q|
    ensures found <==> exists j :: i <= j < |q| && OperatorAt(q, j).Some?
    decreases |q| - i
  {
    if i == |q| then false
    else OperatorAt(q, i).Some? || SearchFrom(q, i + 1)
  }

  /** `process_query`: the trimmed, lower-cased query contains a whole-word
      operator. */
  function IsBooleanQuery(q: string): (b: bool)
    ensures b <==> exists j :: 0 <= j < |Lower(Strip(q))| && OperatorAt(Lower(Strip(q)), j).Some?
  {
    SearchFrom(Lower(Strip(q)), 0)
  }

  /** `findall` finds nothing exactly when `search` fails. */
  lemma {:induction false} FindFromEmpty(q: string, i: nat)
    requires i <= |q|
    ensures |FindFrom(q, i)| == 0 <==> !SearchFrom(q, i)
    decreases |q| - i
  {
    if i < |q| && OperatorAt(q, i).None? {
      FindFromEmpty(q, i + 1);
    }
  }

  /** No operator starts at a whitespace character. */
  lemma NoOperatorAtSpace(q: string, k: nat)
    requires k < |q| && IsSpace(q[k])
    ensures OperatorAt(q, k).None?
  {
  }

  /** Cutting whitespace off both ends of a string does not change which
      operators occur in what remains. */
  lemma OperatorInWindow(q: string, lo: nat, n: nat, j: nat)
    requires lo + n <= |q| && j < n
    requires forall k :: 0 <= k < lo ==> IsSpace(q[k])
    requires forall k :: lo + n <= k < |q| ==> IsSpace(q[k])
    ensures OperatorAt(q[lo..lo + n], j) == OperatorAt(q, lo + j)
  {
    var r := q[lo..lo + n];
    forall op
      ensures WholeWordAt(r, j, op) <==> WholeWordAt(q, lo + j, op)
    {
      var e := j + |Keyword(op)|;
      if e <= n {
        assert r[j] == q[lo + j] && r[j + 1] == q[lo + j + 1];
        if e == j + 3 {
          assert r[j + 2] == q[lo + j + 2];
        }
        assert LettersAt(r, j, op) <==> LettersAt(q, lo + j, op);
      }
      if j > 0 {
        assert r[j - 1] == q[lo + j - 1];
      } else if lo > 0 {
        assert IsSpace(q[lo - 1]);
      }
      if e < n {
        assert r[e] == q[lo + e];
      } else if e == n && lo + n < |q| {
        assert IsSpace(q[lo + n]);
      }
    }
  }

  /** Lower-casing commutes with taking a slice. */
  lemma LowerSlice(q: string, lo: nat, n: nat)
    requires lo + n <= |q|
    ensures Lower(q[lo..lo + n]) == Lower(q)[lo..lo + n]
  {
  }

  lemma SearchFinds(q: string, j: nat)
    requires j < |q| && OperatorAt(q, j).Some?
    ensures SearchFrom(q, 0)
  {
  }

  /** Searching a string gives the same answer as searching the part of
      it that lies between whitespace margins. */
  lemma SearchInWindow(q: string, lo: nat, n: nat)
    requires lo + n <= |q|
    requires forall k :: 0 <= k < lo ==> IsSpace(q[k])
    requires forall k :: lo + n <= k < |q| ==> IsSpace(q[k])
    ensures SearchFrom(q[lo..lo + n], 0) <==> SearchFrom(q, 0)
  {
    if SearchFrom(q[lo..lo + n], 0) {
      WindowToWhole(q, lo, n);
    }
    if SearchFrom(q, 0) {
      WholeToWindow(q, lo, n);
    }
  }

  lemma WindowToWhole(q: string, lo: nat, n: nat)
    requires lo + n <= |q|
    requires forall k :: 0 <= k < lo ==> IsSpace(q[k])
    requires forall k :: lo + n <= k < |q| ==> IsSpace(q[k])
    requires SearchFrom(q[lo..lo + n], 0)
    ensures SearchFrom(q, 0)
  {
    var r := q[lo..lo + n];
    var j :| 0 <= j < |r| && OperatorAt(r, j).Some?;
    OperatorInWindow(q, lo, n, j);
    SearchFinds(q, lo + j);
  }

  lemma WholeToWindow(q: string, lo: nat, n: nat)
    requires lo + n <= |q|
    requires forall k :: 0 <= k < lo ==> IsSpace(q[k])
    requires forall k :: lo + n <= k < |q| ==> IsSpace(q[k])
    requires SearchFrom(q, 0)
    ensures SearchFrom(q[lo..lo + n], 0)
  {
    var k :| 0 <= k < |q| && OperatorAt(q, k).Some?;
    if k < lo || k >= lo + n {
      NoOperatorAtSpace(q, k);
    } else {
      var j := k - lo;
      assert lo + j == k;
      OperatorInWindow(q, lo, n, j);
      SearchFinds(q[lo..lo + n], j);
    }
  }

  /** Lower-casing keeps whitespace margins. */
  lemma LowerMargins(q: string, lo: nat, n: nat)
    requires lo + n <= |q|
    requires AllSpace(q[..lo]) && AllSpace(q[lo + n..])
    ensures forall k :: 0 <= k < lo ==> IsSpace(Lower(q)[k])
    ensures forall k :: lo + n <= k < |q| ==> IsSpace(Lower(q)[k])
  {
    forall k | 0 <= k < lo
      ensures IsSpace(Lower(q)[k])
    {
      assert q[..lo][k] == q[k];
    }
    forall k | lo + n <= k < |q|
      ensures IsSpace(Lower(q)[k])
    {
      assert q[lo + n..][k - lo - n] == q[k];
    }
  }

  /** Trimming the query before the search does not change its answer. */
  lemma StripKeepsOperators(q: string)
    ensures SearchFrom(Lower(Strip(q)), 0) <==> SearchFrom(Lower(q), 0)
  {
    var lo, hi :| 0 <= lo <= hi <= |q| && Strip(q) == q[lo..hi] && AllSpace(q[..lo]) && AllSpace(q[hi..]);
    var n := hi - lo;
    assert lo + n == hi;
    TrimmedKeepsOperators(q, lo, n);
  }

  lemma TrimmedKeepsOperators(q: string, lo: nat, n: nat)
    requires lo + n <= |q|
    requires AllSpace(q[..lo]) && AllSpace(q[lo + n..])
    ensures SearchFrom(Lower(q[lo..lo + n]), 0) <==> SearchFrom(Lower(q), 0)
  {
    LowerSlice(q, lo, n);
    LowerMargins(q, lo, n);
    SearchInWindow(Lower(q), lo, n);
  }

  /** `process_query` answers yes exactly when the evaluator, working on the
      lower-cased query without trimming it, finds at least one operator,
      that is, splits the query into at least two groups. */
  lemma ClassifierAgreesWithSplit(q: string)
    ensures IsBooleanQuery(q) <==> |FindOperators(Lower(q))| > 0
    ensures IsBooleanQuery(q) <==> |SplitGroups(Lower(q))| > 1
  {
    StripKeepsOperators(q);
    FindFromEmpty(Lower(q), 0);
    SplitRoundTrip(Lower(q));
  }
}
