/** The operator fold of `boolean_retrieval_with_positions`: the running
    result starts as the first group's documents and each operator combines
    it with the next group's documents, strictly left to right with no
    precedence: intersection for AND, union for OR, difference for NOT. */
module BooleanFold {
  import opened Query

  /** One step of the loop over `zip(operators, doc_sets[1:])`. */
  function Apply<T>(op: Op, acc: set<T>, right: set<T>): (r: set<T>)
    ensures op == And ==> r <= acc && r <= right && forall x :: x in acc && x in right ==> x in r
    ensures op == Or ==> acc <= r && right <= r && forall x :: x in r ==> x in acc || x in right
    ensures op == Not ==> r <= acc && r !! right && forall x :: x in acc && x !in right ==> x in r
  {
    match op
    case And => acc * right
    case Or => acc + right
    case Not => acc - right
  }

  /** Everything in any of the sets. */
  function UnionAll<T>(sets: seq<set<T>>): (u: set<T>)
    ensures forall k :: 0 <= k < |sets| ==> sets[k] <= u
    ensures forall x :: x in u ==> exists k :: 0 <= k < |sets| && x in sets[k]
    decreases |sets|
  {
    if |sets| == 0 then {}
    else sets[0] + UnionAll(sets[1..])
  }

  /** The loop: operators and sets are taken in pairs from the front, and
      like `zip` it stops at the end of the shorter list. No step can bring
      in anything that is in neither the start nor one of the sets. */
  function Fold<T>(acc: set<T>, ops: seq<Op>, sets: seq<set<T>>): (r: set<T>)
    ensures r <= acc + UnionAll(sets)
    decreases |ops|
  {
    if |ops| == 0 || |sets| == 0 then acc
    else Fold(Apply(ops[0], acc, sets[0]), ops[1..], sets[1..])
  }

  /** The result over the groups of a query: the first group's set folded
      with the operators and the remaining sets. */
  function Combine<T>(sets: seq<set<T>>, ops: seq<Op>): (r: set<T>)
    requires |sets| >= 1
    ensures r <= UnionAll(sets)
  {
    assert UnionAll(sets) == sets[0] + UnionAll(sets[1..]);
    Fold(sets[0], ops, sets[1..])
  }

  /** Reference semantics: a binary expression tree over document sets. */
  datatype Expr<T> = Leaf(docs: set<T>) | Node(op: Op, left: Expr<T>, right: Expr<T>)

  function Eval<T>(e: Expr<T>): set<T>
  {
    match e
    case Leaf(s) => s
    case Node(op, l, r) => Apply(op, Eval(l), Eval(r))
  }

  /** The tree that reads `s0 op0 s1 op1 ... sn` as a left-associated
      expression, `((s0 op0 s1) op1 s2) ...`, built from its last operator. */
  function LeftAssociated<T>(sets: seq<set<T>>, ops: seq<Op>): Expr<T>
    requires |sets| == |ops| + 1
    decreases |ops|
  {
    if |ops| == 0 then Leaf(sets[0])
    else
      var n := |ops| - 1;
      Node(ops[n], LeftAssociated(sets[..n + 1], ops[..n]), Leaf(sets[n + 1]))
  }

  /** Folding one more operator and set applies the operator last. */
  lemma {:induction false} FoldSnoc<T>(acc: set<T>, ops: seq<Op>, sets: seq<set<T>>, op: Op, s: set<T>)
    requires |ops| == |sets|
    ensures Fold(acc, ops + [op], sets + [s]) == Apply(op, Fold(acc, ops, sets), s)
    decreases |ops|
  {
    if |ops| > 0 {
      assert (ops + [op])[1..] == ops[1..] + [op];
      assert (sets + [s])[1..] == sets[1..] + [s];
      FoldSnoc(Apply(ops[0], acc, sets[0]), ops[1..], sets[1..], op, s);
    }
  }

  /** The loop evaluates the query strictly left to right: the same result
      as the left-associated expression tree, with no operator binding
      tighter than another. */
  lemma {:induction false} CombineIsLeftAssociative<T>(sets: seq<set<T>>, ops: seq<Op>)
    requires |sets| == |ops| + 1
    ensures Combine(sets, ops) == Eval(LeftAssociated(sets, ops))
    decreases |ops|
  {
    if |ops| > 0 {
      var n := |ops| - 1;
      CombineIsLeftAssociative(sets[..n + 1], ops[..n]);
      assert sets[..n + 1][1..] == sets[1..n + 1];
      assert ops == ops[..n] + [ops[n]];
      assert sets[1..] == sets[1..n + 1] + [sets[n + 1]];
      FoldSnoc(sets[0], ops[..n], sets[1..n + 1], ops[n], sets[n + 1]);
    }
  }

  /** A query whose operators are all OR returns every document of every group. */
  lemma {:induction false} AllOrIsUnion<T>(acc: set<T>, ops: seq<Op>, sets: seq<set<T>>)
    requires |ops| == |sets|
    requires forall k :: 0 <= k < |ops| ==> ops[k] == Or
    ensures Fold(acc, ops, sets) == acc + UnionAll(sets)
    decreases |ops|
  {
    if |ops| > 0 {
      AllOrIsUnion(acc + sets[0], ops[1..], sets[1..]);
    }
  }

  /** A query whose operators are all AND returns only documents found in
      every group. */
  lemma {:induction false} AllAndIsIntersection<T>(acc: set<T>, ops: seq<Op>, sets: seq<set<T>>)
    requires |ops| == |sets|
    requires forall k :: 0 <= k < |ops| ==> ops[k] == And
    ensures Fold(acc, ops, sets) <= acc
    ensures forall k :: 0 <= k < |sets| ==> Fold(acc, ops, sets) <= sets[k]
    ensures forall x :: x in acc && (forall k :: 0 <= k < |sets| ==> x in sets[k]) ==> x in Fold(acc, ops, sets)
    decreases |ops|
  {
    if |ops| > 0 {
      AllAndIsIntersection(acc * sets[0], ops[1..], sets[1..]);
      var r := Fold(acc, ops, sets);
      forall k | 0 <= k < |sets|
        ensures r <= sets[k]
      {
        if k > 0 {
          assert sets[k] == sets[1..][k - 1];
        }
      }
      forall x | x in acc && (forall k :: 0 <= k < |sets| ==> x in sets[k])
        ensures x in r
      {
        assert x in sets[0];
        forall k | 0 <= k < |sets[1..]|
          ensures x in sets[1..][k]
        {
          assert sets[1..][k] == sets[k + 1];
        }
      }
    }
  }
}
