/** Disjunctive normal form of a scan's predicates (`planner/scan_rules.go`): the OR of
    ANDs has the three-valued result of the original, its negated form that of the
    negation. A leaf the code panics on makes the result `None`. */
module DisjunctiveForm {
  import opened Values
  import opened Expressions

  type Term = seq<Expr>

  datatype Env = Env(schema: Schema, row: Row, like: LikeMatch)

  function At(e: Expr, env: Env): Value {
    Eval(e, env.schema, env.row, env.like)
  }

  // The transformation.

  function WithEach(l: Term, right: seq<Term>): seq<Term> {
    if right == [] then [] else WithEach(l, right[..|right| - 1]) + [l + right[|right| - 1]]
  }

  function CrossTerms(left: seq<Term>, right: seq<Term>): seq<Term> {
    if left == [] then [] else CrossTerms(left[..|left| - 1], right) + WithEach(left[|left| - 1], right)
  }

  /** The nested loops that pair every term of one side with every term of the other. */
  method CrossProduct(left: seq<Term>, right: seq<Term>) returns (terms: seq<Term>)
    ensures terms == CrossTerms(left, right)
  {
    terms := [];
    var i := 0;
    while i < |left|
      invariant 0 <= i <= |left| && terms == CrossTerms(left[..i], right)
    {
      var j := 0;
      while j < |right|
        invariant 0 <= j <= |right| && terms == CrossTerms(left[..i], right) + WithEach(left[i], right[..j])
      {
        assert right[..j + 1][..j] == right[..j];
        terms := terms + [left[i] + right[j]];
        j := j + 1;
      }
      assert right[..j] == right && left[..i + 1][..i] == left[..i];
      i := i + 1;
    }
    assert left[..i] == left;
  }

  function Distributed(left: seq<Term>, right: seq<Term>): seq<Term> {
    if left == [] then right else if right == [] then left else CrossTerms(left, right)
  }

  function ToDNFTerms(e: Expr): Option<seq<Term>> {
    match e
    case BinaryLogic(l, r, logic) =>
      var left, right := ToDNFTerms(l), ToDNFTerms(r);
      if left.None? || right.None? then None
      else if logic == Or then Some(left.value + right.value)
      else Some(Distributed(left.value, right.value))
    case Negation(c) => NegateToDNF(c)
    case Compared(_, _, _) => Some([[e]])
    case NullCheck(_, _) => Some([[e]])
    case Like(_, _) => Some([[e]])
    case _ => None
  }

  function NegateToDNF(e: Expr): Option<seq<Term>> {
    match e
    case Negation(c) => ToDNFTerms(c)
    case BinaryLogic(l, r, logic) =>
      var left, right := NegateToDNF(l), NegateToDNF(r);
      if left.None? || right.None? then None
      else if logic == And then Some(left.value + right.value)
      else Some(Distributed(left.value, right.value))
    case _ => Some([[Negation(e)]])
  }

  function PredicatesToDNFTerms(preds: seq<Expr>): Option<seq<Term>> {
    if preds == [] then Some([]) else ToDNFTerms(MergePredicates(preds))
  }

  // Three-valued algebra.

  predicate IsTruth(v: Value) {
    v == Truth(true) || v == Truth(false) || v == NullInt
  }

  lemma Distributes(a: Value, b: Value, c: Value)
    ensures EvalLogic(And, a, EvalLogic(Or, b, c)) == EvalLogic(Or, EvalLogic(And, a, b), EvalLogic(And, a, c))
    ensures EvalLogic(And, EvalLogic(Or, b, c), a) == EvalLogic(Or, EvalLogic(And, b, a), EvalLogic(And, c, a))
  {
  }

  lemma DeMorgan(a: Value, b: Value)
    requires TypeOf(a) == IntType && TypeOf(b) == IntType
    ensures EvalNot(EvalLogic(And, a, b)) == EvalLogic(Or, EvalNot(a), EvalNot(b))
    ensures EvalNot(EvalLogic(Or, a, b)) == EvalLogic(And, EvalNot(a), EvalNot(b))
  {
  }

  // The value of an OR of ANDs.

  function TermValue(term: Term, env: Env): Value {
    if term == [] then Truth(true)
    else EvalLogic(And, TermValue(term[..|term| - 1], env), At(term[|term| - 1], env))
  }

  function DnfValue(terms: seq<Term>, env: Env): Value {
    if terms == [] then Truth(false)
    else EvalLogic(Or, DnfValue(terms[..|terms| - 1], env), TermValue(terms[|terms| - 1], env))
  }

  lemma Associates(logic: Logic, a: Value, b: Value, c: Value)
    ensures EvalLogic(logic, EvalLogic(logic, a, b), c) == EvalLogic(logic, a, EvalLogic(logic, b, c))
  {
  }

  lemma TermPush(term: Term, literal: Expr, env: Env)
    ensures TermValue(term + [literal], env) == EvalLogic(And, TermValue(term, env), At(literal, env))
  {
    assert (term + [literal])[..|term|] == term;
  }

  lemma DnfPush(terms: seq<Term>, term: Term, env: Env)
    ensures DnfValue(terms + [term], env) == EvalLogic(Or, DnfValue(terms, env), TermValue(term, env))
  {
    assert (terms + [term])[..|terms|] == terms;
  }

  lemma {:induction false} TermConcat(p: Term, q: Term, env: Env)
    ensures TermValue(p + q, env) == EvalLogic(And, TermValue(p, env), TermValue(q, env))
  {
    if q == [] {
      assert p + q == p;
    } else {
      var front, last := q[..|q| - 1], q[|q| - 1];
      TermConcat(p, front, env);
      TermPush(p + front, last, env);
      Associates(And, TermValue(p, env), TermValue(front, env), At(last, env));
      assert p + q == (p + front) + [last];
    }
  }

  lemma {:induction false} DnfConcat(a: seq<Term>, b: seq<Term>, env: Env)
    ensures DnfValue(a + b, env) == EvalLogic(Or, DnfValue(a, env), DnfValue(b, env))
  {
    if b == [] {
      assert a + b == a;
    } else {
      var front, last := b[..|b| - 1], b[|b| - 1];
      DnfConcat(a, front, env);
      DnfPush(a + front, last, env);
      Associates(Or, DnfValue(a, env), DnfValue(front, env), TermValue(last, env));
      assert a + b == (a + front) + [last];
    }
  }

  lemma {:induction false} WithEachValue(l: Term, right: seq<Term>, env: Env)
    ensures DnfValue(WithEach(l, right), env) == EvalLogic(And, TermValue(l, env), DnfValue(right, env))
  {
    if right != [] {
      var front, last := right[..|right| - 1], right[|right| - 1];
      WithEachValue(l, front, env);
      TermConcat(l, last, env);
      Distributes(TermValue(l, env), DnfValue(front, env), TermValue(last, env));
      assert WithEach(l, right)[..|WithEach(l, right)| - 1] == WithEach(l, front);
    }
  }

  /** AND distributes over the two sides' terms. */
  lemma {:induction false} CrossValue(left: seq<Term>, right: seq<Term>, env: Env)
    ensures DnfValue(CrossTerms(left, right), env) == EvalLogic(And, DnfValue(left, env), DnfValue(right, env))
  {
    if left != [] {
      var front, last := left[..|left| - 1], left[|left| - 1];
      CrossValue(front, right, env);
      WithEachValue(last, right, env);
      Distributes(DnfValue(right, env), DnfValue(front, env), TermValue(last, env));
      DnfConcat(CrossTerms(front, right), WithEach(last, right), env);
    }
  }

  lemma CrossNonEmpty(left: seq<Term>, right: seq<Term>)
    requires left != [] && right != []
    ensures CrossTerms(left, right) != []
  {
  }

  lemma SingleValue(e: Expr, env: Env)
    requires IsTruth(At(e, env))
    ensures DnfValue([[e]], env) == At(e, env)
  {
    var t := [e];
    assert t[..|t| - 1] == [];
    assert TermValue(t, env) == At(e, env);
    var terms := [t];
    assert terms[..|terms| - 1] == [];
  }

  // Meaning.

  /** What sits below AND, OR and NOT evaluates to an integer or NULL. */
  predicate IntegerLeaves(e: Expr, env: Env) {
    match e
    case BinaryLogic(l, r, _) => IntegerLeaves(l, env) && IntegerLeaves(r, env)
    case Negation(c) => IntegerLeaves(c, env)
    case _ => TypeOf(At(e, env)) == IntType
  }

  /** Wherever the transformation succeeds it preserves the value, and never leaves an
      empty disjunction. */
  lemma {:induction false} DnfKeepsValue(e: Expr, env: Env)
    requires IntegerLeaves(e, env)
    ensures ToDNFTerms(e).Some? ==> ToDNFTerms(e).value != [] && DnfValue(ToDNFTerms(e).value, env) == At(e, env)
    ensures NegateToDNF(e).Some? ==>
      NegateToDNF(e).value != [] && DnfValue(NegateToDNF(e).value, env) == EvalNot(At(e, env))
  {
    if e.BinaryLogic? {
      DnfKeepsValue(e.left, env);
      DnfKeepsValue(e.right, env);
      if ToDNFTerms(e).Some? {
        LogicKeepsValue(e, env);
      }
      if NegateToDNF(e).Some? {
        LogicNegatesValue(e, env);
      }
    } else if e.Negation? {
      DnfKeepsValue(e.child, env);
      TransformedIsTruth(e.child, env);
    } else {
      TransformedIsTruth(e, env);
      if IsTruth(At(e, env)) {
        SingleValue(e, env);
      }
      SingleValue(Negation(e), env);
    }
  }

  lemma TransformedIsTruth(e: Expr, env: Env)
    ensures ToDNFTerms(e).Some? ==> IsTruth(At(e, env))
  {
  }

  lemma LogicKeepsValue(e: Expr, env: Env)
    requires e.BinaryLogic? && ToDNFTerms(e).Some?
    requires var l := ToDNFTerms(e.left); l.Some? ==> l.value != [] && DnfValue(l.value, env) == At(e.left, env)
    requires var r := ToDNFTerms(e.right); r.Some? ==> r.value != [] && DnfValue(r.value, env) == At(e.right, env)
    ensures ToDNFTerms(e).value != [] && DnfValue(ToDNFTerms(e).value, env) == At(e, env)
  {
    var l, r := ToDNFTerms(e.left).value, ToDNFTerms(e.right).value;
    DnfConcat(l, r, env);
    CrossValue(l, r, env);
    CrossNonEmpty(l, r);
  }

  lemma LogicNegatesValue(e: Expr, env: Env)
    requires e.BinaryLogic? && NegateToDNF(e).Some? && IntegerLeaves(e, env)
    requires var l := NegateToDNF(e.left); l.Some? ==>
      l.value != [] && DnfValue(l.value, env) == EvalNot(At(e.left, env))
    requires var r := NegateToDNF(e.right); r.Some? ==>
      r.value != [] && DnfValue(r.value, env) == EvalNot(At(e.right, env))
    ensures NegateToDNF(e).value != [] && DnfValue(NegateToDNF(e).value, env) == EvalNot(At(e, env))
  {
    var l, r := NegateToDNF(e.left).value, NegateToDNF(e.right).value;
    IntegerTyped(e.left, env);
    IntegerTyped(e.right, env);
    DeMorgan(At(e.left, env), At(e.right, env));
    DnfConcat(l, r, env);
    CrossValue(l, r, env);
    CrossNonEmpty(l, r);
  }

  lemma IntegerTyped(e: Expr, env: Env)
    requires IntegerLeaves(e, env)
    ensures TypeOf(At(e, env)) == IntType
  {
  }

  /** AND/OR/NOT trees over comparisons, null checks and LIKE. */
  predicate LogicTree(e: Expr) {
    match e
    case BinaryLogic(l, r, _) => LogicTree(l) && LogicTree(r)
    case Negation(c) => LogicTree(c)
    case _ => e.Compared? || e.NullCheck? || e.Like?
  }

  predicate IsLiteral(e: Expr) {
    if e.Negation? then IsLiteral(e.child) && !e.child.Negation? else e.Compared? || e.NullCheck? || e.Like?
  }

  ghost predicate AllLiterals(terms: seq<Term>) {
    forall t, e :: t in terms && e in t ==> IsLiteral(e)
  }

  lemma {:induction false} CrossLiterals(left: seq<Term>, right: seq<Term>)
    requires AllLiterals(left) && AllLiterals(right)
    ensures AllLiterals(CrossTerms(left, right))
  {
    if left != [] {
      var front, last := left[..|left| - 1], left[|left| - 1];
      CrossLiterals(front, right);
      assert last in left;
      WithEachLiterals(last, right);
    }
  }

  lemma {:induction false} WithEachLiterals(l: Term, right: seq<Term>)
    requires AllLiterals([l]) && AllLiterals(right)
    ensures AllLiterals(WithEach(l, right))
  {
    if right != [] {
      WithEachLiterals(l, right[..|right| - 1]);
      assert right[|right| - 1] in right && l in [l];
    }
  }

  /** On a logic tree the transformation never panics, and it leaves only atoms and
      negated atoms. */
  lemma {:induction false} LogicTreeToLiterals(e: Expr)
    requires LogicTree(e)
    ensures ToDNFTerms(e).Some? && AllLiterals(ToDNFTerms(e).value)
    ensures NegateToDNF(e).Some? && AllLiterals(NegateToDNF(e).value)
  {
    if e.BinaryLogic? {
      LogicTreeToLiterals(e.left);
      LogicTreeToLiterals(e.right);
      CrossLiterals(ToDNFTerms(e.left).value, ToDNFTerms(e.right).value);
      CrossLiterals(NegateToDNF(e.left).value, NegateToDNF(e.right).value);
    } else if e.Negation? {
      LogicTreeToLiterals(e.child);
    }
  }

  lemma {:induction false} LogicTreeLeaves(e: Expr, env: Env)
    requires LogicTree(e)
    ensures IntegerLeaves(e, env)
  {
    if e.BinaryLogic? {
      LogicTreeLeaves(e.left, env);
      LogicTreeLeaves(e.right, env);
    } else if e.Negation? {
      LogicTreeLeaves(e.child, env);
    }
  }

  /** The normal form of a logic tree: literals only, at least one term, the same
      three-valued result; and likewise for the negation. */
  lemma DnfOfLogicTree(e: Expr, env: Env)
    requires LogicTree(e)
    ensures ToDNFTerms(e).Some? && NegateToDNF(e).Some?
    ensures ToDNFTerms(e).value != [] && AllLiterals(ToDNFTerms(e).value)
    ensures NegateToDNF(e).value != [] && AllLiterals(NegateToDNF(e).value)
    ensures DnfValue(ToDNFTerms(e).value, env) == At(e, env)
    ensures DnfValue(NegateToDNF(e).value, env) == At(Negation(e), env)
  {
    LogicTreeToLiterals(e);
    LogicTreeLeaves(e, env);
    DnfKeepsValue(e, env);
  }

  lemma {:induction false} TermIsTrue(term: Term, env: Env)
    ensures ExprIsTrue(TermValue(term, env)) <==> AllTrue(term, env.schema, env.row, env.like)
  {
    if term != [] {
      var front, last := term[..|term| - 1], term[|term| - 1];
      TermIsTrue(front, env);
      AllTrueConcat(front, [last], env.schema, env.row, env.like);
      assert term == front + [last] && [last][0] == last;
    }
  }

  lemma {:induction false} DnfIsTrue(terms: seq<Term>, env: Env)
    ensures ExprIsTrue(DnfValue(terms, env)) <==> exists t :: t in terms && AllTrue(t, env.schema, env.row, env.like)
  {
    if terms != [] {
      var front, last := terms[..|terms| - 1], terms[|terms| - 1];
      DnfIsTrue(front, env);
      TermIsTrue(last, env);
      assert terms == front + [last];
    }
  }

  lemma {:induction false} MergedLogicTree(preds: seq<Expr>)
    requires preds != [] && forall p :: p in preds ==> LogicTree(p)
    ensures LogicTree(MergePredicates(preds))
  {
    if |preds| > 1 {
      MergedLogicTree(preds[..|preds| - 1]);
    }
    assert preds[|preds| - 1] in preds;
  }

  /** A row passes all the predicates of a scan exactly when it passes all the literals of
      some term. */
  lemma PredicatesDnfSelects(preds: seq<Expr>, env: Env)
    requires preds != [] && forall p :: p in preds ==> LogicTree(p)
    ensures PredicatesToDNFTerms(preds).Some?
    ensures AllTrue(preds, env.schema, env.row, env.like) <==>
      exists t :: t in PredicatesToDNFTerms(preds).value && AllTrue(t, env.schema, env.row, env.like)
  {
    MergedLogicTree(preds);
    DnfOfLogicTree(MergePredicates(preds), env);
    DnfIsTrue(PredicatesToDNFTerms(preds).value, env);
    MergeKeepsMeaning(preds, env.schema, env.row, env.like);
  }
}
