/** How far predicate pushdown gets. The driver applies the rule once per node on the way
    down, so a filter that ends up on another filter is not looked at again. */
module PushdownFixpoint {
  import opened Expressions
  import opened LogicalPlans
  import opened PredicatePushdown
  import opened PushdownPlacement

  /** A conjunct above a join has somewhere to go: any above an inner or cross join, and above
      an outer join those over the preserved side's columns alone. */
  predicate CanLeave(t: JoinType, sl: Schema, sr: Schema, e: Expr) {
    || t == Inner || t == Cross
    || (t == Left && OnlyIn(sl, sr, e))
    || (t == Right && OnlyIn(sr, sl, e))
  }

  predicate SomeLeaves(conjuncts: seq<Expr>, t: JoinType, sl: Schema, sr: Schema) {
    exists i :: 0 <= i < |conjuncts| && CanLeave(t, sl, sr, conjuncts[i])
  }

  /** The rule has something to push at this node. */
  predicate Pushable(p: Plan) {
    && p.Filter?
    && (p.child.Scan? ==> OwnColumns(p.condition, p.child.ref.alias))
    && (p.child.Join? ==>
          SomeLeaves(SplitPredicate(p.condition), p.child.joinType, OutputSchema(p.child.left),
                     OutputSchema(p.child.right)))
    && (p.child.Scan? || p.child.Join?)
  }

  /** Nothing is left to push anywhere. */
  predicate Settled(p: Plan) {
    !Pushable(p) &&
    match p
    case Scan(_, _, _, _) => true
    case Literal(_, _) => true
    case Filter(child, _) => Settled(child)
    case Join(l, r, _, _) => Settled(l) && Settled(r)
    case Projection(child, _, _) => Settled(child)
    case UnaryNode(_, child) => Settled(child)
  }

  /** No filter sits directly below a filter or a join. */
  predicate Unstacked(p: Plan) {
    match p
    case Scan(_, _, _, _) => true
    case Literal(_, _) => true
    case Filter(child, _) => !child.Filter? && Unstacked(child)
    case Join(l, r, _, _) => !l.Filter? && !r.Filter? && Unstacked(l) && Unstacked(r)
    case Projection(child, _, _) => Unstacked(child)
    case UnaryNode(_, child) => Unstacked(child)
  }

  // What the rule keeps.

  lemma {:induction false} SentKept(preds: seq<Expr>, t: JoinType, sl: Schema, sr: Schema, target: Target)
    requires !SomeLeaves(preds, t, sl, sr)
    ensures Sent(preds, t, sl, sr, target) == if target == ToKeep then preds else []
  {
    if preds != [] {
      var front, last := preds[..|preds| - 1], preds[|preds| - 1];
      assert forall i :: 0 <= i < |front| ==> front[i] == preds[i];
      SentKept(front, t, sl, sr, target);
      assert preds == front + [last];
    }
  }

  lemma {:induction false} SentStays(preds: seq<Expr>, t: JoinType, sl: Schema, sr: Schema)
    ensures !SomeLeaves(Sent(preds, t, sl, sr, ToKeep), t, sl, sr)
    ensures forall e :: e in Sent(preds, t, sl, sr, ToKeep) ==> e in preds
  {
    if preds != [] {
      SentStays(preds[..|preds| - 1], t, sl, sr);
    }
  }

  /** The conditions kept above a join are what its filter splits into. */
  lemma KeptConjuncts(pred: Expr, t: JoinType, sl: Schema, sr: Schema)
    ensures var keep := Sent(SplitPredicate(pred), t, sl, sr, ToKeep);
      keep != [] ==> SplitPredicate(MergePredicates(keep)) == keep && !SomeLeaves(keep, t, sl, sr)
  {
    var keep := Sent(SplitPredicate(pred), t, sl, sr, ToKeep);
    SplitHasNoAnd(pred);
    SentStays(SplitPredicate(pred), t, sl, sr);
    if keep != [] {
      SplitUndoesMerge(keep);
    }
  }

  lemma {:induction false} SomeSentElsewhere(preds: seq<Expr>, t: JoinType, sl: Schema, sr: Schema)
    requires SomeLeaves(preds, t, sl, sr)
    ensures |Sent(preds, t, sl, sr, ToKeep)| < |preds|
  {
    var front, last := preds[..|preds| - 1], preds[|preds| - 1];
    SentAtMost(front, t, sl, sr);
    if TargetIn(t, sl, sr, last) == ToKeep {
      var i :| 0 <= i < |preds| && TargetIn(t, sl, sr, preds[i]) != ToKeep;
      assert front[i] == preds[i];
      SomeSentElsewhere(front, t, sl, sr);
    }
  }

  lemma {:induction false} SentAtMost(preds: seq<Expr>, t: JoinType, sl: Schema, sr: Schema)
    ensures |Sent(preds, t, sl, sr, ToKeep)| <= |preds|
  {
    if preds != [] {
      SentAtMost(preds[..|preds| - 1], t, sl, sr);
    }
  }

  lemma JoinPushMoves(pred: Expr, l: Plan, r: Plan, on: seq<Expr>, t: JoinType)
    requires SomeLeaves(SplitPredicate(pred), t, OutputSchema(l), OutputSchema(r))
    ensures PushedThroughJoin(pred, l, r, on, t) != Filter(Join(l, r, on, t), pred)
  {
    KeptConjuncts(pred, t, OutputSchema(l), OutputSchema(r));
    SomeSentElsewhere(SplitPredicate(pred), t, OutputSchema(l), OutputSchema(r));
  }

  lemma AllKept(l: Plan, r: Plan, on: seq<Expr>, t: JoinType, preds: seq<Expr>)
    requires preds != []
    ensures Assembled(l, r, on, Shares([], [], [], preds, t)) == Filter(Join(l, r, on, t), MergePredicates(preds))
  {
    assert on + [] == on;
  }

  lemma SharesKept(preds: seq<Expr>, t: JoinType, sl: Schema, sr: Schema)
    requires !SomeLeaves(preds, t, sl, sr)
    ensures SharesOf(preds, t, sl, sr) == Shares([], [], [], preds, t)
  {
    SentKept(preds, t, sl, sr, ToLeft);
    SentKept(preds, t, sl, sr, ToRight);
    SentKept(preds, t, sl, sr, ToJoin);
    SentKept(preds, t, sl, sr, ToKeep);
  }

  lemma JoinPushStays(pred: Expr, l: Plan, r: Plan, on: seq<Expr>, t: JoinType)
    requires SplitPredicate(pred) != [] && !SomeLeaves(SplitPredicate(pred), t, OutputSchema(l), OutputSchema(r))
    ensures PushedThroughJoin(pred, l, r, on, t) == Filter(Join(l, r, on, t), MergePredicates(SplitPredicate(pred)))
  {
    SharesKept(SplitPredicate(pred), t, OutputSchema(l), OutputSchema(r));
    AllKept(l, r, on, t, SplitPredicate(pred));
  }

  /** `Pushable` is what the rule does: where it holds the node changes, and where it does
      not a filter keeps its child and its conjuncts. */
  lemma RuleMovesIffPushable(p: Plan)
    ensures Pushable(p) ==> Apply(p) != p
    ensures p.Filter? && !Pushable(p) ==>
      Apply(p).Filter? && Apply(p).child == p.child && SplitPredicate(Apply(p).condition) == SplitPredicate(p.condition)
  {
    if p.Filter? && p.child.Join? {
      if Pushable(p) {
        JoinPushMoves(p.condition, p.child.left, p.child.right, p.child.joinOn, p.child.joinType);
      } else {
        SplitOfMergedSplit(p.condition);
        JoinPushStays(p.condition, p.child.left, p.child.right, p.child.joinOn, p.child.joinType);
      }
    }
  }

  // The driver.

  lemma FilteredSchema(p: Plan, preds: seq<Expr>)
    ensures OutputSchema(Filtered(p, preds)) == OutputSchema(p)
  {
  }

  lemma ApplyKeepsSchema(p: Plan)
    ensures OutputSchema(Apply(p)) == OutputSchema(p)
  {
    if p.Filter? && p.child.Join? {
      var l, r, t := p.child.left, p.child.right, p.child.joinType;
      var preds, sl, sr := SplitPredicate(p.condition), OutputSchema(l), OutputSchema(r);
      FilteredSchema(l, Sent(preds, t, sl, sr, ToLeft));
      FilteredSchema(r, Sent(preds, t, sl, sr, ToRight));
    }
  }

  lemma {:induction false} OptimizeKeepsSchema(p: Plan)
    ensures OutputSchema(Optimize(p)) == OutputSchema(p)
    decreases Operators(p), TopFilters(p)
  {
    ApplyShrinks(p);
    ApplyKeepsSchema(p);
    var q := Apply(p);
    if q.Filter? || q.Projection? || q.UnaryNode? {
      OptimizeKeepsSchema(q.child);
    } else if q.Join? {
      OptimizeKeepsSchema(q.left);
      OptimizeKeepsSchema(q.right);
    }
  }

  lemma {:induction false} KeptMeansOuter(preds: seq<Expr>, t: JoinType, sl: Schema, sr: Schema)
    requires Sent(preds, t, sl, sr, ToKeep) != []
    ensures t != Cross && t != Inner
  {
    var front, last := preds[..|preds| - 1], preds[|preds| - 1];
    if TargetIn(t, sl, sr, last) != ToKeep {
      KeptMeansOuter(front, t, sl, sr);
    }
  }

  /** What remains of a filter above a join has nothing to push, whatever becomes of the
      join's children. */
  lemma KeptFilterStays(pred: Expr, l: Plan, r: Plan, on: seq<Expr>, t: JoinType)
    requires PushedThroughJoin(pred, l, r, on, t).Filter?
    ensures !Pushable(Optimize(Filter(Join(l, r, on, t), pred)))
  {
    var p, q := Filter(Join(l, r, on, t), pred), PushedThroughJoin(pred, l, r, on, t);
    ApplyShrinks(p);
    var preds, sl, sr := SplitPredicate(pred), OutputSchema(l), OutputSchema(r);
    KeptMeansOuter(preds, t, sl, sr);
    KeptConjuncts(pred, t, sl, sr);
    assert Optimize(q.child) == Join(Optimize(q.child.left), Optimize(q.child.right), q.child.joinOn, t);
    OptimizeKeepsSchema(q.child.left);
    OptimizeKeepsSchema(q.child.right);
    FilteredSchema(l, Sent(preds, t, sl, sr, ToLeft));
    FilteredSchema(r, Sent(preds, t, sl, sr, ToRight));
  }

  /** The filter goes away altogether. */
  predicate Absorbed(p: Plan) {
    p.Filter? && !Apply(p).Filter?
  }

  /** A filter on an absorbed filter that could have followed it. */
  predicate LeftBehind(p: Plan) {
    p.Filter? && Absorbed(p.child) && Pushable(Filter(Apply(p.child), p.condition))
  }

  /** No filter is left behind at any node the driver comes to. */
  predicate NoneLeftBehind(p: Plan)
    decreases Operators(p), TopFilters(p)
  {
    ApplyShrinks(p);
    !LeftBehind(p) &&
    match Apply(p)
    case Scan(_, _, _, _) => true
    case Literal(_, _) => true
    case Filter(child, _) => NoneLeftBehind(child)
    case Join(l, r, _, _) => NoneLeftBehind(l) && NoneLeftBehind(r)
    case Projection(child, _, _) => NoneLeftBehind(child)
    case UnaryNode(_, child) => NoneLeftBehind(child)
  }

  /** The filter above an absorbed one finds the same node to push to as it would have
      found right after the absorption. */
  lemma PushableAboveAbsorbed(c: Plan, pred: Expr)
    requires Absorbed(c)
    ensures Pushable(Filter(Optimize(c), pred)) <==> Pushable(Filter(Apply(c), pred))
  {
    ApplyShrinks(c);
    var q := Apply(c);
    if q.Join? {
      OptimizeKeepsSchema(q.left);
      OptimizeKeepsSchema(q.right);
      assert Optimize(c) == Join(Optimize(q.left), Optimize(q.right), q.joinOn, q.joinType);
    }
  }

  lemma PushableIffLeftBehind(p: Plan)
    ensures Pushable(Optimize(p)) <==> LeftBehind(p)
  {
    ApplyShrinks(p);
    if p.Filter? && p.child.Filter? {
      assert Optimize(p) == Filter(Optimize(p.child), p.condition);
      if Absorbed(p.child) {
        PushableAboveAbsorbed(p.child, p.condition);
      }
    } else if p.Filter? && p.child.Join? && Apply(p).Filter? {
      KeptFilterStays(p.condition, p.child.left, p.child.right, p.child.joinOn, p.child.joinType);
    }
  }

  /** The driver leaves nothing to push exactly when no filter is left behind. */
  lemma {:induction false} SettledIffNoneLeftBehind(p: Plan)
    ensures Settled(Optimize(p)) <==> NoneLeftBehind(p)
    decreases Operators(p), TopFilters(p)
  {
    ApplyShrinks(p);
    PushableIffLeftBehind(p);
    var q := Apply(p);
    if q.Filter? || q.Projection? || q.UnaryNode? {
      SettledIffNoneLeftBehind(q.child);
    } else if q.Join? {
      SettledIffNoneLeftBehind(q.left);
      SettledIffNoneLeftBehind(q.right);
    }
  }

  lemma FilteredUnstacked(p: Plan, preds: seq<Expr>)
    requires Unstacked(p) && !p.Filter?
    ensures Unstacked(Filtered(p, preds)) && Operators(Filtered(p, preds)) == Operators(p)
  {
  }

  lemma {:induction false} JoinOfUnstacked(l: Plan, r: Plan, on: seq<Expr>, t: JoinType)
    requires NoneLeftBehind(l) && NoneLeftBehind(r)
    ensures NoneLeftBehind(Join(l, r, on, t))
  {
    assert Apply(Join(l, r, on, t)) == Join(l, r, on, t);
  }

  lemma {:induction false} NoneBehindInUnstacked(p: Plan)
    requires Unstacked(p)
    ensures NoneLeftBehind(p)
    decreases Operators(p), TopFilters(p)
  {
    ApplyShrinks(p);
    if p.Filter? && p.child.Join? {
      var l, r, t := p.child.left, p.child.right, p.child.joinType;
      var preds, sl, sr := SplitPredicate(p.condition), OutputSchema(l), OutputSchema(r);
      var l1, r1 := Filtered(l, Sent(preds, t, sl, sr, ToLeft)), Filtered(r, Sent(preds, t, sl, sr, ToRight));
      FilteredUnstacked(l, Sent(preds, t, sl, sr, ToLeft));
      FilteredUnstacked(r, Sent(preds, t, sl, sr, ToRight));
      assert Operators(p) == Operators(p.child) == 1 + Operators(l) + Operators(r);
      NoneBehindInUnstacked(l1);
      NoneBehindInUnstacked(r1);
      var conds := Sent(preds, t, sl, sr, ToJoin);
      JoinOfUnstacked(l1, r1, p.child.joinOn + conds, if t == Cross && conds != [] then Inner else t);
    } else if p.Filter? {
      NoneBehindInUnstacked(p.child);
    } else if p.Join? {
      NoneBehindInUnstacked(p.left);
      NoneBehindInUnstacked(p.right);
    } else if p.Projection? || p.UnaryNode? {
      NoneBehindInUnstacked(p.child);
    }
  }

  /** In particular nothing is left to push if no filter sat directly below a filter or a
      join to begin with. */
  lemma UnstackedPlansSettle(p: Plan)
    requires Unstacked(p)
    ensures Settled(Optimize(p))
  {
    NoneBehindInUnstacked(p);
    SettledIffNoneLeftBehind(p);
  }

  /** And otherwise something can be: of two filters on a scan that could both be pushed, the
      upper one stays. */
  lemma UpperFilterStays(scan: Plan, lower: Expr, upper: Expr)
    requires scan.Scan? && OwnColumns(lower, scan.ref.alias) && OwnColumns(upper, scan.ref.alias)
    ensures var result := Optimize(Filter(Filter(scan, lower), upper));
      result == Filter(scan.(predicates := scan.predicates + [lower]), upper) && Pushable(result) && !Settled(result)
  {
    var inner := Filter(scan, lower);
    assert Apply(inner) == scan.(predicates := scan.predicates + [lower]);
    assert Optimize(inner) == scan.(predicates := scan.predicates + [lower]);
    assert Apply(Filter(inner, upper)) == Filter(inner, upper);
  }
}
