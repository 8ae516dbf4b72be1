/** `PredicatePushDownRule` of `planner/predicate_pushdown.go` and the driver loop of
    `planner/optimizer.go`: the rewrite terminates and leaves the rows of every plan on
    every database unchanged. Plan nodes are values here; the code overwrites them. */
module PredicatePushdown {
  import opened Expressions
  import opened LogicalPlans

  // The rule.

  /** Where one conjunct of a filter above a join goes. */
  datatype Target = ToLeft | ToRight | ToJoin | ToKeep

  function TargetOf(t: JoinType, appliesLeft: bool, appliesRight: bool): Target {
    match t
    case Left => if appliesLeft && !appliesRight then ToLeft else ToKeep
    case Right => if appliesRight && !appliesLeft then ToRight else ToKeep
    case FullOuter => ToKeep
    case _ => if appliesLeft && !appliesRight then ToLeft else if appliesRight && !appliesLeft then ToRight else ToJoin
  }

  function TargetIn(t: JoinType, sl: Schema, sr: Schema, pred: Expr): Target {
    TargetOf(t, CoversExpr(sl, pred), CoversExpr(sr, pred))
  }

  /** The conjuncts sent to `target`, in order. */
  function Sent(preds: seq<Expr>, t: JoinType, sl: Schema, sr: Schema, target: Target): seq<Expr> {
    if preds == [] then []
    else
      var front, last := preds[..|preds| - 1], preds[|preds| - 1];
      Sent(front, t, sl, sr, target) + if TargetIn(t, sl, sr, last) == target then [last] else []
  }

  function Filtered(p: Plan, preds: seq<Expr>): Plan {
    if preds == [] then p else Filter(p, MergePredicates(preds))
  }

  /** The four lists of `pushThroughJoin`, and the join type as the loop leaves it. */
  datatype Shares = Shares(left: seq<Expr>, right: seq<Expr>, conds: seq<Expr>, keep: seq<Expr>, joinType: JoinType)

  function SharesOf(preds: seq<Expr>, t: JoinType, sl: Schema, sr: Schema): Shares {
    var conds := Sent(preds, t, sl, sr, ToJoin);
    Shares(Sent(preds, t, sl, sr, ToLeft), Sent(preds, t, sl, sr, ToRight), conds, Sent(preds, t, sl, sr, ToKeep),
           if t == Cross && conds != [] then Inner else t)
  }

  /** The join with each share in its place. */
  function Assembled(l: Plan, r: Plan, on: seq<Expr>, s: Shares): Plan {
    Filtered(Join(Filtered(l, s.left), Filtered(r, s.right), on + s.conds, s.joinType), s.keep)
  }

  function PushedThroughJoin(pred: Expr, l: Plan, r: Plan, on: seq<Expr>, t: JoinType): Plan {
    Assembled(l, r, on, SharesOf(SplitPredicate(pred), t, OutputSchema(l), OutputSchema(r)))
  }

  lemma SentNext(preds: seq<Expr>, i: nat, t: JoinType, sl: Schema, sr: Schema, target: Target)
    requires i < |preds|
    ensures Sent(preds[..i + 1], t, sl, sr, target) ==
      Sent(preds[..i], t, sl, sr, target) + if TargetIn(t, sl, sr, preds[i]) == target then [preds[i]] else []
  {
    assert preds[..i + 1][..i] == preds[..i];
  }

  /** One turn of the loop. */
  method Share(s: Shares, p: Expr, appliesLeft: bool, appliesRight: bool) returns (r: Shares)
    ensures r == match TargetOf(s.joinType, appliesLeft, appliesRight)
                 case ToLeft => s.(left := s.left + [p])
                 case ToRight => s.(right := s.right + [p])
                 case ToJoin => s.(conds := s.conds + [p], joinType := Inner)
                 case ToKeep => s.(keep := s.keep + [p])
  {
    r := s;
    match s.joinType {
      case Inner =>
        if appliesLeft && !appliesRight {
          r := r.(left := r.left + [p]);
        } else if appliesRight && !appliesLeft {
          r := r.(right := r.right + [p]);
        } else {
          r := r.(conds := r.conds + [p]);
        }
      case Left =>
        if appliesLeft && !appliesRight {
          r := r.(left := r.left + [p]);
        } else {
          r := r.(keep := r.keep + [p]);
        }
      case Right =>
        if appliesRight && !appliesLeft {
          r := r.(right := r.right + [p]);
        } else {
          r := r.(keep := r.keep + [p]);
        }
      case FullOuter =>
        r := r.(keep := r.keep + [p]);
      case Cross =>
        if appliesLeft && !appliesRight {
          r := r.(left := r.left + [p]);
        } else if appliesRight && !appliesLeft {
          r := r.(right := r.right + [p]);
        } else {
          r := r.(joinType := Inner);
          r := r.(conds := r.conds + [p]);
        }
    }
  }

  /** The loop of `pushThroughJoin`. */
  method Distribute(preds: seq<Expr>, t: JoinType, sl: Schema, sr: Schema) returns (s: Shares)
    ensures s == SharesOf(preds, t, sl, sr)
  {
    s := Shares([], [], [], [], t);
    var i := 0;
    while i < |preds|
      invariant 0 <= i <= |preds| && s == SharesOf(preds[..i], t, sl, sr)
    {
      SentNext(preds, i, t, sl, sr, ToLeft);
      SentNext(preds, i, t, sl, sr, ToRight);
      SentNext(preds, i, t, sl, sr, ToJoin);
      SentNext(preds, i, t, sl, sr, ToKeep);
      s := Share(s, preds[i], CoversExpr(sl, preds[i]), CoversExpr(sr, preds[i]));
      i := i + 1;
    }
    assert preds[..i] == preds;
  }

  method PushThroughJoin(pred: Expr, l: Plan, r: Plan, on: seq<Expr>, t: JoinType) returns (result: Plan)
    ensures result == PushedThroughJoin(pred, l, r, on, t)
  {
    var predicates := SplitPredicate(pred);
    var s := Distribute(predicates, t, OutputSchema(l), OutputSchema(r));
    var join := Join(l, r, on, s.joinType);
    if |s.left| > 0 {
      var merged := Merge(s.left);
      join := join.(left := Filter(join.left, merged.value));
    }
    if |s.right| > 0 {
      var merged := Merge(s.right);
      join := join.(right := Filter(join.right, merged.value));
    }
    join := join.(joinOn := join.joinOn + s.conds);
    if |s.keep| > 0 {
      var merged := Merge(s.keep);
      return Filter(join, merged.value);
    }
    return join;
  }

  predicate CanPushToScan(e: Expr, ref: TableRef) {
    forall i :: 0 <= i < |GetReferencedColumns(e)| ==>
      var c := GetReferencedColumns(e)[i]; c.origin.Some? && c.origin.value.alias == ref.alias
  }

  /** One application of the rule; it matches filters only. */
  function Apply(p: Plan): Plan {
    if !p.Filter? then p
    else if p.child.Scan? && CanPushToScan(p.condition, p.child.ref) then
      p.child.(predicates := p.child.predicates + [p.condition])
    else if p.child.Join? then
      PushedThroughJoin(p.condition, p.child.left, p.child.right, p.child.joinOn, p.child.joinType)
    else p
  }

  // Termination: the driver's measure.

  /** Nodes that are not filters. */
  function Operators(p: Plan): nat {
    match p
    case Scan(_, _, _, _) => 1
    case Literal(_, _) => 1
    case Filter(child, _) => Operators(child)
    case Join(l, r, _, _) => 1 + Operators(l) + Operators(r)
    case Projection(child, _, _) => 1 + Operators(child)
    case UnaryNode(_, child) => 1 + Operators(child)
  }

  /** Filters stacked at the top. */
  function TopFilters(p: Plan): nat {
    if p.Filter? then 1 + TopFilters(p.child) else 0
  }

  lemma FilteredMeasure(p: Plan, preds: seq<Expr>)
    ensures Operators(Filtered(p, preds)) == Operators(p)
    ensures TopFilters(Filtered(p, preds)) <= TopFilters(p) + 1
  {
  }

  /** The rule never adds operators and leaves at most one filter above the join it pushed
      through, so every child is smaller in the lexicographic measure. */
  lemma ApplyShrinks(p: Plan)
    ensures Operators(Apply(p)) == Operators(p)
    ensures TopFilters(Apply(p)) <= TopFilters(p)
    ensures Apply(p).Filter? ==> p.Filter?
  {
    if p.Filter? && p.child.Join? {
      var l, r, t := p.child.left, p.child.right, p.child.joinType;
      var preds, sl, sr := SplitPredicate(p.condition), OutputSchema(l), OutputSchema(r);
      var lp, rp, conds := Sent(preds, t, sl, sr, ToLeft), Sent(preds, t, sl, sr, ToRight),
                           Sent(preds, t, sl, sr, ToJoin);
      FilteredMeasure(l, lp);
      FilteredMeasure(r, rp);
      FilteredMeasure(Join(Filtered(l, lp), Filtered(r, rp), p.child.joinOn + conds,
                           if t == Cross && conds != [] then Inner else t),
                      Sent(preds, t, sl, sr, ToKeep));
    }
  }

  /** `OptimizeWithRule`: apply at the node, then recurse into the children. The driver
      repeats `Apply` while it returns another node object. A rewritten filter that stays
      a filter is the same object, and any other result no longer matches, so one
      application per node is all that ever happens. */
  function Optimize(p: Plan): Plan
    decreases Operators(p), TopFilters(p)
  {
    ApplyShrinks(p);
    match Apply(p)
    case Scan(oid, ref, schema, preds) => Scan(oid, ref, schema, preds)
    case Literal(rows, schema) => Literal(rows, schema)
    case Filter(child, pred) => Filter(Optimize(child), pred)
    case Join(l, r, on, t) => Join(Optimize(l), Optimize(r), on, t)
    case Projection(child, exprs, schema) => Projection(Optimize(child), exprs, schema)
    case UnaryNode(u, child) => UnaryNode(u, Optimize(child))
  }

  /** The driver as it is written, with its loop. */
  method OptimizeWithRule(p: Plan) returns (result: Plan)
    ensures result == Optimize(p)
    decreases Operators(p), TopFilters(p)
  {
    ApplyShrinks(p);
    var node := p;
    var changed := true;
    while changed
      invariant if changed then node == p || (node == Apply(p) && !node.Filter?) else node == Apply(p)
      decreases changed, node.Filter?
    {
      changed := false;
      if node.Filter? {
        if node.child.Join? {
          var join := node.child;
          node := PushThroughJoin(node.condition, join.left, join.right, join.joinOn, join.joinType);
        } else {
          node := Apply(node);
        }
        changed := !node.Filter?;
      }
    }
    match node
    case Filter(child, pred) =>
      var c := OptimizeWithRule(child);
      result := Filter(c, pred);
    case Join(l, r, on, t) =>
      var cl := OptimizeWithRule(l);
      var cr := OptimizeWithRule(r);
      result := Join(cl, cr, on, t);
    case Projection(child, exprs, schema) =>
      var c := OptimizeWithRule(child);
      result := Projection(c, exprs, schema);
    case UnaryNode(u, child) =>
      var c := OptimizeWithRule(child);
      result := UnaryNode(u, c);
    case _ =>
      result := node;
  }
}
