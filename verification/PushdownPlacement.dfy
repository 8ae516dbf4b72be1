/** Where predicate pushdown puts each conjunct, read off the plan it returns and said with
    the columns the conjunct mentions. */
module PushdownPlacement {
  import opened Expressions
  import opened LogicalPlans
  import opened PredicatePushdown

  // Conjuncts and merged conditions.

  predicate IsAnd(e: Expr) {
    e.BinaryLogic? && e.logic == And
  }

  lemma {:induction false} SplitHasNoAnd(e: Expr)
    ensures SplitPredicate(e) != [] && forall c :: c in SplitPredicate(e) ==> !IsAnd(c)
  {
    if IsAnd(e) {
      SplitHasNoAnd(e.left);
      SplitHasNoAnd(e.right);
    }
  }

  lemma {:induction false} SplitUndoesMerge(exprs: seq<Expr>)
    requires exprs != [] && forall e :: e in exprs ==> !IsAnd(e)
    ensures SplitPredicate(MergePredicates(exprs)) == exprs
  {
    if |exprs| > 1 {
      var front, last := exprs[..|exprs| - 1], exprs[|exprs| - 1];
      SplitUndoesMerge(front);
      assert last in exprs && exprs == front + [last];
    } else {
      assert exprs[0] in exprs && exprs == [exprs[0]];
    }
  }

  lemma SplitOfMergedSplit(pred: Expr)
    ensures SplitPredicate(pred) != []
    ensures SplitPredicate(MergePredicates(SplitPredicate(pred))) == SplitPredicate(pred)
  {
    SplitHasNoAnd(pred);
    SplitUndoesMerge(SplitPredicate(pred));
  }

  // Which conjuncts go where.

  /** Every column it mentions is in `own`, and not every one in `other`. */
  predicate OnlyIn(own: Schema, other: Schema, e: Expr) {
    CoversExpr(own, e) && !CoversExpr(other, e)
  }

  predicate OneSided(sl: Schema, sr: Schema, e: Expr) {
    OnlyIn(sl, sr, e) || OnlyIn(sr, sl, e)
  }

  /** Those that pass the test, in order. */
  function Those(preds: seq<Expr>, test: Expr -> bool): seq<Expr> {
    if preds == [] then [] else (if test(preds[0]) then [preds[0]] else []) + Those(preds[1..], test)
  }

  lemma {:induction false} ThoseAppend(preds: seq<Expr>, e: Expr, test: Expr -> bool)
    ensures Those(preds + [e], test) == Those(preds, test) + if test(e) then [e] else []
  {
    if preds == [] {
      assert (preds + [e])[1..] == [];
    } else {
      ThoseAppend(preds[1..], e, test);
      assert (preds + [e])[1..] == preds[1..] + [e];
    }
  }

  lemma {:induction false} ThoseMembers(preds: seq<Expr>, test: Expr -> bool, e: Expr)
    ensures e in Those(preds, test) <==> e in preds && test(e)
  {
    if preds != [] {
      ThoseMembers(preds[1..], test, e);
      assert preds == [preds[0]] + preds[1..];
    }
  }

  lemma {:induction false} SentIsThose(preds: seq<Expr>, t: JoinType, sl: Schema, sr: Schema, target: Target,
                                       test: Expr -> bool)
    requires forall e :: TargetIn(t, sl, sr, e) == target <==> test(e)
    ensures Sent(preds, t, sl, sr, target) == Those(preds, test)
  {
    if preds != [] {
      var front, last := preds[..|preds| - 1], preds[|preds| - 1];
      SentIsThose(front, t, sl, sr, target, test);
      ThoseAppend(front, last, test);
      assert preds == front + [last];
    }
  }

  lemma {:induction false} AllOfThem(preds: seq<Expr>, test: Expr -> bool)
    ensures (forall e :: e in preds ==> test(e)) ==> Those(preds, test) == preds
    ensures (forall e :: e in preds ==> !test(e)) ==> Those(preds, test) == []
  {
    if preds != [] {
      AllOfThem(preds[1..], test);
      assert preds == [preds[0]] + preds[1..] && preds[0] in preds;
    }
  }

  lemma SharesByType(preds: seq<Expr>, t: JoinType, sl: Schema, sr: Schema)
    ensures var s := SharesOf(preds, t, sl, sr);
      && (t == Inner || t == Cross ==>
            && s.left == Those(preds, e => OnlyIn(sl, sr, e)) && s.right == Those(preds, e => OnlyIn(sr, sl, e))
            && s.conds == Those(preds, e => !OneSided(sl, sr, e)) && s.keep == [])
      && (t == Left ==>
            && s.left == Those(preds, e => OnlyIn(sl, sr, e)) && s.right == s.conds == []
            && s.keep == Those(preds, e => !OnlyIn(sl, sr, e)))
      && (t == Right ==>
            && s.right == Those(preds, e => OnlyIn(sr, sl, e)) && s.left == s.conds == []
            && s.keep == Those(preds, e => !OnlyIn(sr, sl, e)))
      && (t == FullOuter ==> s.left == s.right == s.conds == [] && s.keep == preds)
  {
    var none, all := (e: Expr) => false, (e: Expr) => true;
    AllOfThem(preds, none);
    AllOfThem(preds, all);
    match t
    case Left =>
      SentIsThose(preds, t, sl, sr, ToLeft, e => OnlyIn(sl, sr, e));
      SentIsThose(preds, t, sl, sr, ToKeep, e => !OnlyIn(sl, sr, e));
      SentIsThose(preds, t, sl, sr, ToRight, none);
      SentIsThose(preds, t, sl, sr, ToJoin, none);
    case Right =>
      SentIsThose(preds, t, sl, sr, ToRight, e => OnlyIn(sr, sl, e));
      SentIsThose(preds, t, sl, sr, ToKeep, e => !OnlyIn(sr, sl, e));
      SentIsThose(preds, t, sl, sr, ToLeft, none);
      SentIsThose(preds, t, sl, sr, ToJoin, none);
    case FullOuter =>
      SentIsThose(preds, t, sl, sr, ToKeep, all);
      SentIsThose(preds, t, sl, sr, ToLeft, none);
      SentIsThose(preds, t, sl, sr, ToRight, none);
      SentIsThose(preds, t, sl, sr, ToJoin, none);
    case _ =>
      SentIsThose(preds, t, sl, sr, ToLeft, e => OnlyIn(sl, sr, e));
      SentIsThose(preds, t, sl, sr, ToRight, e => OnlyIn(sr, sl, e));
      SentIsThose(preds, t, sl, sr, ToJoin, e => !OneSided(sl, sr, e));
      SentIsThose(preds, t, sl, sr, ToKeep, none);
  }

  // Reading a plan.

  /** The node below a filter on top. */
  function Below(p: Plan): Plan {
    if p.Filter? then p.child else p
  }

  /** The conjuncts of a filter on top. */
  function OnTop(p: Plan): seq<Expr> {
    if p.Filter? then SplitPredicate(p.condition) else []
  }

  /** `p` is `base`, perhaps with a filter put on it, and these are the filter's conjuncts. */
  predicate PutOn(base: Plan, p: Plan, conjuncts: seq<Expr>) {
    if conjuncts == [] then p == base else p.Filter? && p.child == base && SplitPredicate(p.condition) == conjuncts
  }

  lemma FilteredPutsOn(base: Plan, preds: seq<Expr>)
    requires forall e :: e in preds ==> !IsAnd(e)
    ensures PutOn(base, Filtered(base, preds), preds)
  {
    if preds != [] {
      SplitUndoesMerge(preds);
    }
  }

  ghost predicate Placed(p: Plan, l: Plan, r: Plan, on: seq<Expr>, left: seq<Expr>, right: seq<Expr>,
                         conds: seq<Expr>, keep: seq<Expr>) {
    && Below(p).Join? && OnTop(p) == keep && (p.Filter? <==> keep != [])
    && PutOn(l, Below(p).left, left) && PutOn(r, Below(p).right, right) && Below(p).joinOn == on + conds
  }

  lemma SharesArePlaced(pred: Expr, l: Plan, r: Plan, on: seq<Expr>, t: JoinType)
    ensures var s := SharesOf(SplitPredicate(pred), t, OutputSchema(l), OutputSchema(r));
      Placed(Apply(Filter(Join(l, r, on, t), pred)), l, r, on, s.left, s.right, s.conds, s.keep)
  {
    var preds, sl, sr := SplitPredicate(pred), OutputSchema(l), OutputSchema(r);
    var s := SharesOf(preds, t, sl, sr);
    SplitHasNoAnd(pred);
    SentFrom(preds, t, sl, sr, ToLeft);
    SentFrom(preds, t, sl, sr, ToRight);
    SentFrom(preds, t, sl, sr, ToKeep);
    FilteredPutsOn(l, s.left);
    FilteredPutsOn(r, s.right);
    FilteredPutsOn(Join(Filtered(l, s.left), Filtered(r, s.right), on + s.conds, s.joinType), s.keep);
  }

  lemma {:induction false} SentFrom(preds: seq<Expr>, t: JoinType, sl: Schema, sr: Schema, target: Target)
    ensures forall e :: e in Sent(preds, t, sl, sr, target) ==> e in preds
  {
    if preds != [] {
      SentFrom(preds[..|preds| - 1], t, sl, sr, target);
    }
  }

  // The main results.

  /** An inner or cross join: the conjuncts over one side's columns alone go to a filter on
      that side, the others to the join condition, and no filter stays above. A cross join
      with a condition becomes an inner one. */
  lemma InnerPlacement(pred: Expr, l: Plan, r: Plan, on: seq<Expr>, t: JoinType)
    requires t == Inner || t == Cross
    ensures var q, preds := Apply(Filter(Join(l, r, on, t), pred)), SplitPredicate(pred);
      var sl, sr := OutputSchema(l), OutputSchema(r);
      var conds := Those(preds, e => !OneSided(sl, sr, e));
      && Placed(q, l, r, on, Those(preds, e => OnlyIn(sl, sr, e)), Those(preds, e => OnlyIn(sr, sl, e)), conds, [])
      && Below(q).joinType == if conds == [] then t else Inner
  {
    SharesByType(SplitPredicate(pred), t, OutputSchema(l), OutputSchema(r));
    SharesArePlaced(pred, l, r, on, t);
  }

  /** A left or right outer join: the conjuncts over the preserved side's columns alone go to
      a filter on that side, all others stay above. */
  lemma OuterPlacement(pred: Expr, l: Plan, r: Plan, on: seq<Expr>, t: JoinType)
    requires t == Left || t == Right
    ensures var q, preds := Apply(Filter(Join(l, r, on, t), pred)), SplitPredicate(pred);
      var sl, sr := OutputSchema(l), OutputSchema(r);
      && (t == Left ==>
            Placed(q, l, r, on, Those(preds, e => OnlyIn(sl, sr, e)), [], [], Those(preds, e => !OnlyIn(sl, sr, e))))
      && (t == Right ==>
            Placed(q, l, r, on, [], Those(preds, e => OnlyIn(sr, sl, e)), [], Those(preds, e => !OnlyIn(sr, sl, e))))
      && Below(q).joinType == t
  {
    SharesByType(SplitPredicate(pred), t, OutputSchema(l), OutputSchema(r));
    SharesArePlaced(pred, l, r, on, t);
  }

  /** A full outer join keeps everything above. */
  lemma FullOuterPlacement(pred: Expr, l: Plan, r: Plan, on: seq<Expr>)
    ensures Placed(Apply(Filter(Join(l, r, on, FullOuter), pred)), l, r, on, [], [], [], SplitPredicate(pred))
    ensures Below(Apply(Filter(Join(l, r, on, FullOuter), pred))).joinType == FullOuter
  {
    SharesByType(SplitPredicate(pred), FullOuter, OutputSchema(l), OutputSchema(r));
    SharesArePlaced(pred, l, r, on, FullOuter);
  }

  /** Every column it mentions comes from the table reference with this alias. */
  predicate OwnColumns(e: Expr, alias: string) {
    forall c :: c in GetReferencedColumns(e) ==> c.origin.Some? && c.origin.value.alias == alias
  }

  /** A scan takes in the filter above it exactly when the filter mentions its columns only;
      otherwise nothing changes. */
  lemma ScanPlacement(pred: Expr, scan: Plan)
    requires scan.Scan?
    ensures Apply(Filter(scan, pred)) ==
      if OwnColumns(pred, scan.ref.alias) then scan.(predicates := scan.predicates + [pred]) else Filter(scan, pred)
  {
    forall c | c in GetReferencedColumns(pred)
      ensures exists i :: 0 <= i < |GetReferencedColumns(pred)| && GetReferencedColumns(pred)[i] == c
    {
    }
  }

  lemma BothOwn(l: Expr, r: Expr, alias: string)
    ensures OwnColumns(BinaryLogic(l, r, And), alias) <==> OwnColumns(l, alias) && OwnColumns(r, alias)
  {
    assert forall c :: c in GetReferencedColumns(BinaryLogic(l, r, And)) <==>
      c in GetReferencedColumns(l) || c in GetReferencedColumns(r);
  }

  /** The driver takes the one-sided conjuncts of a filter above an inner join of two scans
      all the way: the left ones end up in the left scan, in one condition. */
  lemma OneSidedReachScan(pred: Expr, l: Plan, r: Plan, on: seq<Expr>)
    requires l.Scan? && r.Scan?
    requires var left := Those(SplitPredicate(pred), e => OnlyIn(OutputSchema(l), OutputSchema(r), e));
      left != [] && forall e :: e in left ==> OwnColumns(e, l.ref.alias)
    ensures var q := Optimize(Filter(Join(l, r, on, Inner), pred));
      && q.Join? && q.left.Scan? && |q.left.predicates| == |l.predicates| + 1
      && q.left == l.(predicates := l.predicates + [q.left.predicates[|l.predicates|]])
      && SplitPredicate(q.left.predicates[|l.predicates|]) ==
         Those(SplitPredicate(pred), e => OnlyIn(OutputSchema(l), OutputSchema(r), e))
  {
    var p := Filter(Join(l, r, on, Inner), pred);
    InnerPlacement(pred, l, r, on, Inner);
    ApplyShrinks(p);
    var j := Apply(p);
    assert Optimize(p) == Join(Optimize(j.left), Optimize(j.right), j.joinOn, j.joinType);
    SplitOwn(j.left.condition, l.ref.alias);
    ScanPlacement(j.left.condition, l);
    ApplyShrinks(j.left);
  }

  lemma {:induction false} SplitOwn(e: Expr, alias: string)
    ensures OwnColumns(e, alias) <==> forall c :: c in SplitPredicate(e) ==> OwnColumns(c, alias)
  {
    if IsAnd(e) {
      SplitOwn(e.left, alias);
      SplitOwn(e.right, alias);
      BothOwn(e.left, e.right, alias);
    } else {
      assert SplitPredicate(e) == [e];
    }
  }
}
