/** `ExpressionBinder` of `planner/physical_plan_builder.go` and the projection and filter
    rules of `planner/physical_plan_rule.go`: binding, shifting and fusing commute with
    evaluation. A column the binder panics on makes the result `None`. */
module Binding {
  import opened Expressions
  import opened LogicalPlans
  import PushdownMeaning

  // Binding columns to fields.

  /** The binder's lookup loop. */
  method Lookup(schema: Schema, c: LogicalColumn) returns (field: Option<nat>)
    ensures field == if Contains(schema, c) then Some(FieldOf(schema, c)) else None
  {
    var i := 0;
    while i < |schema|
      invariant 0 <= i <= |schema| && forall j :: 0 <= j < i ==> !ColumnEquals(schema[j], c)
    {
      if ColumnEquals(schema[i], c) {
        return Some(i);
      }
      i := i + 1;
    }
    return None;
  }

  function BindExpr(e: Expr, schema: Schema): Option<Expr> {
    match e
    case Column(c) => if Contains(schema, c) then Some(Bound(FieldOf(schema, c))) else None
    case Bound(_) => Some(e)
    case Const(_) => Some(e)
    case Negation(c) =>
      var b := BindExpr(c, schema);
      if b.Some? then Some(Negation(b.value)) else None
    case NullCheck(c, test) =>
      var b := BindExpr(c, schema);
      if b.Some? then Some(NullCheck(b.value, test)) else None
    case _ =>
      var l, r := BindExpr(e.left, schema), BindExpr(e.right, schema);
      if l.Some? && r.Some? then Some(WithOperands(e, l.value, r.value)) else None
  }

  function WithOperands(e: Expr, l: Expr, r: Expr): Expr
    requires e.Compared? || e.BinaryLogic? || e.Arith? || e.Concat? || e.Like?
  {
    match e
    case Compared(_, _, comp) => Compared(l, r, comp)
    case BinaryLogic(_, _, logic) => BinaryLogic(l, r, logic)
    case Arith(_, _, op) => Arith(l, r, op)
    case Concat(_, _) => Concat(l, r)
    case Like(_, _) => Like(l, r)
  }

  /** All columns inside an expression, also those it does not report. */
  function Columns(e: Expr): set<LogicalColumn> {
    match e
    case Column(c) => {c}
    case Bound(_) => {}
    case Const(_) => {}
    case Negation(c) => Columns(c)
    case NullCheck(c, _) => Columns(c)
    case _ => Columns(e.left) + Columns(e.right)
  }

  predicate IsBound(e: Expr) {
    match e
    case Column(_) => false
    case Bound(_) => true
    case Const(_) => true
    case Negation(c) => IsBound(c)
    case NullCheck(c, _) => IsBound(c)
    case _ => IsBound(e.left) && IsBound(e.right)
  }

  /** Operands that agree in value give results that agree. */
  lemma EvalOperands(e: Expr, s1: Schema, r1: Row, l: Expr, r: Expr, s2: Schema, r2: Row, like: LikeMatch)
    requires e.Compared? || e.BinaryLogic? || e.Arith? || e.Concat? || e.Like?
    requires Eval(e.left, s1, r1, like) == Eval(l, s2, r2, like)
    requires Eval(e.right, s1, r1, like) == Eval(r, s2, r2, like)
    ensures Eval(e, s1, r1, like) == Eval(WithOperands(e, l, r), s2, r2, like)
  {
  }

  /** Binding succeeds exactly when the schema has every column of the expression. The
      bound expression then needs no schema: on a tuple it has the value the logical
      expression has under the schema's column-to-field environment. */
  lemma {:induction false} BindKeepsValue(e: Expr, schema: Schema, physical: Schema, row: Row, like: LikeMatch)
    ensures BindExpr(e, schema).Some? <==> forall c :: c in Columns(e) ==> Contains(schema, c)
    ensures BindExpr(e, schema).Some? ==> IsBound(BindExpr(e, schema).value)
    ensures BindExpr(e, schema).Some? ==>
      Eval(BindExpr(e, schema).value, physical, row, like) == Eval(e, schema, row, like)
  {
    if e.Negation? || e.NullCheck? {
      BindKeepsValue(e.child, schema, physical, row, like);
    } else if !e.Column? && !e.Bound? && !e.Const? {
      BindKeepsValue(e.left, schema, physical, row, like);
      BindKeepsValue(e.right, schema, physical, row, like);
      var l, r := BindExpr(e.left, schema), BindExpr(e.right, schema);
      if l.Some? && r.Some? {
        EvalOperands(e, schema, row, l.value, r.value, physical, row, like);
      }
    }
  }

  /** A column whose name no other column has, up to case, is bound to its own field. */
  lemma UniqueColumnBinds(schema: Schema, i: nat, row: Row, like: LikeMatch)
    requires i < |schema| == |row|
    requires forall j :: 0 <= j < |schema| && j != i ==> !SameButCase(schema[j].cname, schema[i].cname)
    ensures BindExpr(Column(schema[i]), schema) == Some(Bound(i))
    ensures Eval(Column(schema[i]), schema, row, like) == row[i]
  {
    FieldOfUniqueName(schema, i);
  }

  /** Where the report is complete it lists exactly the columns inside. */
  lemma {:induction false} ReportsExactlyColumns(e: Expr)
    requires ReportsAllColumns(e)
    ensures forall c :: c in GetReferencedColumns(e) <==> c in Columns(e)
  {
    if e.Negation? {
      ReportsExactlyColumns(e.child);
    } else if !e.Column? && !e.Const? {
      ReportsExactlyColumns(e.left);
      ReportsExactlyColumns(e.right);
    }
  }

  // Shifting to the right side of a joined tuple.

  function ShiftExpr(e: Expr, k: nat): Expr {
    match e
    case Column(_) => e
    case Bound(i) => Bound(i + k)
    case Const(_) => e
    case Negation(c) => Negation(ShiftExpr(c, k))
    case NullCheck(c, test) => NullCheck(ShiftExpr(c, k), test)
    case _ => WithOperands(e, ShiftExpr(e.left, k), ShiftExpr(e.right, k))
  }

  lemma {:induction false} ShiftKeepsValue(e: Expr, physical: Schema, l: Row, r: Row, like: LikeMatch)
    requires IsBound(e)
    ensures Eval(ShiftExpr(e, |l|), physical, l + r, like) == Eval(e, physical, r, like)
  {
    if e.Negation? || e.NullCheck? {
      ShiftKeepsValue(e.child, physical, l, r, like);
    } else if !e.Bound? && !e.Const? {
      ShiftKeepsValue(e.left, physical, l, r, like);
      ShiftKeepsValue(e.right, physical, l, r, like);
      EvalOperands(e, physical, r, ShiftExpr(e.left, |l|), ShiftExpr(e.right, |l|), physical, l + r, like);
    }
  }

  /** Binding against the right input and shifting by the left input's width is binding
      against the joined schema, for an expression that reads no column of the left. */
  lemma {:induction false} ShiftOfBoundRight(e: Expr, sl: Schema, sr: Schema)
    requires BindExpr(e, sr).Some? && Logical(e)
    requires forall c :: c in Columns(e) ==> !Contains(sl, c)
    ensures BindExpr(e, sl + sr) == Some(ShiftExpr(BindExpr(e, sr).value, |sl|))
  {
    if e.Column? {
      assert e.col in Columns(e);
      PushdownMeaning.FieldOfJoined(sl, sr, e.col);
    } else if e.Negation? || e.NullCheck? {
      ShiftOfBoundRight(e.child, sl, sr);
    } else if !e.Const? {
      ShiftOfBoundRight(e.left, sl, sr);
      ShiftOfBoundRight(e.right, sl, sr);
    }
  }

  predicate Logical(e: Expr) {
    match e
    case Column(_) => true
    case Bound(_) => false
    case Const(_) => true
    case Negation(c) => Logical(c)
    case NullCheck(c, _) => Logical(c)
    case _ => Logical(e.left) && Logical(e.right)
  }

  // Fusing stacked projections.

  function FuseProjectionIntoExpr(e: Expr, childSchema: Schema, childExprs: seq<Expr>): Option<Expr>
    requires |childSchema| == |childExprs|
  {
    match e
    case Column(c) => if Contains(childSchema, c) then Some(childExprs[FieldOf(childSchema, c)]) else None
    case Bound(_) => None
    case Const(_) => Some(e)
    case Negation(c) =>
      var b := FuseProjectionIntoExpr(c, childSchema, childExprs);
      if b.Some? then Some(Negation(b.value)) else None
    case NullCheck(c, test) =>
      var b := FuseProjectionIntoExpr(c, childSchema, childExprs);
      if b.Some? then Some(NullCheck(b.value, test)) else None
    case _ =>
      var l, r := FuseProjectionIntoExpr(e.left, childSchema, childExprs),
                  FuseProjectionIntoExpr(e.right, childSchema, childExprs);
      if l.Some? && r.Some? then Some(WithOperands(e, l.value, r.value)) else None
  }

  /** Fusion succeeds exactly on logical expressions over the child's columns, and the
      fused expression on the child's input has the value of the original on the child's
      output. */
  lemma {:induction false} FuseKeepsValue(e: Expr, childSchema: Schema, childExprs: seq<Expr>, physical: Schema,
                                          row: Row, like: LikeMatch)
    requires |childSchema| == |childExprs|
    ensures var f := FuseProjectionIntoExpr(e, childSchema, childExprs);
      && (f.Some? <==> Logical(e) && forall c :: c in Columns(e) ==> Contains(childSchema, c))
      && (f.Some? ==>
            Eval(f.value, physical, row, like) == Eval(e, childSchema, EvalAll(childExprs, physical, row, like), like))
  {
    if e.Negation? || e.NullCheck? {
      FuseKeepsValue(e.child, childSchema, childExprs, physical, row, like);
    } else if !e.Column? && !e.Bound? && !e.Const? {
      FuseKeepsValue(e.left, childSchema, childExprs, physical, row, like);
      FuseKeepsValue(e.right, childSchema, childExprs, physical, row, like);
      var l, r := FuseProjectionIntoExpr(e.left, childSchema, childExprs),
                  FuseProjectionIntoExpr(e.right, childSchema, childExprs);
      if l.Some? && r.Some? {
        EvalOperands(e, childSchema, EvalAll(childExprs, physical, row, like), l.value, r.value, physical, row, like);
      }
    }
  }

  // The physical projection rule.

  /** Physical plans as far as the projection rule looks into them. */
  datatype Physical = Opaque(id: nat) | ProjectionNode(child: Physical, exprs: seq<Expr>)

  function PhysicalRows(p: Physical, inputs: nat -> seq<Row>, like: LikeMatch): seq<Row> {
    match p
    case Opaque(id) => inputs(id)
    case ProjectionNode(child, exprs) => ProjectRows(PhysicalRows(child, inputs, like), exprs, [], like)
  }

  function FuseAll(exprs: seq<Expr>, childSchema: Schema, childExprs: seq<Expr>): Option<seq<Expr>>
    requires |childSchema| == |childExprs|
  {
    if exprs == [] then Some([])
    else
      var front := FuseAll(exprs[..|exprs| - 1], childSchema, childExprs);
      var last := FuseProjectionIntoExpr(exprs[|exprs| - 1], childSchema, childExprs);
      if front.Some? && last.Some? then Some(front.value + [last.value]) else None
  }

  function BindAll(exprs: seq<Expr>, schema: Schema): Option<seq<Expr>> {
    if exprs == [] then Some([])
    else
      var front, last := BindAll(exprs[..|exprs| - 1], schema), BindExpr(exprs[|exprs| - 1], schema);
      if front.Some? && last.Some? then Some(front.value + [last.value]) else None
  }

  predicate Fits(child: Physical, schema: Schema) {
    child.ProjectionNode? ==> |child.exprs| == |schema|
  }

  function PlannedProjection(exprs: seq<Expr>, schema: Schema, child: Physical): Option<Physical>
    requires Fits(child, schema)
  {
    var fused := if child.ProjectionNode? then FuseAll(exprs, schema, child.exprs) else None;
    if fused.Some? then Some(ProjectionNode(child.child, fused.value))
    else
      var bound := BindAll(exprs, schema);
      if bound.Some? then Some(ProjectionNode(child, bound.value)) else None
  }

  lemma {:induction false} FailedPrefix(exprs: seq<Expr>, schema: Schema, childExprs: seq<Expr>, i: nat)
    requires i < |exprs|
    ensures BindExpr(exprs[i], schema).None? ==> BindAll(exprs, schema).None?
    ensures |schema| == |childExprs| && FuseProjectionIntoExpr(exprs[i], schema, childExprs).None? ==>
      FuseAll(exprs, schema, childExprs).None?
  {
    if i < |exprs| - 1 {
      FailedPrefix(exprs[..|exprs| - 1], schema, childExprs, i);
    }
  }

  /** `ProjectionRule.Apply` with its two loops. */
  method ApplyProjectionRule(exprs: seq<Expr>, schema: Schema, child: Physical) returns (result: Option<Physical>)
    requires Fits(child, schema)
    ensures result == PlannedProjection(exprs, schema, child)
  {
    var physExprs: seq<Expr> := [];
    if child.ProjectionNode? {
      var projectionFused, i := true, 0;
      while projectionFused && i < |exprs|
        invariant 0 <= i <= |exprs|
        invariant projectionFused ==> FuseAll(exprs[..i], schema, child.exprs) == Some(physExprs)
        invariant !projectionFused ==> FuseAll(exprs, schema, child.exprs).None?
        decreases projectionFused, |exprs| - i
      {
        assert exprs[..i + 1][..i] == exprs[..i];
        var f := FuseProjectionIntoExpr(exprs[i], schema, child.exprs);
        if f.None? {
          FailedPrefix(exprs, schema, child.exprs, i);
          projectionFused := false;
        } else {
          physExprs := physExprs + [f.value];
          i := i + 1;
        }
      }
      if projectionFused {
        assert exprs[..i] == exprs;
        return Some(ProjectionNode(child.child, physExprs));
      }
      physExprs := [];
    }
    var i := 0;
    while i < |exprs|
      invariant 0 <= i <= |exprs| && BindAll(exprs[..i], schema) == Some(physExprs)
    {
      assert exprs[..i + 1][..i] == exprs[..i];
      var b := BindExpr(exprs[i], schema);
      if b.None? {
        FailedPrefix(exprs, schema, [], i);
        return None;
      }
      physExprs := physExprs + [b.value];
      i := i + 1;
    }
    assert exprs[..i] == exprs;
    return Some(ProjectionNode(child, physExprs));
  }

  lemma EvalAllAppend(front: seq<Expr>, last: Expr, schema: Schema, row: Row, like: LikeMatch)
    ensures EvalAll(front + [last], schema, row, like) ==
      EvalAll(front, schema, row, like) + [Eval(last, schema, row, like)]
  {
  }

  lemma {:induction false} BindAllKeepsValues(exprs: seq<Expr>, schema: Schema, row: Row, like: LikeMatch)
    ensures BindAll(exprs, schema).Some? <==> forall e, c :: e in exprs && c in Columns(e) ==> Contains(schema, c)
    ensures BindAll(exprs, schema).Some? ==>
      EvalAll(BindAll(exprs, schema).value, [], row, like) == EvalAll(exprs, schema, row, like)
  {
    if exprs != [] {
      var front, last := exprs[..|exprs| - 1], exprs[|exprs| - 1];
      BindAllKeepsValues(front, schema, row, like);
      BindKeepsValue(last, schema, [], row, like);
      assert exprs == front + [last];
      if BindAll(exprs, schema).Some? {
        EvalAllAppend(front, last, schema, row, like);
        EvalAllAppend(BindAll(front, schema).value, BindExpr(last, schema).value, [], row, like);
      }
    }
  }

  /** Logical and over the child's columns. */
  predicate Fusible(e: Expr, childSchema: Schema) {
    Logical(e) && forall c :: c in Columns(e) ==> Contains(childSchema, c)
  }

  lemma {:induction false} FuseAllKeepsValues(exprs: seq<Expr>, childSchema: Schema, childExprs: seq<Expr>, row: Row,
                                              like: LikeMatch)
    requires |childSchema| == |childExprs|
    ensures FuseAll(exprs, childSchema, childExprs).Some? <==> forall e :: e in exprs ==> Fusible(e, childSchema)
    ensures FuseAll(exprs, childSchema, childExprs).Some? ==>
      EvalAll(FuseAll(exprs, childSchema, childExprs).value, [], row, like) ==
      EvalAll(exprs, childSchema, EvalAll(childExprs, [], row, like), like)
  {
    if exprs != [] {
      var front, last := exprs[..|exprs| - 1], exprs[|exprs| - 1];
      FuseAllKeepsValues(front, childSchema, childExprs, row, like);
      FuseKeepsValue(last, childSchema, childExprs, [], row, like);
      assert exprs == front + [last];
      assert last in exprs && (forall e :: e in exprs <==> e in front || e == last);
      if FuseAll(exprs, childSchema, childExprs).Some? {
        EvalAllAppend(front, last, childSchema, EvalAll(childExprs, [], row, like), like);
        EvalAllAppend(FuseAll(front, childSchema, childExprs).value,
                      FuseProjectionIntoExpr(last, childSchema, childExprs).value, [], row, like);
      }
    }
  }

  /** The physical projection, fused or not, yields what the logical projection yields on
      the child's output; it is refused exactly when some column is missing there. */
  lemma PlannedProjectionKeepsRows(exprs: seq<Expr>, schema: Schema, child: Physical, inputs: nat -> seq<Row>,
                                   like: LikeMatch)
    requires Fits(child, schema)
    ensures var p := PlannedProjection(exprs, schema, child);
      && (p.Some? <==> forall e, c :: e in exprs && c in Columns(e) ==> Contains(schema, c))
      && (p.Some? ==>
            PhysicalRows(p.value, inputs, like) == ProjectRows(PhysicalRows(child, inputs, like), exprs, schema, like))
  {
    var p := PlannedProjection(exprs, schema, child);
    BindAllKeepsValues(exprs, schema, [], like);
    if child.ProjectionNode? && FuseAll(exprs, schema, child.exprs).Some? {
      FuseAllKeepsValues(exprs, schema, child.exprs, [], like);
      var below := PhysicalRows(child.child, inputs, like);
      forall i | 0 <= i < |below|
        ensures PhysicalRows(p.value, inputs, like)[i] ==
          EvalAll(exprs, schema, PhysicalRows(child, inputs, like)[i], like)
      {
        FuseAllKeepsValues(exprs, schema, child.exprs, below[i], like);
      }
    } else if p.Some? {
      var rows := PhysicalRows(child, inputs, like);
      forall i | 0 <= i < |rows|
        ensures PhysicalRows(p.value, inputs, like)[i] == EvalAll(exprs, schema, rows[i], like)
      {
        BindAllKeepsValues(exprs, schema, rows[i], like);
      }
    }
  }

  /** Stacked projections become one exactly when the upper one's expressions are logical. */
  lemma StackedProjectionsFuse(exprs: seq<Expr>, schema: Schema, child: Physical, like: LikeMatch)
    requires Fits(child, schema) && PlannedProjection(exprs, schema, child).Some?
    ensures var p := PlannedProjection(exprs, schema, child).value;
      && p.ProjectionNode? && |p.exprs| == |exprs|
      && p.child == if child.ProjectionNode? && (forall e :: e in exprs ==> Logical(e)) then child.child else child
  {
    PlannedProjectionKeepsRows(exprs, schema, child, _ => [], like);
    BindAllKeepsValues(exprs, schema, [], like);
    if child.ProjectionNode? {
      FuseAllKeepsValues(exprs, schema, child.exprs, [], like);
    }
  }

  /** `wrapInFilter`: the one bound predicate lets a row through exactly when all the
      logical predicates do. */
  lemma WrappedFilterKeepsRows(preds: seq<Expr>, schema: Schema, row: Row, like: LikeMatch)
    requires preds != [] && BindExpr(MergePredicates(preds), schema).Some?
    ensures ExprIsTrue(Eval(BindExpr(MergePredicates(preds), schema).value, [], row, like)) <==>
      AllTrue(preds, schema, row, like)
  {
    BindKeepsValue(MergePredicates(preds), schema, [], row, like);
    MergeKeepsMeaning(preds, schema, row, like);
  }
}
